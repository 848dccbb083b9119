/**
 Blocks as Bitcoin serialises them (BIP 144, section "Serialization"), and what the walk of
 BlockWalk.dfy makes of every well-formed block.
 */
module Serialization {
  import opened Bits
  import opened Bytes
  import opened BlockWalk
  import Digits

  datatype TxIn = TxIn(outpoint: seq<bv8>, script: seq<bv8>, sequence: seq<bv8>) {
    ghost predicate Valid() {
      |outpoint| == 36 && |sequence| == 4 && |script| < LIMIT
    }
  }

  datatype TxOut = TxOut(amount: seq<bv8>, script: seq<bv8>) {
    ghost predicate Valid() {
      |amount| == 8 && |script| < LIMIT
    }
  }

  /** A legacy transaction has no witness; a BIP-144 one has one stack per input. */
  datatype Tx = Tx(version: seq<bv8>, segwit: bool, ins: seq<TxIn>, outs: seq<TxOut>,
                   stacks: seq<seq<seq<bv8>>>, locktime: seq<bv8>) {
    ghost predicate Valid() {
      && |version| == 4 && |locktime| == 4 && |ins| < LIMIT && |outs| < LIMIT
      && (forall i :: 0 <= i < |ins| ==> ins[i].Valid())
      && (forall i :: 0 <= i < |outs| ==> outs[i].Valid())
      && (if segwit then |stacks| == |ins| && ValidStacks(stacks) else |ins| > 0)
    }
  }

  const LIMIT := 0x1_0000_0000_0000_0000

  ghost predicate ValidStack(items: seq<seq<bv8>>) {
    |items| < LIMIT && forall i :: 0 <= i < |items| ==> |items[i]| < LIMIT
  }

  ghost predicate ValidStacks(stacks: seq<seq<seq<bv8>>>) {
    forall i :: 0 <= i < |stacks| ==> ValidStack(stacks[i])
  }

  // ---------------------------------------------------------------- writing

  function LittleBytes(v: nat, n: nat): (b: seq<bv8>)
    ensures |b| == n
    decreases n
  {
    if n == 0 then [] else [ByteOfInt(v % 256)] + LittleBytes(v / 256, n - 1)
  }

  function WriteVarint(v: nat): (b: seq<bv8>)
    ensures |b| >= 1
  {
    if v <= 252 then [ByteOfInt(v)]
    else if v < 0x1_0000 then [ByteOfInt(253)] + LittleBytes(v, 2)
    else if v < 0x1_0000_0000 then [ByteOfInt(254)] + LittleBytes(v, 4)
    else [ByteOfInt(255)] + LittleBytes(v, 8)
  }

  function WriteIn(t: TxIn): seq<bv8> {
    t.outpoint + (WriteVarint(|t.script|) + (t.script + t.sequence))
  }

  function WriteIns(ts: seq<TxIn>): seq<bv8> {
    if ts == [] then [] else WriteIn(ts[0]) + WriteIns(ts[1..])
  }

  function WriteOut(t: TxOut): seq<bv8> {
    t.amount + (WriteVarint(|t.script|) + t.script)
  }

  function WriteOuts(ts: seq<TxOut>): seq<bv8> {
    if ts == [] then [] else WriteOut(ts[0]) + WriteOuts(ts[1..])
  }

  function WriteItems(items: seq<seq<bv8>>): seq<bv8> {
    if items == [] then [] else (WriteVarint(|items[0]|) + items[0]) + WriteItems(items[1..])
  }

  function WriteStacks(stacks: seq<seq<seq<bv8>>>): seq<bv8> {
    if stacks == [] then []
    else (WriteVarint(|stacks[0]|) + WriteItems(stacks[0])) + WriteStacks(stacks[1..])
  }

  function WriteTx(t: Tx): seq<bv8> {
    t.version + ((if t.segwit then [0, 1] else [])
    + (WriteVarint(|t.ins|) + (WriteIns(t.ins) + (WriteVarint(|t.outs|) + (WriteOuts(t.outs)
    + ((if t.segwit then WriteStacks(t.stacks) else []) + t.locktime))))))
  }

  function WriteTxs(ts: seq<Tx>): seq<bv8> {
    if ts == [] then [] else WriteTx(ts[0]) + WriteTxs(ts[1..])
  }

  function WriteBlock(header: seq<bv8>, ts: seq<Tx>): seq<bv8> {
    header + (WriteVarint(|ts|) + WriteTxs(ts))
  }

  // ---------------------------------------------------------------- reading back

  /** The bytes b stand in data at off. */
  predicate Here(data: seq<bv8>, off: nat, b: seq<bv8>) {
    off + |b| <= |data| && data[off..off + |b|] == b
  }

  lemma HereSplit(data: seq<bv8>, off: nat, a: seq<bv8>, b: seq<bv8>)
    requires Here(data, off, a + b)
    ensures Here(data, off, a) && Here(data, off + |a|, b)
  {
    var w := data[off..off + |a + b|];
    assert w[..|a|] == a && w[|a|..] == b;
    assert data[off..off + |a|] == w[..|a|];
    assert data[off + |a|..off + |a| + |b|] == w[|a|..];
  }

  lemma {:induction false} LittleRoundTrip(v: nat, n: nat)
    requires v < Pow256(n)
    ensures LittleEndian(LittleBytes(v, n)) == v
    decreases n
  {
    if n > 0 {
      IntOfByteOfInt(v % 256);
      LittleRoundTrip(v / 256, n - 1);
      assert LittleBytes(v, n)[1..] == LittleBytes(v / 256, n - 1);
    }
  }

  function Pow256(n: nat): (p: nat)
    ensures p >= 1
  {
    if n == 0 then 1 else 256 * Pow256(n - 1)
  }

  lemma NonZeroByte(v: nat)
    requires 0 < v < 256
    ensures ByteOfInt(v) != 0
  {
    IntOfByteOfInt(v);
    assert Value(Bools(0)) == 0 by {
      assert Bools(0) == BitsOf(0, 8);
      assert Pow2(8) == 256;
      ValueBitsOf(0, 8);
    }
  }

  /** A written varint reads back as its value, ending right behind it. */
  lemma ReadVarint(data: seq<bv8>, off: nat, v: nat)
    requires v < LIMIT && Here(data, off, WriteVarint(v))
    ensures Varint(data, off) == Num(v, off + |WriteVarint(v)|)
  {
    hide ByteOfInt, IntOfByte, LittleBytes, LittleEndian, Pow256;
    var w := WriteVarint(v);
    var first := if v <= 252 then v else if v < 0x1_0000 then 253 else if v < 0x1_0000_0000 then 254 else 255;
    assert data[off] == data[off..off + |w|][0] == ByteOfInt(first);
    IntOfByteOfInt(first);
    if v > 252 {
      var n := |w| - 1;
      assert w == [ByteOfInt(first)] + LittleBytes(v, n);
      HereSplit(data, off, [ByteOfInt(first)], LittleBytes(v, n));
      Powers256();
      LittleRoundTrip(v, n);
    }
  }

  lemma Powers256()
    ensures Pow256(2) == 0x1_0000 && Pow256(4) == 0x1_0000_0000 && Pow256(8) == LIMIT
  {
  }

  lemma VarintNotZero(v: nat)
    requires 0 < v < LIMIT
    ensures WriteVarint(v)[0] != 0
  {
    NonZeroByte(if v <= 252 then v else if v < 0x1_0000 then 253 else if v < 0x1_0000_0000 then 254 else 255);
  }

  lemma {:induction false} ReadInputs(data: seq<bv8>, off: nat, ts: seq<TxIn>)
    requires forall i :: 0 <= i < |ts| ==> ts[i].Valid()
    requires Here(data, off, WriteIns(ts))
    ensures Inputs(data, off, |ts|) == At(off + |WriteIns(ts)|)
    decreases ts
  {
    hide Here, Varint, WriteVarint;
    if ts != [] {
      var t := ts[0];
      HereSplit(data, off, WriteIn(t), WriteIns(ts[1..]));
      HereSplit(data, off, t.outpoint, WriteVarint(|t.script|) + (t.script + t.sequence));
      HereSplit(data, off + 36, WriteVarint(|t.script|), t.script + t.sequence);
      ReadVarint(data, off + 36, |t.script|);
      ReadInputs(data, off + |WriteIn(t)|, ts[1..]);
    }
  }

  lemma {:induction false} ReadItems(data: seq<bv8>, off: nat, items: seq<seq<bv8>>)
    requires forall i :: 0 <= i < |items| ==> |items[i]| < LIMIT
    requires Here(data, off, WriteItems(items))
    ensures StackItems(data, off, |items|) == At(off + |WriteItems(items)|)
    decreases items
  {
    hide Here, Varint, WriteVarint;
    if items != [] {
      var x := items[0];
      HereSplit(data, off, WriteVarint(|x|) + x, WriteItems(items[1..]));
      HereSplit(data, off, WriteVarint(|x|), x);
      ReadVarint(data, off, |x|);
      ReadItems(data, off + |WriteVarint(|x|) + x|, items[1..]);
    }
  }

  lemma {:induction false} ReadStacks(data: seq<bv8>, off: nat, stacks: seq<seq<seq<bv8>>>)
    requires ValidStacks(stacks) && Here(data, off, WriteStacks(stacks))
    ensures Witnesses(data, off, |stacks|) == At(off + |WriteStacks(stacks)|)
    decreases stacks
  {
    hide Here, Varint, WriteVarint, WriteItems, StackItems;
    if stacks != [] {
      var s := stacks[0];
      assert ValidStack(s);
      HereSplit(data, off, WriteVarint(|s|) + WriteItems(s), WriteStacks(stacks[1..]));
      HereSplit(data, off, WriteVarint(|s|), WriteItems(s));
      ReadVarint(data, off, |s|);
      ReadItems(data, off + |WriteVarint(|s|)|, s);
      ReadStacks(data, off + |WriteVarint(|s|) + WriteItems(s)|, stacks[1..]);
    }
  }

  // ---------------------------------------------------------------- which hashes are added

  /** What the code adds for a script, given the bytes that follow it in the block. */
  function Added(script: seq<bv8>, rest: seq<bv8>): seq<seq<bv8>> {
    AddedAt(script + rest, 0, |script|)
  }

  /** Where each output's script starts, the code adds according to it and what follows. */
  function AddedByOuts(ts: seq<TxOut>, rest: seq<bv8>): seq<seq<bv8>> {
    if ts == [] then []
    else Added(ts[0].script, WriteOuts(ts[1..]) + rest) + AddedByOuts(ts[1..], rest)
  }

  function AfterOuts(t: Tx): seq<bv8> {
    (if t.segwit then WriteStacks(t.stacks) else []) + t.locktime
  }

  function AddedByTxs(ts: seq<Tx>, rest: seq<bv8>): seq<seq<bv8>> {
    if ts == [] then []
    else AddedByOuts(ts[0].outs, AfterOuts(ts[0]) + (WriteTxs(ts[1..]) + rest)) + AddedByTxs(ts[1..], rest)
  }

  lemma SliceShift(data: seq<bv8>, off: nat, lo: nat, hi: nat)
    requires off <= |data| && lo <= hi
    ensures Slice(data[off..], lo, hi) == Slice(data, off + lo, off + hi)
  {
  }

  lemma AddedShift(data: seq<bv8>, off: nat, script: seq<bv8>)
    requires Here(data, off, script)
    ensures AddedAt(data, off, |script|) == Added(script, data[off + |script|..])
  {
    assert data[off..] == script + data[off + |script|..];
    SliceShift(data, off, 0, 3);
    SliceShift(data, off, 23, 25);
    SliceShift(data, off, 3, 23);
    SliceShift(data, off, 0, 2);
    SliceShift(data, off, 2, 22);
    SliceShift(data, off, 2, 34);
  }

  lemma ReadOutput(data: seq<bv8>, off: nat, t: TxOut) returns (at: nat)
    requires t.Valid() && Here(data, off, WriteOut(t))
    ensures Varint(data, off + 8) == Num(|t.script|, at)
    ensures at + |t.script| == off + |WriteOut(t)| <= |data|
    ensures AddedAt(data, at, |t.script|) == Added(t.script, data[at + |t.script|..])
  {
    hide Varint, WriteVarint, AddedAt;
    at := off + 8 + |WriteVarint(|t.script|)|;
    HereSplit(data, off, t.amount, WriteVarint(|t.script|) + t.script);
    HereSplit(data, off + 8, WriteVarint(|t.script|), t.script);
    ReadVarint(data, off + 8, |t.script|);
    AddedShift(data, at, t.script);
  }

  lemma {:induction false} ReadOutputs(data: seq<bv8>, off: nat, ts: seq<TxOut>, adds: seq<seq<bv8>>)
    requires forall i :: 0 <= i < |ts| ==> ts[i].Valid()
    requires Here(data, off, WriteOuts(ts))
    ensures off + |WriteOuts(ts)| <= |data|
    ensures Outputs(data, off, |ts|, adds)
         == Walking(off + |WriteOuts(ts)|, adds + AddedByOuts(ts, data[off + |WriteOuts(ts)|..]))
    decreases ts
  {
    hide Varint, WriteVarint, AddedAt, Added, WriteOut;
    var end := off + |WriteOuts(ts)|;
    if ts == [] {
      assert adds + [] == adds;
    } else {
      var t, tail := ts[0], ts[1..];
      HereSplit(data, off, WriteOut(t), WriteOuts(tail));
      var at := ReadOutput(data, off, t);
      Rest(data, at + |t.script|, WriteOuts(tail));
      var more := Added(t.script, WriteOuts(tail) + data[end..]);
      ReadOutputs(data, at + |t.script|, tail, adds + more);
      assert adds + more + AddedByOuts(tail, data[end..]) == adds + (more + AddedByOuts(tail, data[end..]));
    }
  }

  /** Offsets of the parts of a transaction written at off. */
  datatype Parts = Parts(nIn: nat, ins: nat, nOut: nat, outs: nat, after: nat, locktime: nat)

  function PartsOf(off: nat, t: Tx): Parts {
    var nIn := off + 4 + (if t.segwit then 2 else 0);
    var ins := nIn + |WriteVarint(|t.ins|)|;
    var nOut := ins + |WriteIns(t.ins)|;
    var outs := nOut + |WriteVarint(|t.outs|)|;
    var after := outs + |WriteOuts(t.outs)|;
    Parts(nIn, ins, nOut, outs, after, after + (if t.segwit then |WriteStacks(t.stacks)| else 0))
  }

  lemma SplitTx(data: seq<bv8>, off: nat, t: Tx)
    requires t.Valid() && Here(data, off, WriteTx(t))
    ensures var p := PartsOf(off, t);
      && Here(data, off + 4, if t.segwit then [0, 1] else [])
      && Here(data, p.nIn, WriteVarint(|t.ins|)) && Here(data, p.ins, WriteIns(t.ins))
      && Here(data, p.nOut, WriteVarint(|t.outs|)) && Here(data, p.outs, WriteOuts(t.outs))
      && Here(data, p.after, AfterOuts(t))
      && (t.segwit ==> Here(data, p.after, WriteStacks(t.stacks)))
      && p.locktime + 4 == off + |WriteTx(t)| == p.after + |AfterOuts(t)|
  {
    hide Here, WriteVarint, WriteIns, WriteOuts, WriteStacks;
    var mark: seq<bv8> := if t.segwit then [0, 1] else [];
    var nIn, ins, nOut, outs := WriteVarint(|t.ins|), WriteIns(t.ins), WriteVarint(|t.outs|), WriteOuts(t.outs);
    var after, p := AfterOuts(t), PartsOf(off, t);
    var fromOuts := outs + after;
    var fromNOut := nOut + fromOuts;
    var fromIns := ins + fromNOut;
    var fromNIn := nIn + fromIns;
    assert WriteTx(t) == t.version + (mark + fromNIn);
    HereSplit(data, off, t.version, mark + fromNIn);
    HereSplit(data, off + 4, mark, fromNIn);
    HereSplit(data, p.nIn, nIn, fromIns);
    HereSplit(data, p.ins, ins, fromNOut);
    HereSplit(data, p.nOut, nOut, fromOuts);
    HereSplit(data, p.outs, outs, after);
    if t.segwit {
      HereSplit(data, p.after, WriteStacks(t.stacks), t.locktime);
    }
  }

  lemma Rest(data: seq<bv8>, off: nat, b: seq<bv8>)
    requires Here(data, off, b)
    ensures off + |b| <= |data| && data[off..] == b + data[off + |b|..]
  {
  }

  lemma ReadTx(data: seq<bv8>, off: nat, t: Tx, adds: seq<seq<bv8>>)
    requires t.Valid() && Here(data, off, WriteTx(t))
    ensures off + |WriteTx(t)| <= |data|
    ensures Transaction(data, off, adds)
         == Walking(off + |WriteTx(t)|, adds + AddedByOuts(t.outs, AfterOuts(t) + data[off + |WriteTx(t)|..]))
  {
    hide Here, Varint, WriteVarint, Inputs, Outputs, Witnesses, WriteIns, WriteOuts, WriteStacks, AddedByOuts, WriteTx,
      AfterOuts;
    var p := PartsOf(off, t);
    SplitTx(data, off, t);
    Rest(data, p.after, AfterOuts(t));
    MarkerByte(data, off + 4, t);
    ReadVarint(data, p.nIn, |t.ins|);
    ReadInputs(data, p.ins, t.ins);
    ReadVarint(data, p.nOut, |t.outs|);
    ReadOutputs(data, p.outs, t.outs, adds);
    if t.segwit {
      ReadStacks(data, p.after, t.stacks);
    }
  }

  /** A zero byte after the version tells BIP-144 transactions from legacy ones. */
  lemma MarkerByte(data: seq<bv8>, off: nat, t: Tx)
    requires t.Valid() && Here(data, off, if t.segwit then [0, 1] else [])
    requires !t.segwit ==> Here(data, off, WriteVarint(|t.ins|))
    ensures off < |data| && (data[off] == 0 <==> t.segwit)
  {
    if t.segwit {
      assert data[off] == data[off..off + 2][0];
    } else {
      VarintNotZero(|t.ins|);
      assert data[off] == data[off..off + |WriteVarint(|t.ins|)|][0];
    }
  }

  lemma {:induction false} ReadTxs(data: seq<bv8>, off: nat, ts: seq<Tx>, adds: seq<seq<bv8>>)
    requires forall i :: 0 <= i < |ts| ==> ts[i].Valid()
    requires Here(data, off, WriteTxs(ts))
    ensures Transactions(data, off, |ts|, adds)
         == Walking(off + |WriteTxs(ts)|, adds + AddedByTxs(ts, data[off + |WriteTxs(ts)|..]))
    decreases ts
  {
    hide Here, Varint, WriteVarint, Transaction, WriteTx, AddedByOuts, AfterOuts;
    var end := off + |WriteTxs(ts)|;
    if ts == [] {
      assert adds + [] == adds;
    } else {
      var t, tail := ts[0], ts[1..];
      HereSplit(data, off, WriteTx(t), WriteTxs(tail));
      ReadTx(data, off, t, adds);
      Rest(data, off + |WriteTx(t)|, WriteTxs(tail));
      var more := AddedByOuts(t.outs, AfterOuts(t) + (WriteTxs(tail) + data[end..]));
      ReadTxs(data, off + |WriteTx(t)|, tail, adds + more);
      assert adds + more + AddedByTxs(tail, data[end..]) == adds + (more + AddedByTxs(tail, data[end..]));
    }
  }

  /** The walk over a well-formed block ends exactly at its last byte. */
  lemma ReadBlock(header: seq<bv8>, ts: seq<Tx>)
    requires |header| == 80 && |ts| < LIMIT && forall i :: 0 <= i < |ts| ==> ts[i].Valid()
    ensures ParseBlock(WriteBlock(header, ts)) == Walking(|WriteBlock(header, ts)|, AddedByTxs(ts, []))
  {
    hide Varint, WriteVarint, Transactions, WriteTxs, AddedByTxs;
    var data := WriteBlock(header, ts);
    assert Here(data, 0, data);
    HereSplit(data, 0, header, WriteVarint(|ts|) + WriteTxs(ts));
    HereSplit(data, 80, WriteVarint(|ts|), WriteTxs(ts));
    ReadVarint(data, 80, |ts|);
    ReadTxs(data, 80 + |WriteVarint(|ts|)|, ts, []);
    assert data[|data|..] == [];
    assert [] + AddedByTxs(ts, []) == AddedByTxs(ts, []);
  }

  // ---------------------------------------------------------------- byte order

  /** Byte k of a little-endian number has the place value 256 to the k. */
  lemma {:induction false} LittleBytesAt(v: nat, n: nat, k: nat)
    requires k < n
    ensures IntOfByte(LittleBytes(v, n)[k]) == v / Pow256(k) % 256
    decreases n
  {
    hide IntOfByte, ByteOfInt;
    IntOfByteOfInt(v % 256);
    if k > 0 {
      LittleBytesAt(v / 256, n - 1, k - 1);
      DivTwice(v, Pow256(k - 1));
    } else {
      assert Pow256(0) == 1;
    }
  }

  lemma DivTwice(v: nat, p: nat)
    requires p >= 1
    ensures v / 256 / p == v / (256 * p)
  {
    var q := v / 256 / p;
    var r, s := v % 256, v / 256 % p;
    assert v == 256 * (q * p + s) + r;
    assert 256 * (q * p + s) + r == q * (256 * p) + (256 * s + r);
    Digits.DivMod(q, 256 * s + r, 256 * p);
  }
}
