/**
 The table-driven CRC32C of aezeed.py, against the bit-at-a-time reflected shift register of
 section 12.1 of RFC 3720, and what the checksum is sure to tell apart.

 The word operations have names so that proofs over many steps can treat them as symbols.
 */
module Crc32c {
  import opened Bits

  const POLY: bv32 := 0x82F63B78

  function Xor(a: bv32, b: bv32): bv32 {
    a ^ b
  }

  function Not(a: bv32): bv32 {
    !a
  }

  function Half(a: bv32): bv32 {
    a >> 1
  }

  predicate LowBit(a: bv32) {
    a & 1 != 0
  }

  /** One shift of the reflected register. */
  function Shift(crc: bv32): bv32 {
    if LowBit(crc) then Xor(Half(crc), POLY) else Half(crc)
  }

  function Shifts(crc: bv32, n: nat): bv32
    decreases n
  {
    if n == 0 then crc else Shifts(Shift(crc), n - 1)
  }

  // ---------------------------------------------------------------- the reference, one message bit at a time

  /** Feeds one message bit: the register is reduced when its low bit differs from the bit fed. */
  function FeedBit(crc: bv32, bit: bool): bv32 {
    if LowBit(crc) != bit then Xor(Half(crc), POLY) else Half(crc)
  }

  /** Feeds the n low bits of b, lowest first. */
  function FeedBits(crc: bv32, b: bv32, n: nat): bv32
    decreases n
  {
    if n == 0 then crc else FeedBits(FeedBit(crc, LowBit(b)), Half(b), n - 1)
  }

  function FeedByte(crc: bv32, b: bv8): bv32 {
    FeedBits(crc, b as bv32, 8)
  }

  function Feed(crc: bv32, data: seq<bv8>): bv32 {
    if data == [] then crc else FeedByte(Feed(crc, data[..|data| - 1]), data[|data| - 1])
  }

  /** The checksum: register preset to ones, result complemented. */
  function Crc(data: seq<bv8>): bv32 {
    Not(Feed(0xFFFF_FFFF, data))
  }

  // ---------------------------------------------------------------- word facts

  lemma XorAssociates(a: bv32, b: bv32, c: bv32)
    ensures Xor(Xor(a, b), c) == Xor(a, Xor(b, c))
  {
  }

  lemma XorCommutes(a: bv32, b: bv32)
    ensures Xor(a, b) == Xor(b, a)
  {
  }

  lemma XorUnits(a: bv32)
    ensures Xor(a, a) == 0 && Xor(a, 0) == a
  {
  }

  lemma XorLaws(a: bv32, b: bv32, c: bv32)
    ensures Xor(Xor(a, b), c) == Xor(a, Xor(b, c)) && Xor(a, b) == Xor(b, a)
    ensures Xor(a, a) == 0 && Xor(a, 0) == a
  {
    hide Xor;
    XorAssociates(a, b, c);
    XorCommutes(a, b);
    XorUnits(a);
  }

  lemma HalfXor(a: bv32, b: bv32)
    ensures Half(Xor(a, b)) == Xor(Half(a), Half(b)) && LowBit(Xor(a, b)) == (LowBit(a) != LowBit(b))
  {
  }

  lemma XorSwap(a: bv32, b: bv32, p: bv32)
    ensures Xor(Xor(a, b), p) == Xor(Xor(a, p), b) == Xor(a, Xor(b, p)) && Xor(a, b) == Xor(Xor(a, p), Xor(b, p))
  {
    XorLaws(a, b, p);
    XorLaws(a, p, b);
    XorLaws(b, p, p);
    XorLaws(a, p, Xor(b, p));
    XorLaws(b, 0, 0);
    XorLaws(p, b, p);
    XorLaws(p, p, b);
    XorLaws(b, p, b);
    hide Xor;
    assert Xor(p, Xor(b, p)) == b;
  }

  lemma XorCancel(a: bv32, c: bv32, x: bv32)
    requires Xor(a, x) == Xor(c, x)
    ensures a == c
  {
  }

  // ---------------------------------------------------------------- algebra of the register

  /** The register with its n low bits shifted out and nothing reduced. */
  function Down(r: bv32, n: nat): bv32
    decreases n
  {
    if n == 0 then r else Down(Half(r), n - 1)
  }

  /** Feeding the low bit of r and keeping the rest in the register. */
  lemma AbsorbBit(c: bv32, r: bv32)
    ensures Shift(Xor(c, r)) == Xor(FeedBit(c, LowBit(r)), Half(r))
  {
    HalfXor(c, r);
    XorSwap(Half(c), Half(r), POLY);
    hide Xor, Half, LowBit;
  }

  /** Exclusive-or first and shift later, or feed bit by bit: the same. */
  lemma {:induction false} AbsorbBits(c: bv32, r: bv32, n: nat)
    ensures Shifts(Xor(c, r), n) == Xor(FeedBits(c, r, n), Down(r, n))
    decreases n
  {
    hide Xor, Half, LowBit, Shift, FeedBit;
    if n > 0 {
      AbsorbBit(c, r);
      AbsorbBits(FeedBit(c, LowBit(r)), Half(r), n - 1);
    }
  }

  lemma ShiftXor(a: bv32, b: bv32)
    ensures Shift(Xor(a, b)) == Xor(Shift(a), Shift(b))
  {
    HalfXor(a, b);
    XorSwap(Half(a), Half(b), POLY);
    hide Xor, Half, LowBit;
  }

  lemma {:induction false} ShiftsXor(a: bv32, b: bv32, n: nat)
    ensures Shifts(Xor(a, b), n) == Xor(Shifts(a, n), Shifts(b, n))
    decreases n
  {
    hide Xor, Shift;
    if n > 0 {
      ShiftXor(a, b);
      ShiftsXor(Shift(a), Shift(b), n - 1);
    }
  }

  /** POLY has its top bit set, so the bit shifted out can be read off the result. */
  lemma ShiftInjective(a: bv32, b: bv32)
    requires Shift(a) == Shift(b)
    ensures a == b
  {
    if a & 1 != 0 {
      if b & 1 != 0 {
      } else {
      }
    } else {
      if b & 1 != 0 {
      } else {
      }
    }
  }

  lemma {:induction false} ShiftsInjective(a: bv32, b: bv32, n: nat)
    requires Shifts(a, n) == Shifts(b, n)
    ensures a == b
    decreases n
  {
    hide Shift;
    if n > 0 {
      ShiftsInjective(Shift(a), Shift(b), n - 1);
      ShiftInjective(a, b);
    }
  }

  function Double(w: bv32): bv32 {
    w << 1
  }

  predicate TopClear(w: bv32) {
    w & 0x8000_0000 == 0
  }

  lemma ShiftDouble(w: bv32)
    requires TopClear(w)
    ensures Shift(Double(w)) == w
  {
    assert (w << 1) & 1 == 0;
  }

  /** Moving up by a byte. */
  function Raise(w: bv32): bv32 {
    w << 8
  }

  predicate TopByteClear(w: bv32) {
    w & 0xFF00_0000 == 0
  }

  lemma RaiseSteps(w: bv32)
    requires TopByteClear(w)
    ensures var w2 := Double(Double(w)); var w4 := Double(Double(w2)); var w6 := Double(Double(w4));
      && TopClear(w) && TopClear(Double(w)) && TopClear(w2) && TopClear(Double(w2))
      && TopClear(w4) && TopClear(Double(w4)) && TopClear(w6) && TopClear(Double(w6))
      && Raise(w) == Double(Double(w6))
  {
  }

  /** When nothing falls off the top, eight shifts move a raised word back. */
  lemma EightUp(w: bv32)
    requires TopByteClear(w)
    ensures Shifts(Raise(w), 8) == w
  {
    RaiseSteps(w);
    hide Shift, Double, TopClear, TopByteClear, Raise;
    var w2 := Double(Double(w));
    var w4 := Double(Double(w2));
    var w6 := Double(Double(w4));
    ShiftDouble(w);
    ShiftDouble(Double(w));
    ShiftDouble(w2);
    ShiftDouble(Double(w2));
    ShiftDouble(w4);
    ShiftDouble(Double(w4));
    ShiftDouble(w6);
    ShiftDouble(Double(w6));
    assert Shifts(w4, 4) == w;
    assert Shifts(Raise(w), 8) == Shifts(w4, 4);
  }

  lemma EightDown(b: bv8)
    ensures Down(b as bv32, 8) == 0
  {
    var r := b as bv32;
    var h := Half(Half(Half(Half(r))));
    assert Half(Half(Half(Half(h)))) == 0;
    hide Half;
    assert Down(h, 4) == 0;
    assert Down(r, 8) == Down(h, 4);
  }

  lemma FeedByteShifts(crc: bv32, b: bv8)
    ensures FeedByte(crc, b) == Shifts(Xor(crc, b as bv32), 8)
  {
    AbsorbBits(crc, b as bv32, 8);
    EightDown(b);
    XorLaws(FeedByte(crc, b), 0, 0);
    hide Xor, Shifts, FeedBits, Down;
  }

  function Top(x: bv32): bv32 {
    x >> 8
  }

  function LowByte(x: bv32): bv8 {
    (x & 0xFF) as bv8
  }

  function Wide(b: bv8): bv32 {
    b as bv32
  }

  lemma Halves(x: bv32)
    ensures Xor(Wide(LowByte(x)), Raise(Top(x))) == x && TopByteClear(Top(x))
  {
  }

  lemma Widened(c: bv32, b: bv8)
    ensures Top(Xor(c, Wide(b))) == Top(c)
  {
  }

  /** A table step: look up the low byte of register and message, move the rest of the register down. */
  lemma TableStep(crc: bv32, b: bv8)
    ensures FeedByte(crc, b) == Xor(Shifts(Wide(LowByte(Xor(crc, Wide(b)))), 8), Top(crc))
  {
    var x := Xor(crc, Wide(b));
    FeedByteShifts(crc, b);
    Halves(x);
    ShiftsXor(Wide(LowByte(x)), Raise(Top(x)), 8);
    EightUp(Top(x));
    Widened(crc, b);
    hide Shifts, FeedByte, Xor, LowByte, Top, Raise, TopByteClear;
  }

  // ---------------------------------------------------------------- the code

  method MakeTable() returns (table: seq<bv32>)
    ensures |table| == 256
    ensures forall b: bv8 :: table[IntOfByte(b)] == Shifts(b as bv32, 8)
  {
    hide Shifts, OfBools, Bools;
    table := [];
    for i := 0 to 256
      invariant |table| == i
      invariant forall k :: 0 <= k < i ==> table[k] == Shifts(ByteOfInt(k) as bv32, 8)
    {
      var crc := ByteOfInt(i) as bv32;
      ghost var start := crc;
      for k := 0 to 8
        invariant Shifts(crc, 8 - k) == Shifts(start, 8)
      {
        NextShift(crc, 8 - k);
        if crc & 1 != 0 {
          crc := (crc >> 1) ^ POLY;
        } else {
          crc := crc >> 1;
        }
      }
      NoShift(crc);
      table := table + [crc & 0xFFFF_FFFF];
    }
    forall b: bv8 ensures table[IntOfByte(b)] == Shifts(b as bv32, 8) {
      ByteOfIntOfByte(b);
    }
  }

  lemma NextShift(crc: bv32, n: nat)
    requires n > 0
    ensures crc & 1 != 0 ==> Shifts(crc, n) == Shifts((crc >> 1) ^ POLY, n - 1)
    ensures crc & 1 == 0 ==> Shifts(crc, n) == Shifts(crc >> 1, n - 1)
  {
  }

  lemma NoShift(crc: bv32)
    ensures Shifts(crc, 0) == crc & 0xFFFF_FFFF
  {
  }

  /** _crc32c, with the table it was built from. */
  method Compute(data: seq<bv8>) returns (r: bv32)
    ensures r == Crc(data)
  {
    hide Shifts, FeedByte, IntOfByte, Xor, LowByte, Top;
    var table := MakeTable();
    var crc: bv32 := 0xFFFF_FFFF;
    for i := 0 to |data|
      invariant crc == Feed(0xFFFF_FFFF, data[..i])
    {
      assert data[..i + 1][..i] == data[..i];
      TableStep(crc, data[i]);
      crc := Xor(table[IntOfByte(LowByte(Xor(crc, Wide(data[i]))))], Top(crc));
    }
    assert data[..|data|] == data;
    r := !crc & 0xFFFF_FFFF;
  }

  // ---------------------------------------------------------------- what the checksum separates

  /** A byte step never merges two register states. */
  lemma FeedByteInjective(a: bv32, c: bv32, b: bv8)
    requires FeedByte(a, b) == FeedByte(c, b)
    ensures a == c
  {
    hide Shifts, FeedByte, Xor;
    FeedByteShifts(a, b);
    FeedByteShifts(c, b);
    ShiftsInjective(Xor(a, b as bv32), Xor(c, b as bv32), 8);
    XorCancel(a, c, b as bv32);
  }

  lemma {:induction false} FeedInjective(a: bv32, c: bv32, data: seq<bv8>)
    requires Feed(a, data) == Feed(c, data)
    ensures a == c
  {
    hide FeedByte;
    if data != [] {
      var init := data[..|data| - 1];
      FeedByteInjective(Feed(a, init), Feed(c, init), data[|data| - 1]);
      FeedInjective(a, c, init);
    }
  }

  lemma {:induction false} FeedConcat(crc: bv32, a: seq<bv8>, b: seq<bv8>)
    ensures Feed(crc, a + b) == Feed(Feed(crc, a), b)
  {
    hide FeedByte;
    if b == [] {
      assert a + b == a;
    } else {
      assert (a + b)[..|a + b| - 1] == a + b[..|b| - 1];
      FeedConcat(crc, a, b[..|b| - 1]);
    }
  }

  /** The difference of two registers before a byte, from their difference after it. */
  lemma StepBack(x: bv32, y: bv32, b: bv8, c: bv8, w: bv32)
    requires Xor(FeedByte(x, b), FeedByte(y, c)) == w && TopByteClear(w)
    ensures Xor(x, y) == Xor(Raise(w), Xor(Wide(b), Wide(c)))
  {
    hide Xor, Raise, TopByteClear, FeedByte, Shifts;
    var x', y' := Xor(x, Wide(b)), Xor(y, Wide(c));
    FeedByteShifts(x, b);
    FeedByteShifts(y, c);
    ShiftsXor(x', y', 8);
    EightUp(w);
    ShiftsInjective(Xor(x', y'), Raise(w), 8);
    Regroup(x, Wide(b), y, Wide(c));
  }

  lemma Regroup(x: bv32, b: bv32, y: bv32, c: bv32)
    ensures Xor(Xor(x, b), Xor(y, c)) == Xor(Xor(x, y), Xor(b, c))
    ensures Xor(x, y) == Xor(Xor(Xor(x, b), Xor(y, c)), Xor(b, c))
  {
    var p, q := Xor(x, y), Xor(b, c);
    XorLaws(x, b, Xor(y, c));
    XorLaws(b, y, c);
    XorLaws(y, b, c);
    XorLaws(x, y, q);
    XorLaws(p, q, q);
    XorLaws(q, 0, 0);
    XorLaws(p, 0, 0);
    hide Xor;
    assert Xor(Xor(p, q), q) == p;
  }

  /** Four bytes of differences pushed up one by one leave a zero word only if they are all zero. */
  lemma FourDifferences(b: seq<bv8>, c: seq<bv8>)
    requires |b| == |c| == 4
    ensures
      var w3 := Xor(Raise(0), Xor(Wide(b[3]), Wide(c[3])));
      var w2 := Xor(Raise(w3), Xor(Wide(b[2]), Wide(c[2])));
      var w1 := Xor(Raise(w2), Xor(Wide(b[1]), Wide(c[1])));
      && TopByteClear(w3) && TopByteClear(w2) && TopByteClear(w1)
      && (Xor(Raise(w1), Xor(Wide(b[0]), Wide(c[0]))) == 0 ==>
            b[0] == c[0] && b[1] == c[1] && b[2] == c[2] && b[3] == c[3])
  {
  }

  /** From one register state, different four-byte strings lead to different states. */
  lemma FourBytesInjective(crc: bv32, b: seq<bv8>, c: seq<bv8>)
    requires |b| == |c| == 4 && Feed(crc, b) == Feed(crc, c)
    ensures b == c
  {
    hide Xor, Raise, TopByteClear, FeedByte, Wide;
    FourDifferences(b, c);
    FeedFour(crc, b);
    FeedFour(crc, c);
    var x1, y1 := FeedByte(crc, b[0]), FeedByte(crc, c[0]);
    var x2, y2 := FeedByte(x1, b[1]), FeedByte(y1, c[1]);
    var x3, y3 := FeedByte(x2, b[2]), FeedByte(y2, c[2]);
    XorLaws(Feed(crc, b), 0, 0);
    ZeroTop();
    StepBack(x3, y3, b[3], c[3], 0);
    StepBack(x2, y2, b[2], c[2], Xor(x3, y3));
    StepBack(x1, y1, b[1], c[1], Xor(x2, y2));
    StepBack(crc, crc, b[0], c[0], Xor(x1, y1));
    XorLaws(crc, 0, 0);
  }

  lemma ZeroTop()
    ensures TopByteClear(0)
  {
  }

  lemma FeedFour(crc: bv32, b: seq<bv8>)
    requires |b| == 4
    ensures Feed(crc, b) == FeedByte(FeedByte(FeedByte(FeedByte(crc, b[0]), b[1]), b[2]), b[3])
  {
    hide FeedByte;
    assert b[..1][..0] == [];
    assert Feed(crc, b[..1]) == FeedByte(crc, b[0]);
    assert b[..2][..1] == b[..1];
    assert Feed(crc, b[..2]) == FeedByte(FeedByte(crc, b[0]), b[1]);
    assert b[..3][..2] == b[..2];
  }

  /** Messages that differ only inside a window of four bytes have different checksums. */
  lemma BurstDetected(a: seq<bv8>, b: seq<bv8>, i: nat)
    requires |a| == |b| && i + 4 <= |a| && a[..i] == b[..i] && a[i + 4..] == b[i + 4..]
    requires Crc(a) == Crc(b)
    ensures a == b
  {
    var start: bv32 := 0xFFFF_FFFF;
    var u, v := a[i..i + 4], b[i..i + 4];
    hide Feed, Crc;
    SameRegister(a, b);
    assert a == a[..i] + u + a[i + 4..] && b == b[..i] + v + b[i + 4..];
    FeedConcat(start, a[..i] + u, a[i + 4..]);
    FeedConcat(start, b[..i] + v, b[i + 4..]);
    FeedInjective(Feed(start, a[..i] + u), Feed(start, b[..i] + v), a[i + 4..]);
    FeedConcat(start, a[..i], u);
    FeedConcat(start, b[..i], v);
    FourBytesInjective(Feed(start, a[..i]), u, v);
  }

  lemma SameRegister(a: seq<bv8>, b: seq<bv8>)
    requires Crc(a) == Crc(b)
    ensures Feed(0xFFFF_FFFF, a) == Feed(0xFFFF_FFFF, b)
  {
    hide Feed;
    NotIsXor(Feed(0xFFFF_FFFF, a));
    NotIsXor(Feed(0xFFFF_FFFF, b));
    XorCancel(Feed(0xFFFF_FFFF, a), Feed(0xFFFF_FFFF, b), 0xFFFF_FFFF);
  }

  /** Flipping the low bit of the last byte changes the checksum by the table entry of 1. */
  lemma LastBitFlipped(init: seq<bv8>, b: bv8)
    ensures Xor(Crc(init + [b]), Crc(init + [b ^ 1])) == 0xF26B_8303
  {
    hide Xor, Shifts, FeedByte;
    var x := Feed(0xFFFF_FFFF, init);
    assert (init + [b])[..|init|] == init && (init + [b ^ 1])[..|init|] == init;
    FeedByteShifts(x, b);
    FeedByteShifts(x, b ^ 1);
    OneFlipped(x, b);
    ShiftsXor(Xor(x, Wide(b)), Xor(x, Wide(b ^ 1)), 8);
    ShiftsOne();
    NotXor(FeedByte(x, b), FeedByte(x, b ^ 1));
  }

  lemma OneFlipped(x: bv32, b: bv8)
    ensures Xor(Xor(x, Wide(b)), Xor(x, Wide(b ^ 1))) == 1
  {
  }

  lemma NotXor(a: bv32, b: bv32)
    ensures Xor(Not(a), Not(b)) == Xor(a, b)
  {
    NotIsXor(a);
    NotIsXor(b);
    XorSwap(a, b, 0xFFFF_FFFF);
    hide Xor;
  }

  lemma NotIsXor(a: bv32)
    ensures Not(a) == Xor(a, 0xFFFF_FFFF)
  {
  }

  lemma ShiftsOne()
    ensures Shifts(1, 8) == 0xF26B_8303
  {
    var c1 := Shift(1);
    var c2 := Shift(c1);
    var c3 := Shift(c2);
    var c4 := Shift(c3);
    var c5 := Shift(c4);
    var c6 := Shift(c5);
    var c7 := Shift(c6);
    assert Shift(c7) == 0xF26B_8303;
    hide Shift;
    assert Shifts(c4, 4) == Shift(c7);
    assert Shifts(1, 8) == Shifts(c4, 4);
  }
  // ---------------------------------------------------------------- the residue

  /** The four bytes of a word, lowest first. */
  function LittleBytes(w: bv32): (b: seq<bv8>)
    ensures |b| == 4
  {
    [LowByte(w), LowByte(Top(w)), LowByte(Top(Top(w))), LowByte(Top(Top(Top(w))))]
  }

  /** A byte step for a register split into the word of ones and the rest. */
  lemma StepWithOnes(ones: bv32, w: bv32)
    ensures FeedByte(Xor(ones, w), LowByte(w)) == Xor(Shifts(ones, 8), Top(w))
  {
    var b := LowByte(w);
    FeedByteShifts(Xor(ones, w), b);
    XorLaws(ones, w, Wide(b));
    AboveLow(w);
    ShiftsXor(ones, Raise(Top(w)), 8);
    EightUp(Top(w));
    hide Xor, Shifts, FeedByte, LowByte, Top, Raise, TopByteClear;
  }

  lemma AboveLow(w: bv32)
    ensures Xor(w, Wide(LowByte(w))) == Raise(Top(w)) && TopByteClear(Top(w))
  {
  }

  lemma NothingLeft(w: bv32)
    ensures Top(Top(Top(Top(w)))) == 0
  {
  }

  lemma {:induction false} ShiftsAdd(w: bv32, n: nat, m: nat)
    ensures Shifts(Shifts(w, n), m) == Shifts(w, n + m)
    decreases n
  {
    hide Shift;
    if n > 0 {
      ShiftsAdd(Shift(w), n - 1, m);
    }
  }

  /** Four byte steps for a register split like that. */
  lemma FourSteps(ones: bv32, w: bv32)
    ensures Feed(Xor(ones, w), LittleBytes(w)) == Shifts(ones, 32)
  {
    hide Xor, Shifts, FeedByte, LowByte, Top, Feed;
    var w1, s1 := Top(w), Shifts(ones, 8);
    var w2, s2 := Top(w1), Shifts(s1, 8);
    var w3, s3 := Top(w2), Shifts(s2, 8);
    StepWithOnes(ones, w);
    StepWithOnes(s1, w1);
    StepWithOnes(s2, w2);
    StepWithOnes(s3, w3);
    NothingLeft(w);
    XorLaws(Shifts(s3, 8), 0, 0);
    ShiftsAdd(ones, 8, 8);
    ShiftsAdd(ones, 16, 8);
    ShiftsAdd(ones, 24, 8);
    FeedFour(Xor(ones, w), LittleBytes(w));
  }

  lemma CrcXor(data: seq<bv8>)
    ensures Xor(0xFFFF_FFFF, Crc(data)) == Feed(0xFFFF_FFFF, data)
  {
    hide Feed, Xor, Not;
    NotBack(Feed(0xFFFF_FFFF, data));
  }

  lemma NotBack(a: bv32)
    ensures Xor(0xFFFF_FFFF, Not(a)) == a
  {
  }

  lemma EightShifts(c: bv32)
    ensures Shifts(c, 8) == Shift(Shift(Shift(Shift(Shift(Shift(Shift(Shift(c))))))))
  {
    hide Shift;
    var c4 := Shift(Shift(Shift(Shift(c))));
    assert Shifts(c4, 4) == Shift(Shift(Shift(Shift(c4))));
    assert Shifts(c, 8) == Shifts(c4, 4);
  }

  lemma ShiftsOnes()
    ensures Shifts(0xFFFF_FFFF, 32) == 0xB798_B438
  {
    EightShifts(0xFFFF_FFFF);
    EightShifts(0xAD82_ACAE);
    EightShifts(0x0E9E_882D);
    EightShifts(0x9F9B_5C85);
    hide Shifts;
    ShiftsAdd(0xFFFF_FFFF, 8, 8);
    ShiftsAdd(0xFFFF_FFFF, 16, 8);
    ShiftsAdd(0xFFFF_FFFF, 24, 8);
  }

  /** Feeding a message and then its checksum, lowest byte first, always leaves the same register. */
  lemma Residue(data: seq<bv8>)
    ensures Feed(0xFFFF_FFFF, data + LittleBytes(Crc(data))) == 0xB798_B438
  {
    hide Feed, LittleBytes, Shifts, Crc, Xor;
    FeedConcat(0xFFFF_FFFF, data, LittleBytes(Crc(data)));
    CrcXor(data);
    FourSteps(0xFFFF_FFFF, Crc(data));
    ShiftsOnes();
  }

  /** And no other four bytes behind the message leave it. */
  lemma ResidueIff(data: seq<bv8>, b: seq<bv8>)
    requires |b| == 4
    ensures Feed(0xFFFF_FFFF, data + b) == 0xB798_B438 <==> b == LittleBytes(Crc(data))
  {
    hide Feed, LittleBytes, Crc;
    Residue(data);
    if Feed(0xFFFF_FFFF, data + b) == 0xB798_B438 {
      FeedConcat(0xFFFF_FFFF, data, b);
      FeedConcat(0xFFFF_FFFF, data, LittleBytes(Crc(data)));
      FourBytesInjective(Feed(0xFFFF_FFFF, data), b, LittleBytes(Crc(data)));
    }
  }

  // ---------------------------------------------------------------- the check value

  lemma FeedSnoc(crc: bv32, data: seq<bv8>, b: bv8)
    ensures Feed(crc, data + [b]) == FeedByte(Feed(crc, data), b)
  {
    hide FeedByte;
    assert (data + [b])[..|data|] == data;
  }

  /** Feeding one byte, from the register mixed with it. */
  lemma FeedMixed(crc: bv32, b: bv8, x: bv32)
    requires Xor(crc, Wide(b)) == x
    ensures FeedByte(crc, b) == Shift(Shift(Shift(Shift(Shift(Shift(Shift(Shift(x))))))))
  {
    FeedByteShifts(crc, b);
    EightShifts(x);
    hide Shift, Shifts, FeedByte;
  }

  const DIGITS: seq<bv8> := [0x31, 0x32, 0x33, 0x34, 0x35, 0x36, 0x37, 0x38, 0x39]

  /** The registers while the digits 1 to 9 are fed. */
  lemma DigitRegisters()
    ensures
      && FeedByte(0xFFFF_FFFF, 0x31) == 0x6F0A_661C
      && FeedByte(0x6F0A_661C, 0x32) == 0x8CAA_3B9F
      && FeedByte(0x8CAA_3B9F, 0x33) == 0xEF84_D04D
      && FeedByte(0xEF84_D04D, 0x34) == 0x09C5_0B11
      && FeedByte(0x09C5_0B11, 0x35) == 0xE72E_DCCA
      && FeedByte(0xE72E_DCCA, 0x36) == 0xBECA_8E79
      && FeedByte(0xBECA_8E79, 0x37) == 0xEDBD_6815
      && FeedByte(0xEDBD_6815, 0x38) == 0x9F78_7F65
      && FeedByte(0x9F78_7F65, 0x39) == 0x1CF9_6D7C
  {
    FeedMixed(0xFFFF_FFFF, 0x31, 0xFFFF_FFCE);
    FeedMixed(0x6F0A_661C, 0x32, 0x6F0A_662E);
    FeedMixed(0x8CAA_3B9F, 0x33, 0x8CAA_3BAC);
    FeedMixed(0xEF84_D04D, 0x34, 0xEF84_D079);
    FeedMixed(0x09C5_0B11, 0x35, 0x09C5_0B24);
    FeedMixed(0xE72E_DCCA, 0x36, 0xE72E_DCFC);
    FeedMixed(0xBECA_8E79, 0x37, 0xBECA_8E4E);
    FeedMixed(0xEDBD_6815, 0x38, 0xEDBD_682D);
    FeedMixed(0x9F78_7F65, 0x39, 0x9F78_7F5C);
    hide FeedByte;
  }

  /** The ASCII digits 1 to 9 have the checksum every implementation of CRC32C gives them. */
  lemma CheckValue()
    ensures Crc(DIGITS) == 0xE306_9283
  {
    hide FeedByte;
    DigitRegisters();
    var s1: seq<bv8> := [] + [0x31];
    FeedSnoc(0xFFFF_FFFF, [], 0x31);
    assert Feed(0xFFFF_FFFF, []) == 0xFFFF_FFFF;
    hide Feed;
    FeedSnoc(0xFFFF_FFFF, s1, 0x32);
    var s2 := s1 + [0x32];
    FeedSnoc(0xFFFF_FFFF, s2, 0x33);
    var s3 := s2 + [0x33];
    FeedSnoc(0xFFFF_FFFF, s3, 0x34);
    var s4 := s3 + [0x34];
    FeedSnoc(0xFFFF_FFFF, s4, 0x35);
    var s5 := s4 + [0x35];
    FeedSnoc(0xFFFF_FFFF, s5, 0x36);
    var s6 := s5 + [0x36];
    FeedSnoc(0xFFFF_FFFF, s6, 0x37);
    var s7 := s6 + [0x37];
    FeedSnoc(0xFFFF_FFFF, s7, 0x38);
    var s8 := s7 + [0x38];
    FeedSnoc(0xFFFF_FFFF, s8, 0x39);
    var s9 := s8 + [0x39];
    assert DIGITS == s9;
  }
}
