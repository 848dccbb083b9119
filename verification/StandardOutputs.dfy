/**
 Which outputs the block walk adds, measured against the four standard script templates.

 The walk checks the script length only for P2PKH, so a script that merely starts like one
 of the other templates (or is so short that the next bytes of the block complete the
 prefix) is added too.
 */
module StandardOutputs {
  import opened Bytes
  import opened BlockWalk
  import opened Serialization

  /** The hash in a standard output script, if it is one. */
  function StandardHash(s: seq<bv8>): (h: seq<seq<bv8>>)
    ensures |h| <= 1
  {
    if |s| == 25 && s[..3] == [0x76, 0xa9, 0x14] && s[23..] == [0x88, 0xac] then [s[3..23]]
    else if |s| == 23 && s[..2] == [0xa9, 0x14] && s[22] == 0x87 then [s[2..22]]
    else if |s| == 22 && s[..2] == [0x00, 0x14] then [s[2..22]]
    else if |s| == 34 && s[..2] == [0x51, 0x20] then [s[2..34]]
    else []
  }

  predicate StandardPrefix(b: seq<bv8>) {
    b == [0xa9, 0x14] || b == [0x00, 0x14] || b == [0x51, 0x20]
  }

  /** Not standard, but the two bytes at its start (which may lie behind it) look like it. */
  predicate Lookalike(s: seq<bv8>, rest: seq<bv8>) {
    StandardHash(s) == [] && StandardPrefix(Slice(s + rest, 0, 2))
  }

  /** A standard script is added as its hash; another one is added exactly when it is a lookalike. */
  lemma AddedScript(s: seq<bv8>, rest: seq<bv8>)
    ensures if Lookalike(s, rest) then |Added(s, rest)| == 1 else Added(s, rest) == StandardHash(s)
  {
    var w := s + rest;
    Window(s, rest, 0, 2);
    Window(s, rest, 0, 3);
    Window(s, rest, 23, 25);
    Window(s, rest, 3, 23);
    Window(s, rest, 2, 22);
    Window(s, rest, 2, 34);
    if |s| == 25 {
      if Slice(w, 0, 3) == P2PKH_PREFIX {
        assert s[..3][0] == s[..2][0];
      }
    }
  }

  /** What is added for a lookalike: the 20 bytes behind the prefix, or 32 for the last template, script or not. */
  lemma LookalikeAdded(s: seq<bv8>, rest: seq<bv8>)
    requires Lookalike(s, rest)
    ensures var w := s + rest; Added(s, rest) == [Slice(w, 2, if Slice(w, 0, 2) == [0x51, 0x20] then 34 else 22)]
  {
    var w := s + rest;
    Window(s, rest, 0, 3);
    Window(s, rest, 23, 25);
    assert |s| == 25 ==> Slice(w, 0, 2) == Slice(w, 0, 3)[..2];
  }

  lemma Window(s: seq<bv8>, rest: seq<bv8>, lo: nat, hi: nat)
    requires lo <= hi
    ensures hi <= |s| ==> Slice(s + rest, lo, hi) == s[lo..hi]
  {
  }

  // ---------------------------------------------------------------- over a whole block

  function StandardByOuts(ts: seq<TxOut>): seq<seq<bv8>> {
    if ts == [] then [] else StandardHash(ts[0].script) + StandardByOuts(ts[1..])
  }

  /** The hashes of the standard outputs, in block order. */
  function StandardByTxs(ts: seq<Tx>): seq<seq<bv8>> {
    if ts == [] then [] else StandardByOuts(ts[0].outs) + StandardByTxs(ts[1..])
  }

  function LookalikesInOuts(ts: seq<TxOut>, rest: seq<bv8>): nat {
    if ts == [] then 0
    else (if Lookalike(ts[0].script, WriteOuts(ts[1..]) + rest) then 1 else 0) + LookalikesInOuts(ts[1..], rest)
  }

  /** How many outputs of the block are lookalikes where they stand. */
  function Lookalikes(ts: seq<Tx>, rest: seq<bv8>): nat {
    if ts == [] then 0
    else LookalikesInOuts(ts[0].outs, AfterOuts(ts[0]) + (WriteTxs(ts[1..]) + rest)) + Lookalikes(ts[1..], rest)
  }

  /** a can be obtained from b by leaving elements out. */
  ghost predicate Subsequence<T>(a: seq<T>, b: seq<T>) {
    a == [] || (b != [] && ((a[0] == b[0] && Subsequence(a[1..], b[1..])) || Subsequence(a, b[1..])))
  }

  lemma {:induction false} SubsequenceLonger<T>(a: seq<T>, b: seq<T>, c: seq<T>)
    requires Subsequence(a, c)
    ensures Subsequence(a, b + c)
  {
    if b == [] {
      assert b + c == c;
    } else {
      SubsequenceLonger(a, b[1..], c);
      assert (b + c)[1..] == b[1..] + c;
    }
  }

  lemma {:induction false} SubsequenceConcat<T>(a: seq<T>, b: seq<T>, c: seq<T>, d: seq<T>)
    requires Subsequence(a, b) && Subsequence(c, d)
    ensures Subsequence(a + c, b + d)
    decreases |a| + |b|
  {
    if a == [] {
      assert a + c == c;
      SubsequenceLonger(c, b, d);
    } else {
      assert (a + c)[1..] == a[1..] + c && (b + d)[1..] == b[1..] + d;
      if a[0] == b[0] && Subsequence(a[1..], b[1..]) {
        SubsequenceConcat(a[1..], b[1..], c, d);
      } else {
        SubsequenceConcat(a, b[1..], c, d);
      }
    }
  }

  lemma {:induction false} OutsAdded(ts: seq<TxOut>, rest: seq<bv8>)
    ensures |AddedByOuts(ts, rest)| == |StandardByOuts(ts)| + LookalikesInOuts(ts, rest)
    ensures LookalikesInOuts(ts, rest) == 0 ==> AddedByOuts(ts, rest) == StandardByOuts(ts)
    ensures Subsequence(StandardByOuts(ts), AddedByOuts(ts, rest))
  {
    hide Lookalike, StandardHash, Added, Subsequence;
    if ts != [] {
      var s, after := ts[0].script, WriteOuts(ts[1..]) + rest;
      AddedScript(s, after);
      OneAdded(s, after);
      OutsAdded(ts[1..], rest);
      SubsequenceConcat(StandardHash(s), Added(s, after), StandardByOuts(ts[1..]), AddedByOuts(ts[1..], rest));
    } else {
      NoneAdded<seq<bv8>>();
    }
  }

  lemma OneAdded(s: seq<bv8>, rest: seq<bv8>)
    ensures Subsequence(StandardHash(s), Added(s, rest))
    ensures Lookalike(s, rest) ==> StandardHash(s) == []
  {
    AddedScript(s, rest);
    if !Lookalike(s, rest) && Added(s, rest) != [] {
      assert Subsequence(StandardHash(s)[1..], Added(s, rest)[1..]);
    }
  }

  lemma NoneAdded<T>()
    ensures Subsequence<T>([], [])
  {
  }

  lemma {:induction false} TxsAdded(ts: seq<Tx>, rest: seq<bv8>)
    ensures |AddedByTxs(ts, rest)| == |StandardByTxs(ts)| + Lookalikes(ts, rest)
    ensures Lookalikes(ts, rest) == 0 ==> AddedByTxs(ts, rest) == StandardByTxs(ts)
    ensures Subsequence(StandardByTxs(ts), AddedByTxs(ts, rest))
  {
    hide AddedByOuts, StandardByOuts, LookalikesInOuts, Subsequence;
    if ts != [] {
      var outs, after := ts[0].outs, AfterOuts(ts[0]) + (WriteTxs(ts[1..]) + rest);
      OutsAdded(outs, after);
      TxsAdded(ts[1..], rest);
      SubsequenceConcat(StandardByOuts(outs), AddedByOuts(outs, after), StandardByTxs(ts[1..]), AddedByTxs(ts[1..], rest));
    } else {
      NoneAdded<seq<bv8>>();
    }
  }

  /**
   Every well-formed block is walked to its last byte, all standard outputs are added in
   order, and nothing else is added exactly when no output is a lookalike.
   */
  lemma BlockAdded(header: seq<bv8>, ts: seq<Tx>)
    requires |header| == 80 && |ts| < LIMIT && forall i :: 0 <= i < |ts| ==> ts[i].Valid()
    ensures var w := ParseBlock(WriteBlock(header, ts));
      && w.Walking? && w.off == |WriteBlock(header, ts)|
      && Subsequence(StandardByTxs(ts), w.adds)
      && (w.adds == StandardByTxs(ts) <==> Lookalikes(ts, []) == 0)
  {
    ReadBlock(header, ts);
    TxsAdded(ts, []);
  }

  // ---------------------------------------------------------------- by the templates

  /** The script pays to h: a public key hash, a script hash, or a version 0 or 1 witness program. */
  predicate PaysTo(s: seq<bv8>, h: seq<bv8>) {
    || (|h| == 20 && s == [0x76, 0xa9, 0x14] + h + [0x88, 0xac])
    || (|h| == 20 && s == [0xa9, 0x14] + h + [0x87])
    || (|h| == 20 && s == [0x00, 0x14] + h)
    || (|h| == 32 && s == [0x51, 0x20] + h)
  }

  lemma StandardIff(s: seq<bv8>, h: seq<bv8>)
    ensures StandardHash(s) == [h] <==> PaysTo(s, h)
  {
    if |s| == 25 {
      assert s == s[..3] + s[3..23] + s[23..];
    } else if |s| == 23 {
      assert s == s[..2] + s[2..22] + [s[22]];
    } else if |s| == 22 {
      assert s == s[..2] + s[2..22];
    } else if |s| == 34 {
      assert s == s[..2] + s[2..34];
    }
    if PaysTo(s, h) {
      Parts([0x76, 0xa9, 0x14], h, [0x88, 0xac]);
      Parts([0xa9, 0x14], h, [0x87]);
      Parts([0x00, 0x14], h, []);
      Parts([0x51, 0x20], h, []);
      assert [0x00, 0x14] + h + [] == [0x00, 0x14] + h && [0x51, 0x20] + h + [] == [0x51, 0x20] + h;
    }
  }

  lemma Parts(a: seq<bv8>, b: seq<bv8>, c: seq<bv8>)
    ensures var s := a + b + c; s[..|a|] == a && s[|a|..|a| + |b|] == b && s[|a| + |b|..] == c
  {
  }

  /** Going through the outputs in order one can pick some that pay to the hashes hs, one each. */
  ghost predicate PayInOrder(outs: seq<TxOut>, hs: seq<seq<bv8>>) {
    hs == [] || (outs != [] &&
      ((PaysTo(outs[0].script, hs[0]) && PayInOrder(outs[1..], hs[1..])) || PayInOrder(outs[1..], hs)))
  }

  /** All the outputs of a block. */
  function AllOuts(ts: seq<Tx>): seq<TxOut> {
    if ts == [] then [] else ts[0].outs + AllOuts(ts[1..])
  }

  lemma {:induction false} StandardConcat(a: seq<TxOut>, b: seq<TxOut>)
    ensures StandardByOuts(a + b) == StandardByOuts(a) + StandardByOuts(b)
  {
    hide StandardHash;
    if a == [] {
      assert a + b == b;
    } else {
      StandardConcat(a[1..], b);
      var ab, h, rest := a + b, StandardHash(a[0].script), StandardByOuts(a[1..]);
      assert ab[0] == a[0] && ab[1..] == a[1..] + b;
      assert StandardByOuts(ab) == h + (rest + StandardByOuts(b)) == (h + rest) + StandardByOuts(b);
    }
  }

  lemma {:induction false} StandardAll(ts: seq<Tx>)
    ensures StandardByTxs(ts) == StandardByOuts(AllOuts(ts))
  {
    hide StandardByOuts;
    if ts != [] {
      StandardAll(ts[1..]);
      StandardConcat(ts[0].outs, AllOuts(ts[1..]));
    } else {
      NoOuts();
    }
  }

  lemma NoOuts()
    ensures StandardByOuts([]) == []
  {
  }

  lemma {:induction false} PaidAreStandard(outs: seq<TxOut>, hs: seq<seq<bv8>>)
    ensures PayInOrder(outs, hs) <==> Subsequence(hs, StandardByOuts(outs))
    decreases outs
  {
    hide StandardHash, PaysTo;
    if outs != [] && hs != [] {
      var h, rest := StandardHash(outs[0].script), StandardByOuts(outs[1..]);
      StandardIff(outs[0].script, hs[0]);
      PaidAreStandard(outs[1..], hs);
      PaidAreStandard(outs[1..], hs[1..]);
      if h == [] {
        assert h + rest == rest;
      } else {
        assert h == [h[0]] && (h + rest)[0] == h[0] && (h + rest)[1..] == rest;
        if Subsequence(hs, [h[0]] + rest) && h[0] == hs[0] {
          assert hs == [hs[0]] + hs[1..];
        }
      }
    }
  }

  lemma {:induction false} SubsequenceTrans<T>(a: seq<T>, b: seq<T>, c: seq<T>)
    requires Subsequence(a, b) && Subsequence(b, c)
    ensures Subsequence(a, c)
    decreases |b| + |c|
  {
    if a != [] {
      if b[0] == c[0] && Subsequence(b[1..], c[1..]) {
        if a[0] == b[0] && Subsequence(a[1..], b[1..]) {
          SubsequenceTrans(a[1..], b[1..], c[1..]);
        } else {
          SubsequenceTrans(a, b[1..], c[1..]);
        }
      } else {
        SubsequenceTrans(a, b, c[1..]);
      }
    }
  }

  /** The hashes that outputs of a well-formed block pay to are added, in their order. */
  lemma TemplatesAdded(header: seq<bv8>, ts: seq<Tx>, hs: seq<seq<bv8>>)
    requires |header| == 80 && |ts| < LIMIT && forall i :: 0 <= i < |ts| ==> ts[i].Valid()
    requires PayInOrder(AllOuts(ts), hs)
    ensures Subsequence(hs, ParseBlock(WriteBlock(header, ts)).adds)
  {
    hide Subsequence, ParseBlock, WriteBlock, PayInOrder, Lookalikes;
    BlockAdded(header, ts);
    StandardAll(ts);
    PaidAreStandard(AllOuts(ts), hs);
    SubsequenceTrans(hs, StandardByTxs(ts), ParseBlock(WriteBlock(header, ts)).adds);
  }

  lemma {:induction false} PaidOnce(outs: seq<TxOut>, k: nat, h: seq<bv8>)
    requires k < |outs| && PaysTo(outs[k].script, h)
    ensures PayInOrder(outs, [h])
  {
    hide PaysTo;
    if k > 0 {
      PaidOnce(outs[1..], k - 1, h);
    }
  }

  lemma {:induction false} OutAt(ts: seq<Tx>, i: nat, j: nat) returns (k: nat)
    requires i < |ts| && j < |ts[i].outs|
    ensures k < |AllOuts(ts)| && AllOuts(ts)[k] == ts[i].outs[j]
  {
    if i == 0 {
      k := j;
    } else {
      k := OutAt(ts[1..], i - 1, j);
      k := k + |ts[0].outs|;
    }
  }

  lemma {:induction false} SingleMember<T>(x: T, s: seq<T>)
    requires Subsequence([x], s)
    ensures x in s
  {
    if s[0] != x {
      SingleMember(x, s[1..]);
    }
  }

  /** Whatever output of a well-formed block pays to h, h is added. */
  lemma TemplateAdded(header: seq<bv8>, ts: seq<Tx>, i: nat, j: nat, h: seq<bv8>)
    requires |header| == 80 && |ts| < LIMIT && forall i :: 0 <= i < |ts| ==> ts[i].Valid()
    requires i < |ts| && j < |ts[i].outs| && PaysTo(ts[i].outs[j].script, h)
    ensures h in ParseBlock(WriteBlock(header, ts)).adds
  {
    hide ParseBlock, WriteBlock, PaysTo, Subsequence, PayInOrder;
    var k := OutAt(ts, i, j);
    PaidOnce(AllOuts(ts), k, h);
    TemplatesAdded(header, ts, [h]);
    SingleMember(h, ParseBlock(WriteBlock(header, ts)).adds);
  }

  /** Scripts of two bytes or more without a standard prefix are no lookalikes, whatever follows. */
  lemma PlainScript(s: seq<bv8>, rest: seq<bv8>)
    requires |s| >= 2 && !StandardPrefix(s[..2])
    ensures !Lookalike(s, rest)
  {
    Window(s, rest, 0, 2);
  }

  /** A two-byte script that is no P2SH output is added, with the bytes behind it as its hash. */
  lemma ShortScriptAdded(rest: seq<bv8>)
    ensures StandardHash([0xa9, 0x14]) == [] && Added([0xa9, 0x14], rest) == [Slice(rest, 0, 20)]
  {
    var s: seq<bv8> := [0xa9, 0x14];
    Window(s, rest, 0, 2);
    assert Slice(s + rest, 2, 22) == Slice(rest, 0, 20);
  }

  /** A legacy transaction whose only script is cut short after the P2SH prefix. */
  ghost predicate CutShort(t: Tx) {
    t.Valid() && !t.segwit && |t.outs| == 1 && t.outs[0].script == [0xa9, 0x14]
  }

  /**
   The block of such a transaction is well-formed and has no standard output, but the walk adds
   the four bytes of the locktime as a hash.
   */
  lemma CutShortBlock(header: seq<bv8>, t: Tx)
    requires |header| == 80 && CutShort(t)
    ensures ParseBlock(WriteBlock(header, [t])) == Walking(|WriteBlock(header, [t])|, [t.locktime])
    ensures StandardByTxs([t]) == []
  {
    hide ParseBlock, WriteBlock, Added, StandardHash;
    ReadBlock(header, [t]);
    OneTx(t);
    OneOut(t.outs[0], t.locktime);
    assert t.outs == [t.outs[0]];
    ShortScriptAdded(t.locktime);
    assert Slice(t.locktime, 0, 20) == t.locktime;
  }

  lemma OneTx(t: Tx)
    requires !t.segwit
    ensures AddedByTxs([t], []) == AddedByOuts(t.outs, t.locktime) && StandardByTxs([t]) == StandardByOuts(t.outs)
  {
    hide AddedByOuts, StandardByOuts;
    NothingWritten();
    assert [t][1..] == [];
    assert AfterOuts(t) + (WriteTxs([]) + []) == t.locktime;
    assert AddedByTxs([], []) == [] && StandardByTxs([]) == [];
  }

  lemma OneOut(o: TxOut, rest: seq<bv8>)
    ensures AddedByOuts([o], rest) == Added(o.script, rest) && StandardByOuts([o]) == StandardHash(o.script)
  {
    hide Added, StandardHash;
    assert [o][1..] == [];
    assert WriteOuts([]) + rest == rest;
    assert AddedByOuts([], rest) == [] && StandardByOuts([]) == [];
  }

  lemma NothingWritten()
    ensures WriteTxs([]) == []
  {
  }
}
