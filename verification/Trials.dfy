/**
 Trying many fillings of a phrase: patching words in at given positions, and collecting the
 phrases that pass the checksum test and the address test.
 */
module Trials {
  import opened Arrangements

  predicate InRange(positions: seq<nat>, n: nat) {
    forall i :: 0 <= i < |positions| ==> positions[i] < n
  }

  /** Writes words at positions one after the other. */
  function Patch<T>(s: seq<T>, positions: seq<nat>, words: seq<T>): (r: seq<T>)
    requires |positions| == |words| && InRange(positions, |s|)
    ensures |r| == |s|
    decreases positions
  {
    if positions == [] then s
    else
      Patch(s[positions[0] := words[0]], positions[1..], words[1..])
  }

  lemma {:induction false} PatchAt<T>(s: seq<T>, positions: seq<nat>, words: seq<T>)
    requires |positions| == |words| && Distinct(positions) && InRange(positions, |s|)
    ensures forall i :: 0 <= i < |positions| ==> Patch(s, positions, words)[positions[i]] == words[i]
    ensures forall k :: 0 <= k < |s| && k !in positions ==> Patch(s, positions, words)[k] == s[k]
    decreases positions
  {
    if positions != [] {
      var p, s' := positions[0], s[positions[0] := words[0]];
      assert p in positions && p !in positions[1..];
      PatchAt(s', positions[1..], words[1..]);
      var r := Patch(s, positions, words);
      assert r == Patch(s', positions[1..], words[1..]);
      forall i | 0 <= i < |positions| ensures r[positions[i]] == words[i] {
        if i > 0 {
          assert positions[i] == positions[1..][i - 1] && words[i] == words[1..][i - 1];
        }
      }
    }
  }

  /** The words written by an earlier filling do not matter. */
  lemma Repatch<T>(s: seq<T>, positions: seq<nat>, before: seq<T>, words: seq<T>)
    requires |positions| == |words| == |before| && Distinct(positions) && InRange(positions, |s|)
    ensures Patch(Patch(s, positions, before), positions, words) == Patch(s, positions, words)
  {
    var t := Patch(s, positions, before);
    PatchAt(s, positions, before);
    PatchAt(t, positions, words);
    PatchAt(s, positions, words);
    forall k | 0 <= k < |s| ensures Patch(t, positions, words)[k] == Patch(s, positions, words)[k] {
      if k in positions {
        var i :| 0 <= i < |positions| && positions[i] == k;
      }
    }
  }

  lemma PatchInjective<T>(s: seq<T>, positions: seq<nat>, a: seq<T>, b: seq<T>)
    requires |positions| == |a| == |b| && Distinct(positions) && InRange(positions, |s|)
    requires Patch(s, positions, a) == Patch(s, positions, b)
    ensures a == b
  {
    PatchAt(s, positions, a);
    PatchAt(s, positions, b);
    forall i | 0 <= i < |a| ensures a[i] == b[i] {
      assert Patch(s, positions, a)[positions[i]] == Patch(s, positions, b)[positions[i]];
    }
  }

  ghost predicate Slots<T>(template: seq<T>, positions: seq<nat>) {
    Distinct(positions) && InRange(positions, |template|)
  }

  /** The phrase of one filling, if it passes both tests. */
  function Checked<T>(phrase: seq<T>, valid: seq<T> -> bool, accept: seq<T> -> bool): seq<seq<T>> {
    if valid(phrase) && accept(phrase) then [phrase] else []
  }

  /** The phrases among the fillings that pass both tests, in order. */
  function Collected<T>(template: seq<T>, positions: seq<nat>, fillings: seq<seq<T>>,
                     valid: seq<T> -> bool, accept: seq<T> -> bool): seq<seq<T>>
    requires InRange(positions, |template|)
    requires forall f :: f in fillings ==> |f| == |positions|
  {
    if fillings == [] then []
    else
      var init, last := fillings[..|fillings| - 1], fillings[|fillings| - 1];
      assert last in fillings && forall f :: f in init ==> f in fillings;
      Collected(template, positions, init, valid, accept) + Checked(Patch(template, positions, last), valid, accept)
  }

  /** How many fillings pass the checksum test. */
  function CountValid<T>(template: seq<T>, positions: seq<nat>, fillings: seq<seq<T>>, valid: seq<T> -> bool): nat
    requires InRange(positions, |template|)
    requires forall f :: f in fillings ==> |f| == |positions|
  {
    if fillings == [] then 0
    else
      var init, last := fillings[..|fillings| - 1], fillings[|fillings| - 1];
      assert last in fillings && forall f :: f in init ==> f in fillings;
      CountValid(template, positions, init, valid) + (if valid(Patch(template, positions, last)) then 1 else 0)
  }

  ghost predicate Fillings<T>(fillings: seq<seq<T>>, n: nat) {
    forall f :: f in fillings ==> |f| == n
  }

  lemma CollectedNone<T>(template: seq<T>, positions: seq<nat>, valid: seq<T> -> bool, accept: seq<T> -> bool)
    requires Slots(template, positions)
    ensures Collected(template, positions, [], valid, accept) == []
  {
  }

  lemma CollectedSnoc<T>(template: seq<T>, positions: seq<nat>, init: seq<seq<T>>, last: seq<T>,
                         valid: seq<T> -> bool, accept: seq<T> -> bool)
    requires Slots(template, positions) && Fillings(init, |positions|) && |last| == |positions|
    ensures Fillings(init + [last], |positions|)
    ensures Collected(template, positions, init + [last], valid, accept)
         == Collected(template, positions, init, valid, accept) + Checked(Patch(template, positions, last), valid, accept)
  {
    hide Patch, Checked;
    assert (init + [last])[..|init|] == init;
  }

  lemma {:induction false} CollectedConcat<T>(template: seq<T>, positions: seq<nat>, a: seq<seq<T>>, b: seq<seq<T>>,
                                           valid: seq<T> -> bool, accept: seq<T> -> bool)
    requires Slots(template, positions) && Fillings(a, |positions|) && Fillings(b, |positions|)
    ensures Fillings(a + b, |positions|)
    ensures Collected(template, positions, a + b, valid, accept)
         == Collected(template, positions, a, valid, accept) + Collected(template, positions, b, valid, accept)
    decreases b
  {
    hide Patch, Checked, Collected;
    if b == [] {
      CollectedNone(template, positions, valid, accept);
      assert a + b == a;
    } else {
      var init, last := b[..|b| - 1], b[|b| - 1];
      assert b == init + [last] && last in b && forall f :: f in init ==> f in b;
      CollectedConcat(template, positions, a, init, valid, accept);
      CollectedSnoc(template, positions, a + init, last, valid, accept);
      CollectedSnoc(template, positions, init, last, valid, accept);
      assert a + b == (a + init) + [last];
    }
  }

  lemma {:induction false} CountValidConcat<T>(template: seq<T>, positions: seq<nat>, a: seq<seq<T>>,
                                            b: seq<seq<T>>, valid: seq<T> -> bool)
    requires Slots(template, positions) && Fillings(a, |positions|) && Fillings(b, |positions|)
    ensures Fillings(a + b, |positions|)
    ensures CountValid(template, positions, a + b, valid)
         == CountValid(template, positions, a, valid) + CountValid(template, positions, b, valid)
    decreases b
  {
    hide Patch;
    var ab := a + b;
    assert Fillings(ab, |positions|);
    if b == [] {
      assert ab == a;
    } else {
      var init, last := b[..|b| - 1], b[|b| - 1];
      assert forall f :: f in init ==> f in b;
      CountValidConcat(template, positions, a, init, valid);
      assert ab[..|ab| - 1] == a + init && ab[|ab| - 1] == last;
    }
  }

  lemma {:induction false} CollectedIff<T>(template: seq<T>, positions: seq<nat>, fillings: seq<seq<T>>,
                                        valid: seq<T> -> bool, accept: seq<T> -> bool, c: seq<T>)
    requires Slots(template, positions) && Fillings(fillings, |positions|)
    ensures c in Collected(template, positions, fillings, valid, accept)
       <==> valid(c) && accept(c) && exists f :: f in fillings && Patch(template, positions, f) == c
    decreases fillings
  {
    hide Patch;
    if fillings != [] {
      var init, last := fillings[..|fillings| - 1], fillings[|fillings| - 1];
      assert fillings == init + [last];
      assert forall f :: f in init ==> f in fillings;
      CollectedIff(template, positions, init, valid, accept, c);
      var phrase := Patch(template, positions, last);
      assert c in Checked(phrase, valid, accept) <==> c == phrase && valid(c) && accept(c);
      if f :| f in fillings && Patch(template, positions, f) == c {
        assert f == last || f in init;
      }
      assert last in fillings;
    }
  }

  lemma {:induction false} CollectedDistinct<T>(template: seq<T>, positions: seq<nat>, fillings: seq<seq<T>>,
                                             valid: seq<T> -> bool, accept: seq<T> -> bool)
    requires Slots(template, positions) && Fillings(fillings, |positions|) && Distinct(fillings)
    ensures Distinct(Collected(template, positions, fillings, valid, accept))
    decreases fillings
  {
    hide Patch;
    if fillings != [] {
      var init, last := fillings[..|fillings| - 1], fillings[|fillings| - 1];
      assert fillings == init + [last] && last !in init;
      CollectedDistinct(template, positions, init, valid, accept);
      var phrase := Patch(template, positions, last);
      CollectedIff(template, positions, init, valid, accept, phrase);
      forall f | f in init ensures Patch(template, positions, f) != phrase {
        if Patch(template, positions, f) == phrase {
          PatchInjective(template, positions, f, last);
        }
      }
    }
  }

  // ---------------------------------------------------------------- running totals

  /** What is known of the totals once the fillings `tried` have been gone through. */
  ghost predicate Totals<T>(template: seq<T>, positions: seq<nat>, tried: seq<seq<T>>, valid: seq<T> -> bool,
                         accept: seq<T> -> bool, candidates: seq<seq<T>>, checked: nat, passed: nat) {
    && Slots(template, positions) && Fillings(tried, |positions|)
    && checked == |tried|
    && candidates == Collected(template, positions, tried, valid, accept)
    && passed == CountValid(template, positions, tried, valid)
  }

  lemma TotalsAdd<T>(template: seq<T>, positions: seq<nat>, tried: seq<seq<T>>, more: seq<seq<T>>,
                  valid: seq<T> -> bool, accept: seq<T> -> bool, candidates: seq<seq<T>>, checked: nat, passed: nat)
    requires Totals(template, positions, tried, valid, accept, candidates, checked, passed)
    requires Fillings(more, |positions|) && Distinct(tried + more)
    ensures Fillings(tried + more, |positions|)
    ensures Totals(template, positions, tried + more, valid, accept,
                   candidates + Collected(template, positions, more, valid, accept), checked + |more|,
                   passed + CountValid(template, positions, more, valid))
    ensures Distinct(candidates + Collected(template, positions, more, valid, accept))
  {
    hide Collected, CountValid, Distinct;
    CollectedConcat(template, positions, tried, more, valid, accept);
    CountValidConcat(template, positions, tried, more, valid);
    CollectedDistinct(template, positions, tried + more, valid, accept);
  }

  lemma NoTotals<T>(template: seq<T>, positions: seq<nat>, valid: seq<T> -> bool, accept: seq<T> -> bool)
    requires Slots(template, positions)
    ensures Totals(template, positions, [], valid, accept, [], 0, 0)
  {
  }

  /** One more filling tried. */
  lemma TotalsNext<T>(template: seq<T>, positions: seq<nat>, fillings: seq<seq<T>>, i: nat, valid: seq<T> -> bool,
                      accept: seq<T> -> bool, candidates: seq<seq<T>>, checked: nat, passed: nat)
    requires Slots(template, positions) && Fillings(fillings, |positions|) && i < |fillings|
    requires Totals(template, positions, fillings[..i], valid, accept, candidates, checked, passed)
    ensures fillings[i] in fillings
    ensures var phrase := Patch(template, positions, fillings[i]);
      Totals(template, positions, fillings[..i + 1], valid, accept, candidates + Checked(phrase, valid, accept),
             checked + 1, passed + (if valid(phrase) then 1 else 0))
  {
    hide Patch;
    assert fillings[..i + 1][..i] == fillings[..i];
    assert forall f :: f in fillings[..i + 1] ==> f in fillings;
  }

  lemma TotalsParts<T>(template: seq<T>, positions: seq<nat>, fillings: seq<seq<T>>, valid: seq<T> -> bool,
                       accept: seq<T> -> bool, candidates: seq<seq<T>>, checked: nat, passed: nat)
    requires Totals(template, positions, fillings, valid, accept, candidates, checked, passed)
    ensures Slots(template, positions) && Fillings(fillings, |positions|) && checked == |fillings|
    ensures candidates == Collected(template, positions, fillings, valid, accept)
    ensures passed == CountValid(template, positions, fillings, valid)
  {
  }

  /** The count of passed fillings is that of the phrases which pass the checksum test alone. */
  lemma {:induction false} PassedCount<T>(template: seq<T>, positions: seq<nat>, fillings: seq<seq<T>>, valid: seq<T> -> bool)
    requires InRange(positions, |template|) && forall f :: f in fillings ==> |f| == |positions|
    ensures CountValid(template, positions, fillings, valid)
         == |Collected(template, positions, fillings, valid, _ => true)|
    decreases fillings
  {
    hide Patch;
    if fillings != [] {
      var init, last := fillings[..|fillings| - 1], fillings[|fillings| - 1];
      assert last in fillings && forall f :: f in init ==> f in fillings;
      PassedCount(template, positions, init, valid);
    }
  }
}
