/**
 recover_word_order: every distinct filling of the "?" slots, one task per first word.

 Words stand as their ranks in the sorted word list; `valid` is the checksum test and
 `accept` the optional address test on a full phrase.
 */
module WordOrder {
  import opened Arrangements
  import opened Digits
  import opened FirstSeen
  import opened Itertools
  import opened Trials
  import UP = UniquePermutations

  /** The "?" of a template; words are non-negative ranks. */
  const UNKNOWN := -1

  const MAX_RETURNED := 100

  // ---------------------------------------------------------------- listings

  /** The arrangements of m, each exactly once, in some order. */
  ghost predicate Listing(out: seq<seq<int>>, m: multiset<int>) {
    Distinct(out) && forall t :: t in out <==> multiset(t) == m
  }

  lemma ListingSize(out: seq<seq<int>>, m: multiset<int>)
    requires Listing(out, m)
    ensures |out| == |ArrangementsOf(m)|
  {
    forall t ensures t in out <==> t in ArrangementsOf(m) {
      ArrangementIff(m, t);
    }
    DistinctSize(out, ArrangementsOf(m));
  }

  lemma EnumeratesListing(out: seq<seq<int>>, m: multiset<int>)
    requires UP.Enumerates(out, m)
    ensures Listing(out, m)
  {
    forall i, j | 0 <= i < j < |out| ensures out[i] != out[j] {
      LessIrreflexive(out[i]);
    }
  }

  // ---------------------------------------------------------------- permutations of distinct words

  /** Prefixing a listing of what is left gives the arrangements that begin with x. */
  lemma PrefixedListing(x: int, ts: seq<seq<int>>, m: multiset<int>)
    requires x in m && Listing(ts, m - multiset{x})
    ensures Distinct(Prefixed(x, ts))
    ensures forall t :: t in Prefixed(x, ts) <==> multiset(t) == m && t != [] && t[0] == x
  {
    var r := Prefixed(x, ts);
    forall i, j | 0 <= i < j < |r| ensures r[i] != r[j] {
      assert r[i][1..] == ts[i] && r[j][1..] == ts[j];
    }
    forall t ensures t in r <==> multiset(t) == m && t != [] && t[0] == x {
      PrefixedIff(x, ts, t);
      if t != [] && t[0] == x {
        MultisetTail(t);
        assert multiset{x} + (m - multiset{x}) == m;
      }
    }
  }

  lemma {:induction false} PermutationsListing(s: seq<int>)
    requires Distinct(s)
    ensures Listing(Permutations(s), multiset(s))
    decreases |s|, |s| + 1
  {
    if s == [] {
      forall t ensures t in Permutations(s) <==> multiset(t) == multiset(s) {
        assert t == [] <==> |multiset(t)| == 0;
      }
    } else {
      PermutationsFromListing(s, 0);
      forall t | multiset(t) == multiset(s) ensures t in Permutations(s) {
        assert t != [] by {
          assert |multiset(t)| == |s|;
        }
        MultisetTail(t);
        assert t[0] in s;
      }
    }
  }

  lemma {:induction false} PermutationsFromListing(s: seq<int>, i: nat)
    requires Distinct(s) && i <= |s|
    ensures Distinct(PermutationsFrom(s, i))
    ensures forall t :: t in PermutationsFrom(s, i) <==> multiset(t) == multiset(s) && t != [] && t[0] in s[i..]
    decreases |s|, |s| - i
  {
    if i < |s| {
      WithoutMultiset(s, i);
      PermutationsListing(Without(s, i));
      PrefixedListing(s[i], Permutations(Without(s, i)), multiset(s));
      PermutationsFromListing(s, i + 1);
      var a, b := Prefixed(s[i], Permutations(Without(s, i))), PermutationsFrom(s, i + 1);
      assert s[i] !in s[i + 1..];
      DistinctConcat(a, b);
      assert s[i..] == [s[i]] + s[i + 1..];
    }
  }

  // ---------------------------------------------------------------- counting by repeated division

  /** n! after the divisions for the first i keys. */
  function RunningTotal(m: multiset<int>, keys: seq<int>, i: nat): nat
    requires i <= |keys|
  {
    if i == 0 then Factorial(|m|) else RunningTotal(m, keys, i - 1) / Factorial(m[keys[i - 1]])
  }

  lemma DivideProduct(a: nat, f: nat, rest: nat)
    requires f >= 1
    ensures Product(a, Product(f, rest)) / f == Product(a, rest) && Product(a, Product(f, rest)) % f == 0
  {
    var q := a * rest;
    assert a * (f * rest) == q * f;
    DivMod(q, 0, f);
  }

  lemma {:induction false} RunningTotalValue(m: multiset<int>, keys: seq<int>, i: nat)
    requires Covers(keys, m) && i <= |keys|
    ensures RunningTotal(m, keys, i) == Product(|ArrangementsOf(m)|, CountFactorials(m, keys[i..]))
  {
    hide ArrangementsOf;
    if i == 0 {
      ArrangementCount(m, keys);
      assert keys[0..] == keys;
    } else {
      RunningTotalValue(m, keys, i - 1);
      assert keys[i - 1..][1..] == keys[i..];
      DivideProduct(|ArrangementsOf(m)|, Factorial(m[keys[i - 1]]), CountFactorials(m, keys[i..]));
    }
  }

  /** Every division is exact, and the last quotient is the number of distinct arrangements. */
  lemma DivisionsExact(m: multiset<int>, keys: seq<int>, i: nat)
    requires Covers(keys, m) && i <= |keys|
    ensures i < |keys| ==> RunningTotal(m, keys, i) % Factorial(m[keys[i]]) == 0
    ensures i == |keys| ==> RunningTotal(m, keys, i) == |ArrangementsOf(m)|
  {
    hide ArrangementsOf;
    RunningTotalValue(m, keys, i);
    if i < |keys| {
      assert keys[i..][1..] == keys[i + 1..];
      DivideProduct(|ArrangementsOf(m)|, Factorial(m[keys[i]]), CountFactorials(m, keys[i + 1..]));
    } else {
      ProductLaws(|ArrangementsOf(m)|, 1, 1);
      ProductLaws(1, 1, |ArrangementsOf(m)|);
    }
  }

  method CountPermutations(pool: seq<int>) returns (total: nat)
    ensures total == |ArrangementsOf(multiset(pool))|
  {
    hide ArrangementsOf, Firsts, Factorial, Distinct;
    var counts, keys := multiset(pool), Firsts(pool);
    total := Factorial(|pool|);
    assert forall x :: x in counts <==> x in pool;
    for i := 0 to |keys|
      invariant total == RunningTotal(counts, keys, i)
    {
      total := total / Factorial(counts[keys[i]]);
    }
    DivisionsExact(counts, keys, |keys|);
  }

  // ---------------------------------------------------------------- templates

  /** The positions of the unknown words, in order. */
  function UnknownPositions(t: seq<int>): (p: seq<nat>)
    ensures Distinct(p) && InRange(p, |t|)
    ensures forall k :: k in p <==> 0 <= k < |t| && t[k] == UNKNOWN
  {
    if t == [] then []
    else
      var p := UnknownPositions(t[..|t| - 1]);
      assert forall i :: 0 <= i < |p| ==> p[i] in p;
      p + (if t[|t| - 1] == UNKNOWN then [|t| - 1] else [])
  }
}
