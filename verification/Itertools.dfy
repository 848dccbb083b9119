/** The generators of Python's itertools that the recovery tools use, as sequences in yield order. */
module Itertools {
  import opened Arrangements

  // ---------------------------------------------------------------- permutations

  function Without<T>(s: seq<T>, i: nat): (r: seq<T>)
    requires i < |s|
    ensures |r| == |s| - 1
  {
    s[..i] + s[i + 1..]
  }

  function Prefixed<T>(x: T, ts: seq<seq<T>>): (r: seq<seq<T>>)
    ensures |r| == |ts| && forall k :: 0 <= k < |ts| ==> r[k] == [x] + ts[k]
  {
    seq(|ts|, k requires 0 <= k < |ts| => [x] + ts[k])
  }

  function Wrapped<T>(before: seq<T>, ts: seq<seq<T>>, after: seq<T>): (r: seq<seq<T>>)
    ensures |r| == |ts| && forall k :: 0 <= k < |ts| ==> r[k] == before + ts[k] + after
  {
    seq(|ts|, k requires 0 <= k < |ts| => before + ts[k] + after)
  }

  lemma PrefixedIff<T>(x: T, ts: seq<seq<T>>, t: seq<T>)
    ensures t in Prefixed(x, ts) <==> t != [] && t[0] == x && t[1..] in ts
  {
    var r := Prefixed(x, ts);
    if t in r {
      var k :| 0 <= k < |r| && r[k] == t;
      assert t[1..] == ts[k];
    }
    if t != [] && t[0] == x && t[1..] in ts {
      var k :| 0 <= k < |ts| && ts[k] == t[1..];
      assert t == [x] + t[1..];
      assert r[k] == t;
    }
  }

  /** Every ordering of the positions, in positional lexicographic order. */
  function Permutations<T>(s: seq<T>): seq<seq<T>>
    decreases |s|, |s| + 1
  {
    if s == [] then [[]] else PermutationsFrom(s, 0)
  }

  /** Those that begin with one of the positions from i on. */
  function PermutationsFrom<T>(s: seq<T>, i: nat): seq<seq<T>>
    requires i <= |s|
    decreases |s|, |s| - i
  {
    if i == |s| then [] else Prefixed(s[i], Permutations(Without(s, i))) + PermutationsFrom(s, i + 1)
  }
  lemma {:induction false} PermutationsSize<T>(s: seq<T>)
    ensures |Permutations(s)| == Factorial(|s|)
    decreases |s|, |s| + 1
  {
    if s != [] {
      PermutationsFromSize(s, 0);
    }
  }

  lemma {:induction false} PermutationsFromSize<T>(s: seq<T>, i: nat)
    requires s != [] && i <= |s|
    ensures |PermutationsFrom(s, i)| == (|s| - i) * Factorial(|s| - 1)
    decreases |s|, |s| - i
  {
    if i < |s| {
      PermutationsSize(Without(s, i));
      PermutationsFromSize(s, i + 1);
      assert (|s| - i) * Factorial(|s| - 1) == Factorial(|s| - 1) + (|s| - i - 1) * Factorial(|s| - 1);
    }
  }

  lemma WithoutMultiset<T>(s: seq<T>, i: nat)
    requires i < |s|
    ensures multiset(Without(s, i)) == multiset(s) - multiset{s[i]} && s[i] in multiset(s)
    ensures Distinct(s) ==> Distinct(Without(s, i))
  {
    assert s == s[..i] + [s[i]] + s[i + 1..];
    WithoutDistinct(s, i);
  }

  lemma WithoutDistinct<T>(s: seq<T>, i: nat)
    requires i < |s|
    ensures Distinct(s) ==> Distinct(Without(s, i))
  {
    var w := Without(s, i);
    assert forall k :: 0 <= k < |w| ==> w[k] == s[if k < i then k else k + 1];
  }

  lemma HeadMultiset<T>(t: seq<T>)
    requires t != []
    ensures multiset(t) == multiset{t[0]} + multiset(t[1..])
  {
    assert t == [t[0]] + t[1..];
  }

  /** The permutations are the sequences with the same elements, repetitions counted. */
  lemma {:induction false} PermutationsIff<T>(s: seq<T>, t: seq<T>)
    ensures t in Permutations(s) <==> multiset(t) == multiset(s)
    decreases |s|, |s| + 1
  {
    if s == [] {
      assert |multiset(t)| == |t|;
    } else {
      PermutationsFromIff(s, 0, t);
      if multiset(t) == multiset(s) {
        assert |multiset(t)| == |t| && |multiset(s)| == |s|;
        HeadMultiset(t);
        assert t[0] in multiset(s);
        var j :| 0 <= j < |s| && s[j] == t[0];
      }
    }
  }

  lemma {:induction false} PermutationsFromIff<T>(s: seq<T>, i: nat, t: seq<T>)
    requires i <= |s|
    ensures t in PermutationsFrom(s, i)
       <==> multiset(t) == multiset(s) && t != [] && exists j :: i <= j < |s| && s[j] == t[0]
    decreases |s|, |s| - i
  {
    if i < |s| {
      var ts := Permutations(Without(s, i));
      PrefixedIff(s[i], ts, t);
      PermutationsFromIff(s, i + 1, t);
      if t != [] && t[0] == s[i] {
        PermutationsIff(Without(s, i), t[1..]);
        WithoutMultiset(s, i);
        HeadMultiset(t);
        assert multiset{t[0]} + (multiset(s) - multiset{t[0]}) == multiset(s);
      }
    }
  }

  // ---------------------------------------------------------------- combinations

  predicate Ascending(p: seq<nat>) {
    forall i, j :: 0 <= i < j < |p| ==> p[i] < p[j]
  }

  /** combinations(range(lo, n), k), in yield order. */
  function Combinations(lo: nat, n: nat, k: nat): seq<seq<nat>>
    decreases n - lo
  {
    if k == 0 then [[]]
    else if lo >= n then []
    else Prefixed(lo, Combinations(lo + 1, n, k - 1)) + Combinations(lo + 1, n, k)
  }

  predicate Combination(s: seq<nat>, lo: nat, n: nat, k: nat) {
    |s| == k && Ascending(s) && forall i :: 0 <= i < |s| ==> lo <= s[i] < n
  }

  lemma {:induction false} CombinationsIff(lo: nat, n: nat, k: nat, s: seq<nat>)
    ensures s in Combinations(lo, n, k) <==> Combination(s, lo, n, k)
    decreases n - lo
  {
    hide Combination, Prefixed;
    CombinationEnds(s, lo, n, k);
    if k > 0 && lo < n {
      CombinationsIff(lo + 1, n, k, s);
      PrefixedIff(lo, Combinations(lo + 1, n, k - 1), s);
      if s != [] {
        CombinationsIff(lo + 1, n, k - 1, s[1..]);
        CombinationTail(s, lo, n, k);
      } else {
        CombinationEnds(s, lo + 1, n, k);
      }
    }
  }

  lemma CombinationEnds(s: seq<nat>, lo: nat, n: nat, k: nat)
    ensures k == 0 ==> (Combination(s, lo, n, k) <==> s == [])
    ensures k > 0 && (lo >= n || s == []) ==> !Combination(s, lo, n, k)
  {
    if s != [] {
      var x := s[0];
      assert lo >= n ==> !(lo <= x < n);
    }
  }

  lemma CombinationTail(s: seq<nat>, lo: nat, n: nat, k: nat)
    requires s != [] && k > 0 && lo < n
    ensures Combination(s, lo, n, k)
       <==> Combination(s, lo + 1, n, k) || (s[0] == lo && Combination(s[1..], lo + 1, n, k - 1))
  {
    if Combination(s, lo, n, k) && s[0] == lo {
      forall i | 0 <= i < |s[1..]| ensures lo + 1 <= s[1..][i] < n {
        assert s[0] < s[i + 1];
      }
    }
    if s[0] == lo && Combination(s[1..], lo + 1, n, k - 1) {
      forall i | 0 <= i < |s| ensures lo <= s[i] < n {
        assert i == 0 || s[i] == s[1..][i - 1];
      }
      forall i, j | 0 <= i < j < |s| ensures s[i] < s[j] {
        assert s[j] == s[1..][j - 1];
        assert i == 0 || s[i] == s[1..][i - 1];
      }
    }
  }

  lemma {:induction false} CombinationsDistinct(lo: nat, n: nat, k: nat)
    ensures Distinct(Combinations(lo, n, k))
    decreases n - lo
  {
    if k > 0 && lo < n {
      var a, b := Combinations(lo + 1, n, k - 1), Combinations(lo + 1, n, k);
      CombinationsDistinct(lo + 1, n, k - 1);
      CombinationsDistinct(lo + 1, n, k);
      PrefixedDistinct(lo, a);
      forall s | s in Prefixed(lo, a) ensures s !in b {
        PrefixedIff(lo, a, s);
        CombinationsIff(lo + 1, n, k, s);
      }
      DistinctConcat(Prefixed(lo, a), b);
    }
  }

  lemma PrefixedDistinct<T>(x: T, ts: seq<seq<T>>)
    requires Distinct(ts)
    ensures Distinct(Prefixed(x, ts))
  {
    var r := Prefixed(x, ts);
    forall i, j | 0 <= i < j < |r| ensures r[i] != r[j] {
      assert r[i][1..] == ts[i] && r[j][1..] == ts[j];
    }
  }

  // ---------------------------------------------------------------- product

  /** Every element of xs put before every element of ts, the elements of xs changing slowest. */
  function Spread<T>(xs: seq<T>, ts: seq<seq<T>>): seq<seq<T>> {
    if xs == [] then [] else Spread(xs[..|xs| - 1], ts) + Prefixed(xs[|xs| - 1], ts)
  }

  /** product(*lists): the last list changes fastest. */
  function CartesianProduct<T>(lists: seq<seq<T>>): seq<seq<T>> {
    if lists == [] then [[]] else Spread(lists[0], CartesianProduct(lists[1..]))
  }

  /** The product of the lengths. */
  function SizeProduct<T>(lists: seq<seq<T>>): nat {
    if lists == [] then 1 else SizeProduct(lists[..|lists| - 1]) * |lists[|lists| - 1]|
  }

  lemma {:induction false} SpreadConcat<T>(a: seq<T>, b: seq<T>, ts: seq<seq<T>>)
    ensures Spread(a + b, ts) == Spread(a, ts) + Spread(b, ts)
  {
    hide Prefixed;
    if b == [] {
      assert a + b == a;
    } else {
      var init, last, ab := b[..|b| - 1], b[|b| - 1], a + b;
      SpreadConcat(a, init, ts);
      assert ab[..|ab| - 1] == a + init && ab[|ab| - 1] == last;
      assert Spread(ab, ts) == Spread(a + init, ts) + Prefixed(last, ts);
    }
  }

  lemma SpreadSnoc<T>(xs: seq<T>, k: nat, ts: seq<seq<T>>)
    requires k < |xs|
    ensures Spread(xs[..k + 1], ts) == Spread(xs[..k], ts) + Prefixed(xs[k], ts)
  {
    assert xs[..k + 1][..k] == xs[..k];
  }

  lemma {:induction false} SpreadIff<T>(xs: seq<T>, ts: seq<seq<T>>, t: seq<T>)
    ensures t in Spread(xs, ts) <==> t != [] && t[0] in xs && t[1..] in ts
  {
    if xs != [] {
      var init, last := xs[..|xs| - 1], xs[|xs| - 1];
      assert xs == init + [last];
      SpreadIff(init, ts, t);
      PrefixedIff(last, ts, t);
    }
  }

  lemma {:induction false} SpreadSize<T>(xs: seq<T>, ts: seq<seq<T>>)
    ensures |Spread(xs, ts)| == |xs| * |ts|
  {
    if xs != [] {
      SpreadSize(xs[..|xs| - 1], ts);
      assert |xs| * |ts| == (|xs| - 1) * |ts| + |ts|;
    }
  }

  /** t takes its k-th element from the k-th list. */
  predicate Picks<T(==)>(lists: seq<seq<T>>, t: seq<T>) {
    |t| == |lists| && forall k :: 0 <= k < |lists| ==> t[k] in lists[k]
  }

  lemma {:induction false} ProductIff<T>(lists: seq<seq<T>>, t: seq<T>)
    ensures t in CartesianProduct(lists) <==> Picks(lists, t)
    decreases lists
  {
    if lists != [] {
      SpreadIff(lists[0], CartesianProduct(lists[1..]), t);
      if t != [] {
        ProductIff(lists[1..], t[1..]);
        PicksCons(lists, t);
      }
    }
  }

  lemma PicksCons<T>(lists: seq<seq<T>>, t: seq<T>)
    requires lists != [] && t != []
    ensures Picks(lists, t) <==> t[0] in lists[0] && Picks(lists[1..], t[1..])
  {
    if t[0] in lists[0] && Picks(lists[1..], t[1..]) {
      forall k | 0 <= k < |lists| ensures t[k] in lists[k] {
        assert k == 0 || (t[k] == t[1..][k - 1] && lists[k] == lists[1..][k - 1]);
      }
    }
  }

  lemma {:induction false} SizeProductCons<T>(x: seq<T>, lists: seq<seq<T>>)
    ensures SizeProduct([x] + lists) == |x| * SizeProduct(lists)
    decreases lists
  {
    var all := [x] + lists;
    if lists == [] {
      assert all[..|all| - 1] == [];
      assert SizeProduct<T>([]) == 1;
    } else {
      var init, n := lists[..|lists| - 1], |lists[|lists| - 1]|;
      SizeProductCons(x, init);
      assert all[..|all| - 1] == [x] + init;
      assert |x| * SizeProduct(init) * n == |x| * (SizeProduct(init) * n);
    }
  }

  lemma {:induction false} ProductSize<T>(lists: seq<seq<T>>)
    ensures |CartesianProduct(lists)| == SizeProduct(lists)
    decreases lists
  {
    if lists != [] {
      ProductSize(lists[1..]);
      SpreadSize(lists[0], CartesianProduct(lists[1..]));
      SizeProductCons(lists[0], lists[1..]);
      assert lists == [lists[0]] + lists[1..];
    }
  }
}
