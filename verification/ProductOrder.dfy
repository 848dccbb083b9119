/** The lexicographic order of products: elements are compared by a rank. */
module ProductOrder {
  import opened Arrangements
  import opened Itertools
  import opened Trials

  function RanksOf<T>(rank: T -> nat, t: seq<T>): (r: seq<nat>)
    ensures |r| == |t|
  {
    seq(|t|, k requires 0 <= k < |t| => rank(t[k]))
  }

  ghost predicate RankIncreasing<T>(rank: T -> nat, list: seq<T>) {
    forall i, j :: 0 <= i < j < |list| ==> rank(list[i]) < rank(list[j])
  }

  /** Strictly increasing lexicographically, elements compared by rank. */
  ghost predicate Increasing<T>(rank: T -> nat, ps: seq<seq<T>>) {
    forall i, j :: 0 <= i < j < |ps| ==> Less(RanksOf(rank, ps[i]), RanksOf(rank, ps[j]))
  }

  lemma IncreasingDistinct<T>(rank: T -> nat, ps: seq<seq<T>>)
    requires Increasing(rank, ps)
    ensures Distinct(ps)
  {
    forall i, j | 0 <= i < j < |ps| ensures ps[i] != ps[j] {
      LessIrreflexive(RanksOf(rank, ps[i]));
    }
  }

  lemma IncreasingConcat<T>(rank: T -> nat, a: seq<seq<T>>, b: seq<seq<T>>)
    requires Increasing(rank, a) && Increasing(rank, b)
    requires forall x, y :: x in a && y in b ==> Less(RanksOf(rank, x), RanksOf(rank, y))
    ensures Increasing(rank, a + b)
  {
    hide Less, RanksOf;
    var ab := a + b;
    forall i, j | 0 <= i < j < |ab| ensures Less(RanksOf(rank, ab[i]), RanksOf(rank, ab[j])) {
      if i < |a| && j >= |a| {
        assert ab[i] in a && ab[j] in b;
      } else if i >= |a| {
        assert ab[i] == b[i - |a|] && ab[j] == b[j - |a|];
      }
    }
  }

  lemma RanksCons<T>(rank: T -> nat, x: T, t: seq<T>)
    ensures RanksOf(rank, [x] + t) == [rank(x)] + RanksOf(rank, t)
  {
  }

  lemma LessCons(a: nat, s: seq<int>, t: seq<int>)
    requires Less(s, t)
    ensures Less([a] + s, [a] + t)
  {
    var k: nat :| LessAt(s, t, k);
    assert ([a] + s)[..k + 1] == [a] + s[..k] && ([a] + t)[..k + 1] == [a] + t[..k];
    assert LessAt([a] + s, [a] + t, k + 1);
  }

  lemma PrefixedIncreasing<T>(rank: T -> nat, x: T, ts: seq<seq<T>>)
    requires Increasing(rank, ts)
    ensures Increasing(rank, Prefixed(x, ts))
  {
    hide Less, RanksOf;
    var r := Prefixed(x, ts);
    forall i, j | 0 <= i < j < |r| ensures Less(RanksOf(rank, r[i]), RanksOf(rank, r[j])) {
      RanksCons(rank, x, ts[i]);
      RanksCons(rank, x, ts[j]);
      LessCons(rank(x), RanksOf(rank, ts[i]), RanksOf(rank, ts[j]));
    }
  }

  lemma FirstDiffers<T>(rank: T -> nat, f: seq<T>, g: seq<T>)
    requires |f| == |g| > 0 && rank(f[0]) < rank(g[0])
    ensures Less(RanksOf(rank, f), RanksOf(rank, g))
  {
    assert LessAt(RanksOf(rank, f), RanksOf(rank, g), 0);
  }

  lemma {:induction false} SpreadIncreasing<T>(rank: T -> nat, xs: seq<T>, ts: seq<seq<T>>, n: nat)
    requires RankIncreasing(rank, xs) && Increasing(rank, ts) && Fillings(ts, n)
    ensures Increasing(rank, Spread(xs, ts))
  {
    hide Less, RanksOf;
    if xs != [] {
      var init, last := xs[..|xs| - 1], xs[|xs| - 1];
      SpreadIncreasing(rank, init, ts, n);
      PrefixedIncreasing(rank, last, ts);
      forall f, g | f in Spread(init, ts) && g in Prefixed(last, ts) ensures Less(RanksOf(rank, f), RanksOf(rank, g)) {
        SpreadIff(init, ts, f);
        PrefixedIff(last, ts, g);
        var i :| 0 <= i < |init| && init[i] == f[0];
        assert xs[i] == f[0];
        FirstDiffers(rank, f, g);
      }
      IncreasingConcat(rank, Spread(init, ts), Prefixed(last, ts));
    }
  }

  lemma ProductFillings<T>(lists: seq<seq<T>>)
    ensures Fillings(CartesianProduct(lists), |lists|)
  {
    forall f | f in CartesianProduct(lists) ensures |f| == |lists| {
      ProductIff(lists, f);
    }
  }

  /** The product of lists in rank order is in lexicographic order. */
  lemma {:induction false} ProductIncreasing<T>(rank: T -> nat, lists: seq<seq<T>>)
    requires forall i :: 0 <= i < |lists| ==> RankIncreasing(rank, lists[i])
    ensures Increasing(rank, CartesianProduct(lists))
    decreases lists
  {
    if lists != [] {
      ProductIncreasing(rank, lists[1..]);
      ProductFillings(lists[1..]);
      SpreadIncreasing(rank, lists[0], CartesianProduct(lists[1..]), |lists| - 1);
    }
  }

  // ---------------------------------------------------------------- fillings and phrases

  lemma AscendingSlots<T>(words: seq<T>, positions: seq<nat>)
    requires Ascending(positions) && InRange(positions, |words|)
    ensures Slots(words, positions)
  {
  }

  /** Before the first position where the fillings differ, the phrases agree. */
  lemma PatchSame<T>(rank: T -> nat, words: seq<T>, positions: seq<nat>, f: seq<T>, g: seq<T>, k: nat, j: nat)
    requires Ascending(positions) && InRange(positions, |words|) && |f| == |g| == |positions|
    requires k < |positions| && j < positions[k] && RanksOf(rank, f)[..k] == RanksOf(rank, g)[..k]
    ensures rank(Patch(words, positions, f)[j]) == rank(Patch(words, positions, g)[j])
  {
    hide Patch;
    AscendingSlots(words, positions);
    PatchAt(words, positions, f);
    PatchAt(words, positions, g);
    if j in positions {
      var i :| 0 <= i < |positions| && positions[i] == j;
      assert i < k;
      assert RanksOf(rank, f)[..k][i] == RanksOf(rank, g)[..k][i];
    }
  }

  /** Filling ascending positions keeps the order of the fillings. */
  lemma PatchLess<T>(rank: T -> nat, words: seq<T>, positions: seq<nat>, f: seq<T>, g: seq<T>)
    requires Ascending(positions) && InRange(positions, |words|) && |f| == |g| == |positions|
    requires Less(RanksOf(rank, f), RanksOf(rank, g))
    ensures Less(RanksOf(rank, Patch(words, positions, f)), RanksOf(rank, Patch(words, positions, g)))
  {
    hide Patch, Ascending;
    var k: nat :| LessAt(RanksOf(rank, f), RanksOf(rank, g), k);
    var p, c, d := positions[k], Patch(words, positions, f), Patch(words, positions, g);
    forall j: nat | j < p ensures rank(c[j]) == rank(d[j]) {
      PatchSame(rank, words, positions, f, g, k, j);
    }
    AscendingSlots(words, positions);
    PatchAt(words, positions, f);
    PatchAt(words, positions, g);
    assert RanksOf(rank, c)[..p] == RanksOf(rank, d)[..p];
    assert LessAt(RanksOf(rank, c), RanksOf(rank, d), p);
  }

  /** Collecting from ordered fillings gives ordered phrases. */
  lemma {:induction false} CollectedIncreasing<T>(rank: T -> nat, words: seq<T>, positions: seq<nat>,
                                                 fillings: seq<seq<T>>, valid: seq<T> -> bool, accept: seq<T> -> bool)
    requires Ascending(positions) && InRange(positions, |words|) && Fillings(fillings, |positions|)
    requires Increasing(rank, fillings)
    ensures Increasing(rank, Collected(words, positions, fillings, valid, accept))
    decreases fillings
  {
    hide Patch, Less, RanksOf, Checked, Collected, Increasing;
    AscendingSlots(words, positions);
    if fillings == [] {
      CollectedNone(words, positions, valid, accept);
      NoneIncreasing(rank);
    } else {
      var init, last := fillings[..|fillings| - 1], fillings[|fillings| - 1];
      assert fillings == init + [last] && last in fillings && forall f :: f in init ==> f in fillings;
      InitIncreasing(rank, fillings);
      CollectedIncreasing(rank, words, positions, init, valid, accept);
      CollectedSnoc(words, positions, init, last, valid, accept);
      var a, phrase := Collected(words, positions, init, valid, accept), Patch(words, positions, last);
      forall c | c in a ensures Less(RanksOf(rank, c), RanksOf(rank, phrase)) {
        CollectedIff(words, positions, init, valid, accept, c);
        var f :| f in init && Patch(words, positions, f) == c;
        PatchLess(rank, words, positions, f, last);
      }
      CheckedOnly(phrase, valid, accept);
      OneIncreasing(rank, Checked(phrase, valid, accept));
      IncreasingConcat(rank, a, Checked(phrase, valid, accept));
    }
  }

  lemma NoneIncreasing<T>(rank: T -> nat)
    ensures Increasing(rank, [])
  {
  }

  lemma OneIncreasing<T>(rank: T -> nat, ps: seq<seq<T>>)
    requires |ps| <= 1
    ensures Increasing(rank, ps)
  {
  }

  lemma InitIncreasing<T>(rank: T -> nat, ps: seq<seq<T>>)
    requires ps != [] && Increasing(rank, ps)
    ensures var init, last := ps[..|ps| - 1], ps[|ps| - 1];
      Increasing(rank, init) && forall f :: f in init ==> Less(RanksOf(rank, f), RanksOf(rank, last))
  {
    hide Less, RanksOf;
    var init, last := ps[..|ps| - 1], ps[|ps| - 1];
    forall f | f in init ensures Less(RanksOf(rank, f), RanksOf(rank, last)) {
      var i :| 0 <= i < |init| && init[i] == f;
      assert ps[i] == f;
    }
  }

  lemma CheckedOnly<T>(phrase: seq<T>, valid: seq<T> -> bool, accept: seq<T> -> bool)
    ensures |Checked(phrase, valid, accept)| <= 1 && forall c :: c in Checked(phrase, valid, accept) ==> c == phrase
  {
  }

  // ---------------------------------------------------------------- combinations and permutations

  /** combinations yields in lexicographic order. */
  lemma {:induction false} CombinationsIncreasing(rank: nat -> nat, lo: nat, n: nat, k: nat)
    requires forall x: nat, y: nat :: x < y ==> rank(x) < rank(y)
    ensures Increasing(rank, Combinations(lo, n, k))
    decreases n - lo
  {
    hide Less, RanksOf, Prefixed;
    if k > 0 && lo < n {
      var a, b := Prefixed(lo, Combinations(lo + 1, n, k - 1)), Combinations(lo + 1, n, k);
      CombinationsIncreasing(rank, lo + 1, n, k - 1);
      CombinationsIncreasing(rank, lo + 1, n, k);
      PrefixedIncreasing(rank, lo, Combinations(lo + 1, n, k - 1));
      forall f, g | f in a && g in b ensures Less(RanksOf(rank, f), RanksOf(rank, g)) {
        PrefixedIff(lo, Combinations(lo + 1, n, k - 1), f);
        CombinationsIff(lo + 1, n, k - 1, f[1..]);
        CombinationsIff(lo + 1, n, k, g);
        FirstDiffers(rank, f, g);
      }
      IncreasingConcat(rank, a, b);
    }
  }

  lemma WithoutIncreasing<T>(rank: T -> nat, s: seq<T>, i: nat)
    requires RankIncreasing(rank, s) && i < |s|
    ensures RankIncreasing(rank, Without(s, i))
  {
    var w := Without(s, i);
    assert forall k :: 0 <= k < |w| ==> w[k] == s[if k < i then k else k + 1];
  }

  /** permutations of an increasing sequence yields in lexicographic order. */
  lemma {:induction false} PermutationsIncreasing<T>(rank: T -> nat, s: seq<T>)
    requires RankIncreasing(rank, s)
    ensures Increasing(rank, Permutations(s))
    decreases |s|, |s| + 1
  {
    if s != [] {
      PermutationsFromIncreasing(rank, s, 0);
    }
  }

  lemma {:induction false} PermutationsFromIncreasing<T>(rank: T -> nat, s: seq<T>, i: nat)
    requires RankIncreasing(rank, s) && i <= |s|
    ensures Increasing(rank, PermutationsFrom(s, i))
    decreases |s|, |s| - i
  {
    hide Less, RanksOf, Prefixed, Permutations;
    if i < |s| {
      var ts, b := Permutations(Without(s, i)), PermutationsFrom(s, i + 1);
      var a := Prefixed(s[i], ts);
      WithoutIncreasing(rank, s, i);
      PermutationsIncreasing(rank, Without(s, i));
      PermutationsFromIncreasing(rank, s, i + 1);
      PrefixedIncreasing(rank, s[i], ts);
      forall f, g | f in a && g in b ensures Less(RanksOf(rank, f), RanksOf(rank, g)) {
        PrefixedIff(s[i], ts, f);
        PermutationsIff(Without(s, i), f[1..]);
        PermutationsFromIff(s, i + 1, g);
        SameLength(f[1..], Without(s, i));
        SameLength(g, s);
        FirstDiffers(rank, f, g);
      }
      IncreasingConcat(rank, a, b);
    }
  }

  lemma SameLength<T>(a: seq<T>, b: seq<T>)
    requires multiset(a) == multiset(b)
    ensures |a| == |b|
  {
    assert |multiset(a)| == |a| && |multiset(b)| == |b|;
  }

  /** a has the elements of s at the positions p. */
  ghost predicate PositionsOf<T>(s: seq<T>, p: seq<nat>, a: seq<T>) {
    |a| == |p| && forall k :: 0 <= k < |p| ==> p[k] < |s| && a[k] == s[p[k]]
  }

  ghost predicate AllPositions<T>(s: seq<T>, ps: seq<seq<nat>>, ts: seq<seq<T>>) {
    |ts| == |ps| && forall k :: 0 <= k < |ps| ==> PositionsOf(s, ps[k], ts[k])
  }

  /**
   permutations goes by position, not by value: what it yields for a has the elements of s at the
   positions that it yields for the positions of a.
   */
  lemma {:induction false} PermutationsByPosition<T>(s: seq<T>, p: seq<nat>, a: seq<T>)
    requires PositionsOf(s, p, a)
    ensures AllPositions(s, Permutations(p), Permutations(a))
    decreases |p|, |p| + 1
  {
    if p != [] {
      PermutationsFromByPosition(s, p, a, 0);
    }
  }

  lemma {:induction false} PermutationsFromByPosition<T>(s: seq<T>, p: seq<nat>, a: seq<T>, i: nat)
    requires PositionsOf(s, p, a) && i <= |p|
    ensures AllPositions(s, PermutationsFrom(p, i), PermutationsFrom(a, i))
    decreases |p|, |p| - i
  {
    if i < |p| {
      hide Permutations, PositionsOf, Prefixed;
      WithoutPositions(s, p, a, i);
      PermutationsByPosition(s, Without(p, i), Without(a, i));
      PermutationsFromByPosition(s, p, a, i + 1);
      PrefixedPositions(s, p[i], Permutations(Without(p, i)), a[i], Permutations(Without(a, i)));
    }
  }

  lemma WithoutPositions<T>(s: seq<T>, p: seq<nat>, a: seq<T>, i: nat)
    requires PositionsOf(s, p, a) && i < |p|
    ensures |a| == |p| && PositionsOf(s, Without(p, i), Without(a, i)) && p[i] < |s| && a[i] == s[p[i]]
  {
  }

  lemma PrefixedPositions<T>(s: seq<T>, i: nat, ps: seq<seq<nat>>, x: T, ts: seq<seq<T>>)
    requires AllPositions(s, ps, ts) && i < |s| && x == s[i]
    ensures AllPositions(s, Prefixed(i, ps), Prefixed(x, ts))
  {
    forall k | 0 <= k < |ps| ensures PositionsOf(s, [i] + ps[k], [x] + ts[k]) {
      assert PositionsOf(s, ps[k], ts[k]);
    }
  }
}
