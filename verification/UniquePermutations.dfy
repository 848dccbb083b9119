/**
 unique_permutations of recovery_utils.py: the in-place next-permutation loop, proved to
 enumerate every arrangement of its elements once, in lexicographic order.

 Elements are integers, standing for the totally ordered values of the code.
 */
module UniquePermutations {
  import opened Arrangements
  import opened Bytes

  // ---------------------------------------------------------------- extreme arrangements

  ghost predicate Rising(s: seq<int>) {
    forall i, j :: 0 <= i < j < |s| ==> s[i] <= s[j]
  }

  ghost predicate Falling(s: seq<int>) {
    forall i, j :: 0 <= i < j < |s| ==> s[i] >= s[j]
  }

  lemma SplitMultiset(s: seq<int>, k: nat)
    requires k <= |s|
    ensures multiset(s) == multiset(s[..k]) + multiset(s[k..])
  {
    assert s == s[..k] + s[k..];
  }

  /** With a common prefix, equal multisets leave equal multisets behind it. */
  lemma SameRest(s: seq<int>, t: seq<int>, k: nat)
    requires k <= |s| && k <= |t| && s[..k] == t[..k] && multiset(s) == multiset(t)
    ensures multiset(s[k..]) == multiset(t[k..])
  {
    SplitMultiset(s, k);
    SplitMultiset(t, k);
    assert multiset(s[k..]) == multiset(s) - multiset(s[..k]);
    assert multiset(t[k..]) == multiset(t) - multiset(t[..k]);
  }

  lemma SameLength(s: seq<int>, t: seq<int>)
    requires multiset(s) == multiset(t)
    ensures |s| == |t|
  {
    assert |multiset(s)| == |s| && |multiset(t)| == |t|;
  }

  /** t[k] occurs in the rest of s from k on. */
  lemma OccursLater(s: seq<int>, t: seq<int>, k: nat) returns (i: nat)
    requires k < |s| && k < |t| && s[..k] == t[..k] && multiset(s) == multiset(t)
    ensures k <= i < |s| && s[i] == t[k]
  {
    SameRest(s, t, k);
    assert t[k..][0] in multiset(t[k..]);
    assert t[k] in s[k..];
    var p :| 0 <= p < |s[k..]| && s[k..][p] == t[k];
    i := k + p;
  }

  lemma FallingIsLast(s: seq<int>, t: seq<int>)
    requires Falling(s) && multiset(s) == multiset(t)
    ensures !Less(s, t)
  {
    if Less(s, t) {
      var k: nat :| LessAt(s, t, k);
      var i := OccursLater(s, t, k);
      assert false;
    }
  }

  lemma RisingIsFirst(s: seq<int>, t: seq<int>)
    requires Rising(s) && multiset(s) == multiset(t)
    ensures !Less(t, s)
  {
    if Less(t, s) {
      var k: nat :| LessAt(t, s, k);
      var i := OccursLater(s, t, k);
      assert false;
    }
  }

  // ---------------------------------------------------------------- one step

  /** i is the pivot (its tail falls and something in it is larger), j the last larger element. */
  ghost predicate Pivot(s: seq<int>, i: int, j: int) {
    && 0 <= i < j < |s|
    && Falling(s[i + 1..])
    && s[i] < s[j]
    && forall k :: j < k < |s| ==> s[k] <= s[i]
  }

  /** Swap pivot and successor, then reverse the tail. */
  function Next(s: seq<int>, i: int, j: int): seq<int>
    requires 0 <= i < j < |s|
  {
    var swapped := s[i := s[j]][j := s[i]];
    swapped[..i + 1] + Reversed(swapped[i + 1..])
  }

  lemma {:induction false} ReversedMultiset(s: seq<int>)
    ensures multiset(Reversed(s)) == multiset(s)
  {
    if s == [] {
      assert Reversed(s) == [];
    } else {
      ReversedMultiset(s[1..]);
      assert Reversed(s) == Reversed(s[1..]) + [s[0]];
      assert s == [s[0]] + s[1..];
    }
  }

  lemma NextShape(s: seq<int>, i: int, j: int)
    requires Pivot(s, i, j)
    ensures var n := Next(s, i, j);
      && |n| == |s| && multiset(n) == multiset(s)
      && n[..i] == s[..i] && n[i] == s[j] && Rising(n[i + 1..])
  {
    var swapped, n := s[i := s[j]][j := s[i]], Next(s, i, j);
    var tail := swapped[i + 1..];
    assert tail == s[j := s[i]][i + 1..];
    SplitMultiset(swapped, i + 1);
    ReversedMultiset(tail);
    assert multiset(swapped) == multiset(s);
    assert multiset(n) == multiset(swapped[..i + 1]) + multiset(Reversed(tail));
    SwappedFalls(s, i, j, tail);
    FallingReversed(tail);
    assert n[i + 1..] == Reversed(tail);
    assert n[..i] == s[..i];
  }

  lemma SwappedFalls(s: seq<int>, i: int, j: int, tail: seq<int>)
    requires Pivot(s, i, j) && tail == s[j := s[i]][i + 1..]
    ensures Falling(tail)
  {
    var was := s[i + 1..];
    assert forall k :: 0 <= k < |was| ==> was[k] == s[i + 1 + k];
    assert forall k :: 0 <= k < |tail| ==> tail[k] == if i + 1 + k == j then s[i] else was[k];
    forall k, l | 0 <= k < l < |tail| ensures tail[k] >= tail[l] {
      assert was[k] >= was[l];
    }
  }

  lemma FallingReversed(s: seq<int>)
    requires Falling(s)
    ensures Rising(Reversed(s))
  {
  }

  /** Nothing with the same elements lies strictly between an arrangement and its Next. */
  ghost predicate Successor(s: seq<int>, n: seq<int>) {
    && Less(s, n)
    && multiset(s) == multiset(n)
    && forall t :: multiset(t) == multiset(s) ==> !(Less(s, t) && Less(t, n))
  }

  lemma NoneBetween(s: seq<int>, i: int, j: int, t: seq<int>)
    requires Pivot(s, i, j) && multiset(t) == multiset(s) && Less(s, t)
    ensures !Less(t, Next(s, i, j))
  {
    var n := Next(s, i, j);
    NextShape(s, i, j);
    if Less(t, n) {
      var a: nat :| LessAt(s, t, a);
      var b: nat :| LessAt(t, n, b);
      Squeezed(s, t, n, i, a, b);
      if t[i] == s[i] {
        PastPrefix(s, t, i, a);
        SameRest(s, t, i + 1);
        FallingIsLast(s[i + 1..], t[i + 1..]);
      } else {
        NoMiddle(s, i, j, t);
        PastPrefix(t, n, i, b);
        SameRest(n, t, i + 1);
        RisingIsFirst(n[i + 1..], t[i + 1..]);
      }
    }
  }

  /** No element of the tail lies strictly between the pivot and its replacement. */
  lemma NoMiddle(s: seq<int>, i: int, j: int, t: seq<int>)
    requires Pivot(s, i, j) && multiset(t) == multiset(s) && |t| == |s| && t[..i] == s[..i] && s[i] < t[i]
    ensures s[j] <= t[i]
  {
    var p := OccursLater(s, t, i);
    var tail := s[i + 1..];
    assert p > i && p <= j;
    assert tail[p - i - 1] == s[p] && tail[j - i - 1] == s[j];
  }

  /** Between s and n, which agree up to i, everything agrees up to i and lies between them at i. */
  lemma Squeezed(s: seq<int>, t: seq<int>, n: seq<int>, i: nat, a: nat, b: nat)
    requires |s| == |t| == |n| && i < |s| && s[..i] == n[..i] && s[i] < n[i]
    requires LessAt(s, t, a) && LessAt(t, n, b)
    ensures a >= i && b >= i && t[..i] == s[..i] && s[i] <= t[i] <= n[i]
    ensures t[i] == s[i] ==> a > i
    ensures t[i] == n[i] ==> b > i
  {
    PrefixAt(s, n, i);
    PrefixAt(s, t, a);
    PrefixAt(t, n, b);
    assert a >= i && b >= i;
  }

  lemma PrefixAt(s: seq<int>, t: seq<int>, k: nat)
    requires k <= |s| && k <= |t| && s[..k] == t[..k]
    ensures forall q :: 0 <= q < k ==> s[q] == t[q]
  {
    forall q | 0 <= q < k ensures s[q] == t[q] {
      assert s[..k][q] == t[..k][q];
    }
  }

  /** A difference after position i is a difference of the tails. */
  lemma PastPrefix(s: seq<int>, t: seq<int>, i: nat, k: nat)
    requires LessAt(s, t, k) && i < k && |s| == |t|
    ensures s[..i + 1] == t[..i + 1] && Less(s[i + 1..], t[i + 1..])
  {
    assert s[..i + 1] == s[..k][..i + 1] == t[..k][..i + 1] == t[..i + 1];
    var k' := k - i - 1;
    assert s[i + 1..][..k'] == s[..k][i + 1..] == t[..k][i + 1..] == t[i + 1..][..k'];
    assert LessAt(s[i + 1..], t[i + 1..], k');
  }

  lemma NextIsSuccessor(s: seq<int>, i: int, j: int)
    requires Pivot(s, i, j)
    ensures Successor(s, Next(s, i, j))
  {
    var n := Next(s, i, j);
    NextShape(s, i, j);
    assert LessAt(s, n, i);
    forall t | multiset(t) == multiset(s) ensures !(Less(s, t) && Less(t, n)) {
      if Less(s, t) {
        NoneBetween(s, i, j, t);
      }
    }
  }

  // ---------------------------------------------------------------- the whole enumeration

  /** Each element is the immediate successor of the one before. */
  ghost predicate Chain(out: seq<seq<int>>) {
    forall k :: 0 <= k < |out| - 1 ==> Successor(out[k], out[k + 1])
  }

  /** All arrangements of m, each once, in strictly increasing lexicographic order. */
  ghost predicate Enumerates(out: seq<seq<int>>, m: multiset<int>) {
    && (forall k, l :: 0 <= k < l < |out| ==> Less(out[k], out[l]))
    && (forall t :: t in out <==> multiset(t) == m)
  }

  lemma {:induction false} ChainSorted(out: seq<seq<int>>, k: nat, l: nat)
    requires Chain(out) && k < l < |out|
    ensures Less(out[k], out[l])
    decreases l
  {
    assert Successor(out[l - 1], out[l]);
    if k < l - 1 {
      ChainSorted(out, k, l - 1);
      LessTrans(out[k], out[l - 1], out[l]);
    }
  }

  lemma {:induction false} ChainReaches(out: seq<seq<int>>, t: seq<int>, k: nat)
    requires Chain(out) && k < |out| && (forall o :: o in out ==> multiset(o) == multiset(t))
    requires !Less(t, out[0])
    ensures t in out || Less(out[k], t)
  {
    assert out[k] in out;
    SameLength(out[k], t);
    if t != out[k] {
      LessTotal(out[k], t);
      if k > 0 {
        ChainReaches(out, t, k - 1);
        assert Successor(out[k - 1], out[k]);
      }
    }
  }

  lemma ChainEnumerates(out: seq<seq<int>>, m: multiset<int>)
    requires out != [] && Chain(out) && (forall o :: o in out ==> multiset(o) == m)
    requires Rising(out[0]) && Falling(out[|out| - 1])
    ensures Enumerates(out, m)
  {
    forall k, l | 0 <= k < l < |out| ensures Less(out[k], out[l]) {
      ChainSorted(out, k, l);
    }
    assert out[0] in out && out[|out| - 1] in out;
    forall t | multiset(t) == m ensures t in out {
      RisingIsFirst(out[0], t);
      ChainReaches(out, t, |out| - 1);
      FallingIsLast(out[|out| - 1], t);
    }
  }

  /** Insertion into a rising sequence, for the built-in sort. */
  function Insert(x: int, s: seq<int>): (r: seq<int>) {
    if s == [] || x <= s[0] then [x] + s else [s[0]] + Insert(x, s[1..])
  }

  function Sorted(s: seq<int>): (r: seq<int>) {
    if s == [] then [] else Insert(s[0], Sorted(s[1..]))
  }

  lemma {:induction false} InsertMultiset(x: int, s: seq<int>)
    ensures multiset(Insert(x, s)) == multiset(s) + multiset{x}
  {
    if s != [] {
      assert s == [s[0]] + s[1..];
      InsertMultiset(x, s[1..]);
    }
  }

  lemma {:induction false} InsertRising(x: int, s: seq<int>)
    requires Rising(s)
    ensures Rising(Insert(x, s))
  {
    if s != [] && x > s[0] {
      var r := Insert(x, s[1..]);
      InsertRising(x, s[1..]);
      InsertMultiset(x, s[1..]);
      forall k | 0 <= k < |r| ensures s[0] <= r[k] {
        assert r[k] in multiset(r);
        assert r[k] == x || r[k] in multiset(s[1..]);
      }
      assert Insert(x, s) == [s[0]] + r;
    }
  }

  lemma {:induction false} SortedCorrect(s: seq<int>)
    ensures Rising(Sorted(s)) && multiset(Sorted(s)) == multiset(s)
  {
    if s != [] {
      assert s == [s[0]] + s[1..];
      SortedCorrect(s[1..]);
      InsertRising(s[0], Sorted(s[1..]));
      InsertMultiset(s[0], Sorted(s[1..]));
    }
  }

  /** The two searches of the loop: i < 0 when the whole arrangement falls. */
  method FindPivot(current: array<int>) returns (i: int, j: int)
    ensures i < 0 ==> Falling(current[..])
    ensures i >= 0 ==> Pivot(current[..], i, j)
  {
    var n := current.Length;
    i, j := n - 2, n - 1;
    while i >= 0 && current[i] >= current[i + 1]
      invariant i <= n - 2 && (n > 0 ==> -1 <= i)
      invariant 0 <= i + 1 ==> Falling(current[i + 1..])
    {
      FallingGrows(current[..], i);
      i := i - 1;
    }
    if i < 0 {
      assert n > 0 ==> i + 1 == 0 && current[0..] == current[..];
      return;
    }
    assert current[i + 1] > current[i];
    while current[j] <= current[i]
      invariant i < j < n && forall k :: j < k < n ==> current[k] <= current[i]
      decreases j
    {
      j := j - 1;
    }
    assert current[..][i + 1..] == current[i + 1..];
  }

  /** One pass of the loop; false when the arrangement is the last one. */
  method NextPermutation(current: array<int>) returns (more: bool)
    modifies current
    ensures more ==> Successor(old(current[..]), current[..])
    ensures !more ==> current[..] == old(current[..]) && Falling(current[..])
  {
    var i, j := FindPivot(current);
    if i < 0 {
      return false;
    }
    ghost var before := current[..];
    NextIsSuccessor(before, i, j);
    current[i], current[j] := current[j], current[i];
    assert current[..] == before[i := before[j]][j := before[i]];
    ReverseTail(current, i + 1);
    assert current[..] == Next(before, i, j);
    return true;
  }

  method UniquePermutations(elements: seq<int>) returns (out: seq<seq<int>>)
    ensures Enumerates(out, multiset(elements))
    ensures Chain(out) && out != []
  {
    hide Falling, Rising, Less, ArrangementsOf, Sorted;
    var sorted := Sorted(elements);
    SortedCorrect(elements);
    var n := |sorted|;
    var current := new int[n](i requires 0 <= i < n => sorted[i]);
    out := [current[..]];
    assert current[..] == sorted;
    ghost var m := multiset(elements);
    ghost var todo := ArrangementsOf(m) - {current[..]};
    AllToDo(m);
    while true
      invariant out != [] && out[|out| - 1] == current[..] && out[0] == sorted
      invariant Chain(out) && forall o :: o in out ==> multiset(o) == m
      invariant forall t :: multiset(t) == m && t !in out ==> t in todo
      decreases todo
    {
      var more := NextPermutation(current);
      if !more {
        break;
      }
      NotYet(out, current[..]);
      assert out[|out| - 1] in out;
      assert current[..] in todo;
      todo := todo - {current[..]};
      out := out + [current[..]];
    }
    ChainEnumerates(out, m);
  }

  lemma AllToDo(m: multiset<int>)
    ensures forall t :: multiset(t) == m ==> t in ArrangementsOf(m)
  {
    forall t | multiset(t) == m ensures t in ArrangementsOf(m) {
      ArrangementIff(m, t);
    }
  }

  lemma FallingGrows(s: seq<int>, i: int)
    requires 0 <= i < |s| - 1 && Falling(s[i + 1..]) && s[i] >= s[i + 1]
    ensures Falling(s[i..])
  {
    assert s[i..] == [s[i]] + s[i + 1..];
    assert s[i + 1..][0] == s[i + 1];
  }

  /** A successor of the last element is new. */
  lemma NotYet(out: seq<seq<int>>, t: seq<int>)
    requires out != [] && Chain(out) && Successor(out[|out| - 1], t)
    ensures t !in out && Chain(out + [t])
  {
    var last := out[|out| - 1];
    forall k | 0 <= k < |out| ensures out[k] != t {
      if k < |out| - 1 {
        ChainSorted(out, k, |out| - 1);
        LessTrans(out[k], last, t);
      }
      LessIrreflexive(t);
    }
  }

  /** current[from:] = reversed(current[from:]). */
  method ReverseTail(a: array<int>, from: nat)
    requires from <= a.Length
    modifies a
    ensures a[..] == old(a[..from]) + Reversed(old(a[from..]))
  {
    var r := Reversed(a[from..]);
    forall i | from <= i < a.Length {
      a[i] := r[i - from];
    }
  }
}
