/** All arrangements of a multiset, how many there are, and their lexicographic order. */
module Arrangements {

  /** Every sequence with exactly the elements of m. */
  function ArrangementsOf(m: multiset<int>): set<seq<int>>
    decreases |m|
  {
    if |m| == 0 then {[]}
    else set x, rest | x in m && rest in ArrangementsOf(m - multiset{x}) :: [x] + rest
  }

  lemma MultisetTail(s: seq<int>)
    requires s != []
    ensures s[0] in multiset(s) && multiset(s[1..]) == multiset(s) - multiset{s[0]}
    ensures multiset(s) == multiset{s[0]} + multiset(s[1..])
  {
    assert s == [s[0]] + s[1..];
  }

  lemma ArrangementCons(m: multiset<int>, s: seq<int>)
    requires |m| > 0
    ensures s in ArrangementsOf(m) <==> s != [] && s[0] in m && s[1..] in ArrangementsOf(m - multiset{s[0]})
  {
    var all := set x, rest | x in m && rest in ArrangementsOf(m - multiset{x}) :: [x] + rest;
    assert ArrangementsOf(m) == all;
    if s in all {
      var x, rest :| x in m && rest in ArrangementsOf(m - multiset{x}) && s == [x] + rest;
      assert s[0] == x && s[1..] == rest;
    }
    if s != [] {
      var x, rest := s[0], s[1..];
      assert s == [x] + rest;
      if x in m && rest in ArrangementsOf(m - multiset{x}) {
        assert [x] + rest in all;
      }
    }
  }

  lemma {:induction false} ArrangementIff(m: multiset<int>, s: seq<int>)
    ensures s in ArrangementsOf(m) <==> multiset(s) == m
    decreases |m|
  {
    if |m| == 0 {
      assert s == [] <==> |multiset(s)| == 0;
    } else {
      hide ArrangementsOf;
      ArrangementCons(m, s);
      if s == [] {
        assert |multiset(s)| == 0;
      } else {
        var x, rest := s[0], s[1..];
        MultisetTail(s);
        if x in m {
          ArrangementIff(m - multiset{x}, rest);
          assert multiset{x} + (m - multiset{x}) == m;
        }
      }
    }
  }

  // ---------------------------------------------------------------- counting

  function Factorial(n: nat): (f: nat)
    ensures f >= 1
  {
    if n == 0 then 1 else n * Factorial(n - 1)
  }

  /** The product of the factorials of the multiplicities of the given keys. */
  function CountFactorials(m: multiset<int>, keys: seq<int>): (p: nat)
    ensures p >= 1
  {
    if keys == [] then 1 else Product(Factorial(m[keys[0]]), CountFactorials(m, keys[1..]))
  }

  /** Multiplication of positive numbers, named so that long products stay symbolic. */
  function Product(a: nat, b: nat): (p: nat)
    ensures a >= 1 && b >= 1 ==> p >= 1
  {
    a * b
  }

  predicate Distinct<T(==)>(s: seq<T>) {
    forall i, j :: 0 <= i < j < |s| ==> s[i] != s[j]
  }

  lemma DistinctConcat<T>(a: seq<T>, b: seq<T>)
    requires Distinct(a) && Distinct(b) && forall x :: x in a ==> x !in b
    ensures Distinct(a + b)
  {
    forall i, j | 0 <= i < j < |a + b| ensures (a + b)[i] != (a + b)[j] {
      if i < |a| && j >= |a| {
        assert a[i] in a && b[j - |a|] in b;
      }
    }
  }

  lemma {:induction false} DistinctSize<T>(s: seq<T>, all: set<T>)
    requires Distinct(s) && forall x :: x in s <==> x in all
    ensures |s| == |all|
  {
    if s == [] {
      assert all == {};
    } else {
      var x := s[0];
      assert x in s;
      forall y ensures y in s[1..] <==> y in all - {x} {
        assert y in s <==> y == x || y in s[1..];
      }
      DistinctSize(s[1..], all - {x});
    }
  }

  /** Distinct keys that include every element of m. */
  ghost predicate Covers(keys: seq<int>, m: multiset<int>) {
    Distinct(keys) && forall x :: x in m ==> x in keys
  }

  lemma {:induction false} CountSum(m: multiset<int>, keys: seq<int>)
    requires Covers(keys, m)
    ensures Multiplicities(m, keys) == |m|
  {
    if keys == [] {
      assert m == multiset{} by {
        forall x ensures m[x] == 0 {
          assert x !in keys;
        }
      }
    } else {
      var m' := m[keys[0] := 0];
      assert Covers(keys[1..], m') by {
        forall x | x in m' ensures x in keys[1..] {
          assert x != keys[0] && m[x] == m'[x];
        }
      }
      CountSum(m', keys[1..]);
      SameMultiplicities(m, m', keys[1..]);
    }
  }

  function Multiplicities(m: multiset<int>, keys: seq<int>): nat {
    if keys == [] then 0 else m[keys[0]] + Multiplicities(m, keys[1..])
  }

  lemma {:induction false} SameMultiplicities(m: multiset<int>, m': multiset<int>, keys: seq<int>)
    requires forall k :: k in keys ==> m[k] == m'[k]
    ensures Multiplicities(m, keys) == Multiplicities(m', keys)
    ensures CountFactorials(m, keys) == CountFactorials(m', keys)
  {
    if keys != [] {
      var k := keys[0];
      assert k in keys;
      assert m[k] == m'[k];
      assert forall k :: k in keys[1..] ==> k in keys;
      SameMultiplicities(m, m', keys[1..]);
    }
  }

  /** The arrangements of m that start with one of the keys. */
  function StartingWith(m: multiset<int>, keys: seq<int>): set<seq<int>> {
    set s | s in ArrangementsOf(m) && s != [] && s[0] in keys
  }

  function WithFirst(x: int, a: set<seq<int>>): set<seq<int>> {
    set s | s in a :: [x] + s
  }

  lemma {:induction false} WithFirstSize(x: int, a: set<seq<int>>)
    ensures |WithFirst(x, a)| == |a|
  {
    if a == {} {
      assert WithFirst(x, a) == {};
    } else {
      var s :| s in a;
      WithFirstSize(x, a - {s});
      assert WithFirst(x, a) == WithFirst(x, a - {s}) + {[x] + s};
      forall t | t in a - {s} ensures [x] + t != [x] + s {
        assert ([x] + t)[1..] == t && ([x] + s)[1..] == s;
      }
    }
  }

  function ArrangementsAfter(m: multiset<int>, x: int): set<seq<int>> {
    if x in m then ArrangementsOf(m - multiset{x}) else {}
  }

  lemma StartingWithOne(m: multiset<int>, x: int)
    ensures StartingWith(m, [x]) == WithFirst(x, ArrangementsAfter(m, x))
  {
    hide ArrangementsOf;
    forall s ensures s in StartingWith(m, [x]) <==> s in WithFirst(x, ArrangementsAfter(m, x)) {
      if |m| > 0 {
        ArrangementCons(m, s);
      } else {
        assert m == multiset{};
        ArrangementIff(m, s);
        assert s in ArrangementsOf(m) ==> s == [];
      }
      assert s in WithFirst(x, ArrangementsAfter(m, x)) <==> s != [] && s[0] == x && s[1..] in ArrangementsAfter(m, x) by {
        if s != [] && s[0] == x {
          assert s == [x] + s[1..];
        }
      }
    }
  }

  /** Sum over the keys of the number of arrangements left after taking the key first. */
  function SizesAfter(m: multiset<int>, keys: seq<int>): nat {
    if keys == [] then 0 else |ArrangementsAfter(m, keys[0])| + SizesAfter(m, keys[1..])
  }

  lemma StartingWithCons(m: multiset<int>, x: int, rest: seq<int>)
    requires x !in rest
    ensures StartingWith(m, [x] + rest) == StartingWith(m, [x]) + StartingWith(m, rest)
    ensures StartingWith(m, [x]) !! StartingWith(m, rest)
  {
    hide ArrangementsOf;
  }

  lemma {:induction false} StartingWithSize(m: multiset<int>, keys: seq<int>)
    requires Distinct(keys)
    ensures |StartingWith(m, keys)| == SizesAfter(m, keys)
  {
    if keys == [] {
      assert StartingWith(m, keys) == {};
    } else {
      hide ArrangementsAfter, WithFirst, StartingWith;
      var x, rest := keys[0], keys[1..];
      assert keys == [x] + rest && x !in rest;
      StartingWithSize(m, rest);
      StartingWithOne(m, x);
      WithFirstSize(x, ArrangementsAfter(m, x));
      StartingWithCons(m, x, rest);
    }
  }

  lemma ProductLaws(a: nat, b: nat, c: nat)
    ensures Product(a, b) == Product(b, a) && Product(Product(a, b), c) == Product(a, Product(b, c))
    ensures Product(a + b, c) == Product(a, c) + Product(b, c)
    ensures Product(0, c) == 0 && Product(1, c) == c
  {
    assert (a * b) * c == a * (b * c);
    assert (a + b) * c == a * c + b * c;
  }

  lemma {:induction false} CountFactorialsStep(m: multiset<int>, keys: seq<int>, x: int)
    requires Distinct(keys) && x in keys && x in m
    ensures CountFactorials(m, keys) == Product(m[x], CountFactorials(m - multiset{x}, keys))
  {
    var m' := m - multiset{x};
    var k, rest := keys[0], keys[1..];
    var f := CountFactorials(m', rest);
    if k == x {
      SameMultiplicities(m, m', rest);
      assert Factorial(m[x]) == Product(m[x], Factorial(m'[x]));
      ProductLaws(m[x], Factorial(m'[x]), f);
    } else {
      CountFactorialsStep(m, rest, x);
      ProductLaws(Factorial(m[k]), m[x], f);
      ProductLaws(m[x], Factorial(m[k]), f);
      ProductLaws(Factorial(m[k]), f, 1);
      assert m[k] == m'[k];
    }
  }

  lemma {:induction false} SizeTimesFactorials(m: multiset<int>, x: int, keys: seq<int>)
    requires Covers(keys, m) && |m| > 0 && x in keys
    ensures Product(|ArrangementsAfter(m, x)|, CountFactorials(m, keys)) == Product(m[x], Factorial(|m| - 1))
    decreases |m|, 0
  {
    var size, p, f := |ArrangementsAfter(m, x)|, CountFactorials(m, keys), Factorial(|m| - 1);
    if x in m {
      var m' := m - multiset{x};
      var p' := CountFactorials(m', keys);
      ArrangementCount(m', keys);
      CountFactorialsStep(m, keys, x);
      ProductLaws(size, m[x], p');
      ProductLaws(m[x], size, p');
    } else {
      ProductLaws(0, 0, p);
      ProductLaws(0, 0, f);
    }
  }

  lemma {:induction false} SizesTimesFactorials(m: multiset<int>, ks: seq<int>, keys: seq<int>)
    requires Covers(keys, m) && |m| > 0 && forall k :: k in ks ==> k in keys
    ensures Product(SizesAfter(m, ks), CountFactorials(m, keys)) == Product(Multiplicities(m, ks), Factorial(|m| - 1))
    decreases |m|, 1, ks
  {
    hide Product, Factorial, CountFactorials, ArrangementsAfter;
    var p, f := CountFactorials(m, keys), Factorial(|m| - 1);
    if ks == [] {
      ProductLaws(0, 0, p);
      ProductLaws(0, 0, f);
    } else {
      assert ks[0] in ks && forall k :: k in ks[1..] ==> k in ks;
      SizesTimesFactorials(m, ks[1..], keys);
      SizeTimesFactorials(m, ks[0], keys);
      ProductLaws(|ArrangementsAfter(m, ks[0])|, SizesAfter(m, ks[1..]), p);
      ProductLaws(m[ks[0]], Multiplicities(m, ks[1..]), f);
    }
  }

  /** The multinomial count: arrangements times count factorials is the factorial of the size. */
  lemma {:induction false} ArrangementCount(m: multiset<int>, keys: seq<int>)
    requires Covers(keys, m)
    ensures Product(|ArrangementsOf(m)|, CountFactorials(m, keys)) == Factorial(|m|)
    decreases |m|, 2
  {
    if |m| == 0 {
      assert m == multiset{};
      AllZero(keys);
      ProductLaws(1, 0, 1);
    } else {
      SizesTimesFactorials(m, keys, keys);
      StartingWithSize(m, keys);
      CountSum(m, keys);
      assert StartingWith(m, keys) == ArrangementsOf(m) by {
        forall s | s in ArrangementsOf(m) ensures s != [] && s[0] in keys {
          ArrangementIff(m, s);
          assert s[0] in multiset(s);
        }
      }
    }
  }

  lemma {:induction false} AllZero(keys: seq<int>)
    ensures CountFactorials(multiset{}, keys) == 1
  {
    if keys != [] {
      AllZero(keys[1..]);
    }
  }

  // ---------------------------------------------------------------- lexicographic order

  /** The sequences first differ at k, where a is smaller. */
  ghost predicate LessAt(a: seq<int>, b: seq<int>, k: nat) {
    k < |a| && k < |b| && a[..k] == b[..k] && a[k] < b[k]
  }

  /** Strict lexicographic order on sequences of one length. */
  ghost predicate Less(a: seq<int>, b: seq<int>) {
    |a| == |b| && exists k: nat :: LessAt(a, b, k)
  }

  lemma LessTrans(a: seq<int>, b: seq<int>, c: seq<int>)
    requires Less(a, b) && Less(b, c)
    ensures Less(a, c)
  {
    var j: nat :| LessAt(a, b, j);
    var k: nat :| LessAt(b, c, k);
    var i := if j < k then j else k;
    assert a[..i] == a[..j][..i] == b[..j][..i] == b[..i] == b[..k][..i] == c[..k][..i] == c[..i];
    if j < k {
      assert b[..k][j] == c[..k][j];
    } else if k < j {
      assert a[..j][k] == b[..j][k];
    }
    assert LessAt(a, c, i);
  }

  lemma LessIrreflexive(a: seq<int>)
    ensures !Less(a, a)
  {
  }

  lemma {:induction false} LessTotal(a: seq<int>, b: seq<int>)
    requires |a| == |b| && a != b
    ensures Less(a, b) || Less(b, a)
  {
    var k: nat := 0;
    while k < |a| && a[k] == b[k]
      invariant k <= |a| && a[..k] == b[..k]
    {
      k := k + 1;
    }
    assert a[..|a|] == a && b[..|b|] == b;
    assert LessAt(a, b, k) || LessAt(b, a, k);
  }
}
