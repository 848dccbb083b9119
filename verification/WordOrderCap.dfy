/**
 How far recover_word_order can go over its cap of 100 candidates, and when it cannot.

 The cap is tested only after a whole task, so what counts is how many phrases a task has.
 */
module WordOrderCap {
  import opened Arrangements
  import opened Itertools
  import opened Trials
  import opened WordOrder
  import opened WordOrderSearch
  import opened Bits
  import Bip39

  // ---------------------------------------------------------------- sizes of tasks

  /** How many phrases the tasks of the first k words have. */
  function Size(pool: seq<int>, firsts: seq<int>, k: nat): nat
    requires k <= |firsts|
  {
    SizesAfter(multiset(pool), firsts[..k])
  }

  /** How many phrases task k has. */
  function TaskSize(pool: seq<int>, firsts: seq<int>, k: nat): nat
    requires k < |firsts|
  {
    |ArrangementsAfter(multiset(pool), firsts[k])|
  }

  ghost predicate Tasks(pool: seq<int>, firsts: seq<int>) {
    Distinct(firsts) && forall x :: x in firsts <==> x in pool
  }

  lemma {:induction false} SizesSnoc(m: multiset<int>, keys: seq<int>, x: int)
    ensures SizesAfter(m, keys + [x]) == SizesAfter(m, keys) + |ArrangementsAfter(m, x)|
  {
    hide ArrangementsAfter;
    if keys == [] {
      assert keys + [x] == [x];
      assert SizesAfter(m, [x][1..]) == 0;
    } else {
      SizesSnoc(m, keys[1..], x);
      assert (keys + [x])[1..] == keys[1..] + [x];
    }
  }

  lemma SizeNext(pool: seq<int>, firsts: seq<int>, k: nat)
    requires k < |firsts|
    ensures Size(pool, firsts, k + 1) == Size(pool, firsts, k) + TaskSize(pool, firsts, k)
  {
    hide SizesAfter, ArrangementsAfter;
    SizesSnoc(multiset(pool), firsts[..k], firsts[k]);
    assert firsts[..k + 1] == firsts[..k] + [firsts[k]];
  }

  lemma {:induction false} SizeGrows(pool: seq<int>, firsts: seq<int>, j: nat, k: nat)
    requires j <= k <= |firsts|
    ensures Size(pool, firsts, j) <= Size(pool, firsts, k)
  {
    hide Size, TaskSize;
    if j < k {
      SizeGrows(pool, firsts, j, k - 1);
      SizeNext(pool, firsts, k - 1);
    }
  }

  lemma DistinctTake(firsts: seq<int>, k: nat)
    requires Distinct(firsts) && k <= |firsts|
    ensures Distinct(firsts[..k])
  {
  }

  lemma TriedSize(tried: seq<seq<int>>, pool: seq<int>, firsts: seq<int>, k: nat)
    requires Distinct(firsts) && k <= |firsts| && TriedFor(tried, pool, firsts[..k])
    ensures |tried| == Size(pool, firsts, k)
  {
    hide ArrangementsOf, SizesAfter;
    var m, done := multiset(pool), firsts[..k];
    forall t ensures t in tried <==> t in StartingWith(m, done) {
      ArrangementIff(m, t);
    }
    DistinctSize(tried, StartingWith(m, done));
    DistinctTake(firsts, k);
    StartingWithSize(m, done);
  }

  /** All the tasks together have as many phrases as the pool has arrangements. */
  lemma SizeAll(pool: seq<int>, firsts: seq<int>)
    requires Tasks(pool, firsts) && pool != []
    ensures Size(pool, firsts, |firsts|) == |ArrangementsOf(multiset(pool))|
  {
    hide ArrangementsOf, SizesAfter;
    var m := multiset(pool);
    forall t ensures t in ArrangementsOf(m) <==> t in StartingWith(m, firsts) {
      ArrangementIff(m, t);
      if multiset(t) == m {
        assert |multiset(t)| == |t| && |m| == |pool|;
        HeadMultiset(t);
        var z := t[0];
        assert z in m;
        assert z in pool;
        assert z in firsts;
      }
    }
    assert ArrangementsOf(m) == StartingWith(m, firsts);
    assert firsts[..|firsts|] == firsts;
    StartingWithSize(m, firsts);
  }

  // ---------------------------------------------------------------- small multisets

  lemma {:induction false} SameElements(m: multiset<int>, y: int)
    requires forall x :: x in m ==> x == y
    ensures |ArrangementsOf(m)| == 1
  {
    hide ArrangementsOf;
    CountSum(m, [y]);
    assert Multiplicities(m, [y]) == m[y] + Multiplicities(m, []) == m[y];
    ArrangementCount(m, [y]);
    var f := Factorial(|m|);
    assert CountFactorials(m, [y]) == Product(f, CountFactorials(m, [])) == Product(f, 1);
    OnlyOne(|ArrangementsOf(m)|, f);
  }

  lemma OnlyOne(n: nat, f: nat)
    requires f >= 1 && Product(n, Product(f, 1)) == f
    ensures n == 1
  {
    assert n * (f * 1) == n * f;
    assert (n - 1) * f == 0;
  }

  lemma TwoKeys(m: multiset<int>, x: int, y: int)
    requires x != y && m[x] == 1 && forall z :: z in m ==> z == x || z == y
    ensures Covers([x, y], m) && m[y] == |m| - 1 && |m| >= 1
  {
    CountSum(m, [x, y]);
    assert [x, y][1..] == [y] && [y][1..] == [];
    assert Multiplicities(m, [x, y]) == m[x] + Multiplicities(m, [y]);
    assert Multiplicities(m, [y]) == m[y] + Multiplicities(m, []);
  }

  lemma TwoFactorials(m: multiset<int>, x: int, y: int)
    requires x != y && m[x] == 1
    ensures CountFactorials(m, [x, y]) == Product(1, Product(Factorial(m[y]), 1))
  {
    hide Product;
    assert [x, y][1..] == [y] && [y][1..] == [];
    assert Factorial(1) == 1;
    assert CountFactorials(m, [y]) == Product(Factorial(m[y]), CountFactorials(m, []));
    assert CountFactorials(m, [x, y]) == Product(Factorial(m[x]), CountFactorials(m, [y]));
  }

  /** One x and otherwise y: as many arrangements as there are places for x. */
  lemma OneOther(m: multiset<int>, x: int, y: int)
    requires x != y && m[x] == 1 && forall z :: z in m ==> z == x || z == y
    ensures |ArrangementsOf(m)| == |m|
  {
    hide ArrangementsOf, CountFactorials, Product;
    TwoKeys(m, x, y);
    TwoFactorials(m, x, y);
    ArrangementCount(m, [x, y]);
    var n := |m|;
    assert Factorial(n) == n * Factorial(n - 1);
    OnePlace(|ArrangementsOf(m)|, n, Factorial(n - 1));
  }

  lemma OnePlace(a: nat, n: nat, f: nat)
    requires f >= 1 && Product(a, Product(1, Product(f, 1))) == n * f
    ensures a == n
  {
    assert a * (1 * (f * 1)) == a * f;
    assert (a - n) * f == 0;
  }

  lemma SomeArrangement(m: multiset<int>, keys: seq<int>)
    requires Covers(keys, m)
    ensures |ArrangementsOf(m)| >= 1
  {
    hide ArrangementsOf;
    ArrangementCount(m, keys);
    ProductLaws(0, 0, CountFactorials(m, keys));
  }

  lemma CoversLess(keys: seq<int>, m: multiset<int>, x: int)
    requires Covers(keys, m)
    ensures Covers(keys, m - multiset{x})
  {
  }

  /** Whatever element comes first, the rest can be arranged. */
  lemma SomeAfter(m: multiset<int>, a: int, keys: seq<int>)
    requires Covers(keys, m) && a in m
    ensures |ArrangementsAfter(m, a)| >= 1
  {
    hide ArrangementsOf, Covers;
    CoversLess(keys, m, a);
    SomeArrangement(m - multiset{a}, keys);
  }

  /** Two different elements can be put in two orders. */
  lemma TwoOrders(m: multiset<int>, a: int, b: int, keys: seq<int>)
    requires Covers(keys, m) && a in m && b in m && a != b
    ensures |ArrangementsOf(m)| >= 2
  {
    hide ArrangementsOf, ArrangementsAfter, SizesAfter, Covers;
    SomeAfter(m, a, keys);
    SomeAfter(m, b, keys);
    SizesOfTwo(m, a, b);
    StartingWithSize(m, [a, b]);
    SubsetSize(StartingWith(m, [a, b]), ArrangementsOf(m));
  }

  lemma SizesOfTwo(m: multiset<int>, a: int, b: int)
    ensures SizesAfter(m, [a, b]) == |ArrangementsAfter(m, a)| + |ArrangementsAfter(m, b)|
  {
    hide ArrangementsAfter;
    assert [a, b][1..] == [b] && SizesAfter(m, [b][1..]) == 0;
  }

  lemma {:induction false} SubsetSize<T>(a: set<T>, b: set<T>)
    requires a <= b
    ensures |a| <= |b|
  {
    assert b == a + (b - a);
  }

  // ---------------------------------------------------------------- the cap

  /** 100 copies of one word and one other word, tried in that order. */
  predicate HundredAndOne(pool: seq<int>, firsts: seq<int>) {
    |pool| == 101 && |firsts| == 2 && multiset(pool)[firsts[1]] == 1
  }

  lemma {:induction false} CollectedSize(template: Phrase, positions: seq<nat>, fillings: seq<seq<int>>,
                                        valid: Phrase -> bool, accept: Phrase -> bool)
    requires Slots(template, positions) && Fillings(fillings, |positions|)
    ensures |Collected(template, positions, fillings, valid, accept)| <= |fillings|
    ensures AllPass(template, positions, fillings, valid, accept)
            ==> |Collected(template, positions, fillings, valid, accept)| == |fillings|
    decreases fillings
  {
    hide Patch;
    if fillings != [] {
      var init, last := fillings[..|fillings| - 1], fillings[|fillings| - 1];
      assert last in fillings && forall f :: f in init ==> f in fillings;
      CollectedSize(template, positions, init, valid, accept);
    }
  }

  /** The phrases of the fillings pass both tests. */
  ghost predicate AllPass(template: Phrase, positions: seq<nat>, fillings: seq<seq<int>>,
                          valid: Phrase -> bool, accept: Phrase -> bool)
    requires InRange(positions, |template|) && Fillings(fillings, |positions|)
  {
    forall f :: f in fillings ==> valid(Patch(template, positions, f)) && accept(Patch(template, positions, f))
  }

  /** The task that ends the loop brings at most its own phrases on top of 99. */
  lemma CapBound(template: Phrase, positions: seq<nat>, pool: seq<int>, firsts: seq<int>,
                 valid: Phrase -> bool, accept: Phrase -> bool,
                 k: nat, before: seq<seq<int>>, tried: seq<seq<int>>, candidates: seq<Phrase>)
    requires Tasks(pool, firsts)
    requires Ended(template, positions, pool, firsts, valid, accept, k, before, tried, candidates)
    ensures |candidates| <= Size(pool, firsts, k)
    ensures k > 0 ==> |candidates| <= 99 + TaskSize(pool, firsts, k - 1)
  {
    hide Collected, Size, TaskSize, TriedFor;
    CollectedSize(template, positions, tried, valid, accept);
    TriedSize(tried, pool, firsts, k);
    if k > 0 {
      var last := tried[|before|..];
      assert tried == before + last;
      assert forall f :: f in last ==> f in tried;
      TriedSize(before, pool, firsts, k - 1);
      SizeNext(pool, firsts, k - 1);
      CollectedConcat(template, positions, before, last, valid, accept);
      CollectedSize(template, positions, last, valid, accept);
    }
  }

  lemma HundredAndOneSizes(pool: seq<int>, firsts: seq<int>)
    requires Tasks(pool, firsts) && HundredAndOne(pool, firsts)
    ensures TaskSize(pool, firsts, 0) == 100 && TaskSize(pool, firsts, 1) == 1
  {
    hide ArrangementsOf;
    var m, y, x := multiset(pool), firsts[0], firsts[1];
    assert x != y && x in firsts && y in firsts;
    forall z | z in m ensures z == x || z == y {
      assert z in pool;
      assert z in firsts;
    }
    assert x in m && y in m && |m| == 101;
    OneOther(m - multiset{y}, x, y);
    SameElements(m - multiset{x}, y);
  }

  /** With at most 100 phrases, or in the one case of 101, the cap is kept whatever the tests are. */
  lemma CapKept(template: Phrase, positions: seq<nat>, pool: seq<int>, firsts: seq<int>,
                valid: Phrase -> bool, accept: Phrase -> bool,
                k: nat, before: seq<seq<int>>, tried: seq<seq<int>>, candidates: seq<Phrase>)
    requires Tasks(pool, firsts) && pool != []
    requires |ArrangementsOf(multiset(pool))| <= MAX_RETURNED || HundredAndOne(pool, firsts)
    requires Ended(template, positions, pool, firsts, valid, accept, k, before, tried, candidates)
    ensures |candidates| <= MAX_RETURNED
  {
    hide Ended, Size, TaskSize, ArrangementsOf;
    CapBound(template, positions, pool, firsts, valid, accept, k, before, tried, candidates);
    EndedWithin(template, positions, pool, firsts, valid, accept, k, before, tried, candidates);
    SizeAll(pool, firsts);
    SizeGrows(pool, firsts, k, |firsts|);
    if HundredAndOne(pool, firsts) {
      HundredAndOneSizes(pool, firsts);
      SizeNext(pool, firsts, 0);
      NoSize(pool, firsts);
    }
  }

  lemma NoSize(pool: seq<int>, firsts: seq<int>)
    ensures Size(pool, firsts, 0) == 0
  {
  }

  lemma EndedWithin(template: Phrase, positions: seq<nat>, pool: seq<int>, firsts: seq<int>,
                    valid: Phrase -> bool, accept: Phrase -> bool,
                    k: nat, before: seq<seq<int>>, tried: seq<seq<int>>, candidates: seq<Phrase>)
    requires Ended(template, positions, pool, firsts, valid, accept, k, before, tried, candidates)
    ensures k <= |firsts| && (k < |firsts| ==> |candidates| >= MAX_RETURNED)
  {
  }

  // ---------------------------------------------------------------- tests that break the cap

  /** The first number of tasks with more than 100 phrases. */
  lemma FirstOver(pool: seq<int>, firsts: seq<int>) returns (k: nat)
    requires Tasks(pool, firsts) && pool != [] && |ArrangementsOf(multiset(pool))| > MAX_RETURNED
    ensures 0 < k <= |firsts| && Size(pool, firsts, k) > MAX_RETURNED >= Size(pool, firsts, k - 1)
  {
    hide Size, ArrangementsOf;
    SizeAll(pool, firsts);
    NoSize(pool, firsts);
    k := |firsts|;
    while Size(pool, firsts, k - 1) > MAX_RETURNED
      invariant 0 < k <= |firsts| && Size(pool, firsts, k) > MAX_RETURNED
      decreases k
    {
      k := k - 1;
    }
  }

  /** After exactly 100 phrases the next task has at least two more, but for the one case of 101. */
  lemma NextTaskLarge(pool: seq<int>, firsts: seq<int>, k: nat)
    requires Tasks(pool, firsts) && 0 < k <= |firsts| && Size(pool, firsts, k - 1) == MAX_RETURNED
    ensures k >= 2 && (TaskSize(pool, firsts, k - 1) >= 2 || HundredAndOne(pool, firsts))
  {
    hide ArrangementsOf, Size;
    NoSize(pool, firsts);
    var m, y, x := multiset(pool), firsts[0], firsts[k - 1];
    assert firsts[0] != firsts[k - 1];
    assert x in firsts && y in firsts;
    assert x in pool && y in pool;
    assert Covers(firsts, m) by {
      assert forall z :: z in m ==> z in pool;
    }
    CoversLess(firsts, m, x);
    if z :| z in m - multiset{x} && z != y {
      TwoOrders(m - multiset{x}, y, z, firsts);
    } else {
      assert x !in m - multiset{x};
      forall z | z in m ensures z == x || z == y {
        assert z != x ==> z in m - multiset{x};
      }
      SecondIsLast(pool, firsts, k, x, y);
      OneOther(m - multiset{y}, x, y);
      SizeNext(pool, firsts, 0);
      assert |m| == |pool|;
    }
  }

  lemma SecondIsLast(pool: seq<int>, firsts: seq<int>, k: nat, x: int, y: int)
    requires Tasks(pool, firsts) && 2 <= k <= |firsts| && x == firsts[k - 1] && y == firsts[0]
    requires forall z :: z in multiset(pool) ==> z == x || z == y
    ensures |firsts| == 2 && k == 2
  {
    var all := set z | z in firsts;
    forall z | z in all ensures z in {x, y} {
      assert z in pool;
      assert z in multiset(pool);
    }
    DistinctSize(firsts, all);
    SubsetSize(all, {x, y});
  }

  lemma LastFilling<T>(s: seq<T>, f0: T)
    requires s != [] && Distinct(s)
    ensures Distinct(s[..|s| - 1])
    ensures f0 in s[..|s| - 1] <==> f0 in s && f0 != s[|s| - 1]
  {
    var init, last := s[..|s| - 1], s[|s| - 1];
    assert s == init + [last];
  }

  lemma SamePhrase(template: Phrase, positions: seq<nat>, f: seq<int>, f0: seq<int>)
    requires Slots(template, positions) && |f| == |f0| == |positions|
    ensures Patch(template, positions, f) == Patch(template, positions, f0) <==> f == f0
  {
    hide Patch;
    if Patch(template, positions, f) == Patch(template, positions, f0) {
      PatchInjective(template, positions, f, f0);
    }
  }

  /** Everything passes but one phrase. */
  lemma {:induction false} AllButOne(template: Phrase, positions: seq<nat>, fillings: seq<seq<int>>, f0: seq<int>,
                                    valid: Phrase -> bool, accept: Phrase -> bool)
    requires Slots(template, positions) && Fillings(fillings, |positions|) && |f0| == |positions| && Distinct(fillings)
    requires forall c :: valid(c) && accept(c) <==> c != Patch(template, positions, f0)
    ensures |Collected(template, positions, fillings, valid, accept)| == |fillings| - (if f0 in fillings then 1 else 0)
    decreases fillings
  {
    hide Patch, Distinct;
    if fillings != [] {
      var init, last := fillings[..|fillings| - 1], fillings[|fillings| - 1];
      assert last in fillings && forall f :: f in init ==> f in fillings;
      LastFilling(fillings, f0);
      AllButOne(template, positions, init, f0, valid, accept);
      SamePhrase(template, positions, last, f0);
      var c := Patch(template, positions, last);
      assert Checked(c, valid, accept) == if f0 == last then [] else [c];
    }
  }

  /** With 100 phrases or fewer before task k and more with it, tests that all phrases pass go over. */
  lemma AllPassOver(template: Phrase, positions: seq<nat>, pool: seq<int>, firsts: seq<int>,
                    valid: Phrase -> bool, accept: Phrase -> bool, over: nat,
                    k: nat, before: seq<seq<int>>, tried: seq<seq<int>>, candidates: seq<Phrase>)
    requires Tasks(pool, firsts) && (forall c :: valid(c) && accept(c))
    requires 0 < over <= |firsts| && Size(pool, firsts, over) > MAX_RETURNED > Size(pool, firsts, over - 1)
    requires Ended(template, positions, pool, firsts, valid, accept, k, before, tried, candidates)
    ensures |candidates| > MAX_RETURNED
  {
    hide Collected, Size, TriedFor;
    CollectedSize(template, positions, tried, valid, accept);
    TriedSize(tried, pool, firsts, k);
    if k < over {
      SizeGrows(pool, firsts, k, over - 1);
    } else {
      SizeGrows(pool, firsts, over, k);
    }
  }

  lemma AllButOneOver(template: Phrase, positions: seq<nat>, pool: seq<int>, firsts: seq<int>, f0: seq<int>,
                      valid: Phrase -> bool, accept: Phrase -> bool, over: nat,
                      k: nat, before: seq<seq<int>>, tried: seq<seq<int>>, candidates: seq<Phrase>)
    requires Tasks(pool, firsts) && |f0| == |positions| && Slots(template, positions)
    requires 2 <= over <= |firsts| && multiset(f0) == multiset(pool) && f0 != [] && f0[0] in firsts[..1]
    requires forall c :: valid(c) && accept(c) <==> c != Patch(template, positions, f0)
    requires Size(pool, firsts, over - 1) == MAX_RETURNED && TaskSize(pool, firsts, over - 1) >= 2
    requires Ended(template, positions, pool, firsts, valid, accept, k, before, tried, candidates)
    ensures |candidates| > MAX_RETURNED
  {
    hide Collected, Size, TaskSize, Patch;
    TriedSize(tried, pool, firsts, k);
    TriedDistinct(tried, pool, firsts[..k]);
    AllButOne(template, positions, tried, f0, valid, accept);
    SizeNext(pool, firsts, over - 1);
    NoSize(pool, firsts);
    if k > 0 {
      assert firsts[..k][0] == firsts[..1][0];
      assert f0 in tried;
    }
    if k < over {
      SizeGrows(pool, firsts, k, over - 1);
    } else {
      SizeGrows(pool, firsts, over, k);
    }
  }

  /**
   Otherwise there are tests with which every run returns more than 100 candidates: tests that
   all phrases pass, or all but one.
   */
  lemma CapBroken(template: Phrase, positions: seq<nat>, pool: seq<int>, firsts: seq<int>)
      returns (valid: Phrase -> bool, accept: Phrase -> bool)
    requires Slots(template, positions) && |positions| == |pool| && Tasks(pool, firsts) && pool != []
    requires |ArrangementsOf(multiset(pool))| > MAX_RETURNED && !HundredAndOne(pool, firsts)
    ensures forall k: nat, before, tried, candidates ::
              Ended(template, positions, pool, firsts, valid, accept, k, before, tried, candidates)
              ==> |candidates| > MAX_RETURNED
  {
    hide Ended, Size, TaskSize, ArrangementsOf, HundredAndOne;
    var over := FirstOver(pool, firsts);
    accept := (c: Phrase) => true;
    if Size(pool, firsts, over - 1) < MAX_RETURNED {
      valid := (c: Phrase) => true;
      forall k: nat, before, tried, candidates |
          Ended(template, positions, pool, firsts, valid, accept, k, before, tried, candidates)
        ensures |candidates| > MAX_RETURNED
      {
        AllPassOver(template, positions, pool, firsts, valid, accept, over, k, before, tried, candidates);
      }
    } else {
      NextTaskLarge(pool, firsts, over);
      var f0 := FirstFilling(pool, firsts);
      valid := (c: Phrase) => c != Patch(template, positions, f0);
      forall k: nat, before, tried, candidates |
          Ended(template, positions, pool, firsts, valid, accept, k, before, tried, candidates)
        ensures |candidates| > MAX_RETURNED
      {
        AllButOneOver(template, positions, pool, firsts, f0, valid, accept, over, k, before, tried, candidates);
      }
    }
  }

  /** Some arrangement begins with the first task's word. */
  lemma FirstFilling(pool: seq<int>, firsts: seq<int>) returns (f: seq<int>)
    requires Tasks(pool, firsts) && firsts != []
    ensures multiset(f) == multiset(pool) && |f| == |pool| && f != [] && f[0] in firsts[..1]
  {
    var x := firsts[0];
    assert x in firsts;
    f := [x] + Removed(pool, x);
    assert multiset(f) == multiset{x} + (multiset(pool) - multiset{x}) == multiset(pool);
    assert firsts[..1] == [x];
  }

  // ---------------------------------------------------------------- an example

  lemma {:induction false} DistinctFactorials(m: multiset<int>, keys: seq<int>)
    requires forall x :: x in m ==> m[x] == 1
    ensures CountFactorials(m, keys) == 1
  {
    if keys != [] {
      DistinctFactorials(m, keys[1..]);
      assert Factorial(1) == 1 && Factorial(0) == 1;
      ProductLaws(1, 0, 1);
    }
  }

  /** Pools of six different words have 120 phrases in each task. */
  lemma SixWords(pool: seq<int>, firsts: seq<int>, k: nat)
    requires Tasks(pool, firsts) && Distinct(pool) && |pool| == 6 && k < |firsts|
    ensures TaskSize(pool, firsts, k) == 120
  {
    hide ArrangementsOf;
    var m, x := multiset(pool), firsts[k];
    assert x in firsts;
    assert x in pool;
    DistinctOnce(pool);
    var rest := m - multiset{x};
    assert Covers(pool, rest);
    ArrangementCount(rest, pool);
    DistinctFactorials(rest, pool);
    ProductLaws(|ArrangementsOf(rest)|, 1, 1);
    assert |rest| == 5 && Factorial(5) == 120;
  }

  lemma {:induction false} DistinctOnce(s: seq<int>)
    requires Distinct(s)
    ensures forall x :: x in multiset(s) ==> multiset(s)[x] == 1
  {
    if s != [] {
      assert s == [s[0]] + s[1..];
      DistinctOnce(s[1..]);
      assert s[0] !in s[1..];
    }
  }

  /** Every order of the pool passes both tests. */
  ghost predicate OrdersPass(template: Phrase, positions: seq<nat>, pool: seq<int>,
                             valid: Phrase -> bool, accept: Phrase -> bool)
    requires Slots(template, positions) && |positions| == |pool|
  {
    forall f: seq<int> :: multiset(f) == multiset(pool) && |f| == |positions| ==>
      valid(Patch(template, positions, f)) && accept(Patch(template, positions, f))
  }

  /** Six different words of which every order passes: 120 candidates, whatever the order of the tasks. */
  lemma SixWordsOver(template: Phrase, positions: seq<nat>, pool: seq<int>, firsts: seq<int>,
                     valid: Phrase -> bool, accept: Phrase -> bool,
                     k: nat, before: seq<seq<int>>, tried: seq<seq<int>>, candidates: seq<Phrase>)
    requires Tasks(pool, firsts) && Distinct(pool) && |pool| == 6
    requires Ended(template, positions, pool, firsts, valid, accept, k, before, tried, candidates)
    requires OrdersPass(template, positions, pool, valid, accept)
    ensures |candidates| == 120
  {
    hide Collected, Size, TaskSize, TriedFor, Patch;
    var x := pool[0];
    assert x in pool;
    assert x in firsts;
    TriedDistinct(tried, pool, firsts[..k]);
    CollectedSize(template, positions, tried, valid, accept);
    TriedSize(tried, pool, firsts, k);
    NoSize(pool, firsts);
    SixWords(pool, firsts, 0);
    SizeNext(pool, firsts, 0);
    if k > 0 {
      TriedDistinct(before, pool, firsts[..k - 1]);
      CollectedSize(template, positions, before, valid, accept);
      TriedSize(before, pool, firsts, k - 1);
      if k > 1 {
        SizeGrows(pool, firsts, 1, k - 1);
      }
    }
  }

  /** Ranks as the checksum test takes them; the mark of an unknown word counts as rank 0. */
  function Ranks(c: Phrase): (r: seq<nat>)
    ensures |r| == |c|
  {
    seq(|c|, i requires 0 <= i < |c| => if c[i] >= 0 then c[i] else 0)
  }

  /** The BIP-39 checksum test of twelve words. */
  function Checksum12(sha: Bip39.Hash): Phrase -> bool {
    (c: Phrase) => |c| == 12 && Bip39.Valid(sha, Ranks(c), 12)
  }

  /** With a constant hash only the last word decides. */
  lemma LastWordDecides(first: bv8, c: Phrase)
    requires |c| == 12 && 0 <= c[11] < 2048
    ensures Checksum12(_ => first)(c) <==> c[11] % 16 == IntOfByte(first) / 16
  {
    hide Bip39.Valid, IntOfByte, Horner;
    var r := Ranks(c);
    assert r == r[..11] + [c[11]];
    assert Pow2(4) == 16;
    Bip39.PassesIff(_ => first, r[..11], 12, c[11]);
  }

  /** Six unknown words in front, a last word that suits the hash: every order passes the checksum. */
  lemma OrdersPassChecksum(first: bv8, template: Phrase, positions: seq<nat>, pool: seq<int>)
    requires |template| == 12 && 0 <= template[11] < 2048 && template[11] % 16 == IntOfByte(first) / 16
    requires Slots(template, positions) && |positions| == |pool| && 11 !in positions
    ensures OrdersPass(template, positions, pool, Checksum12(_ => first), _ => true)
  {
    hide Patch, Checksum12, IntOfByte;
    forall f: seq<int> | multiset(f) == multiset(pool) && |f| == |positions|
      ensures Checksum12(_ => first)(Patch(template, positions, f))
    {
      PatchAt(template, positions, f);
      LastWordDecides(first, Patch(template, positions, f));
    }
  }

  /** So a search of twelve words with the BIP-39 checksum, six of them in unknown order, can return 120. */
  lemma ChecksumOver(first: bv8, template: Phrase, positions: seq<nat>, pool: seq<int>, firsts: seq<int>,
                     k: nat, before: seq<seq<int>>, tried: seq<seq<int>>, candidates: seq<Phrase>)
    requires |template| == 12 && 0 <= template[11] < 2048 && template[11] % 16 == IntOfByte(first) / 16
    requires Tasks(pool, firsts) && Distinct(pool) && |pool| == 6 && 11 !in positions
    requires Ended(template, positions, pool, firsts, Checksum12(_ => first), _ => true, k, before, tried, candidates)
    ensures |candidates| == 120
  {
    hide Ended, Checksum12, IntOfByte, OrdersPass;
    EndedSlots(template, positions, pool, firsts, Checksum12(_ => first), _ => true, k, before, tried, candidates);
    OrdersPassChecksum(first, template, positions, pool);
    SixWordsOver(template, positions, pool, firsts, Checksum12(_ => first), _ => true, k, before, tried, candidates);
  }

  lemma EndedSlots(template: Phrase, positions: seq<nat>, pool: seq<int>, firsts: seq<int>,
                   valid: Phrase -> bool, accept: Phrase -> bool,
                   k: nat, before: seq<seq<int>>, tried: seq<seq<int>>, candidates: seq<Phrase>)
    requires Ended(template, positions, pool, firsts, valid, accept, k, before, tried, candidates)
    ensures Slots(template, positions) && |positions| == |pool|
  {
  }
}
