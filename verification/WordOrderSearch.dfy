/** The search loops of recover_word_order, proved against the listings of WordOrder.dfy. */
module WordOrderSearch {
  import opened Arrangements
  import opened Itertools
  import opened Trials
  import opened WordOrder
  import UP = UniquePermutations

  type Phrase = seq<int>

  datatype Outcome =
    | Mismatch
    | TooMany(total: nat)
    | Done(candidates: seq<Phrase>, checked: nat, passed: nat, truncated: bool, searchSpace: nat)

  /** list.remove: drops the first occurrence. */
  function Removed(s: seq<int>, x: int): (r: seq<int>)
    requires x in s
    ensures multiset(r) == multiset(s) - multiset{x} && |r| == |s| - 1
  {
    assert s == [s[0]] + s[1..];
    if s[0] == x then s[1..] else [s[0]] + Removed(s[1..], x)
  }

  /** The inner patch loop of the worker. */
  method PatchInPlace(trial: array<int>, positions: seq<nat>, words: seq<int>)
    requires |positions| == |words| && InRange(positions, trial.Length)
    modifies trial
    ensures trial[..] == Patch(old(trial[..]), positions, words)
  {
    for i := 0 to |positions|
      invariant Patch(trial[..], positions[i..], words[i..]) == Patch(old(trial[..]), positions, words)
    {
      ghost var before := trial[..];
      trial[positions[i]] := words[i];
      assert trial[..] == before[positions[i] := words[i]];
      assert positions[i..][1..] == positions[i + 1..] && words[i..][1..] == words[i + 1..];
    }
  }

  /** The permutations a worker goes through: next-permutation when words repeat, itertools otherwise. */
  method WorkerPermutations(remaining: seq<int>) returns (perms: seq<seq<int>>)
    ensures Listing(perms, multiset(remaining))
  {
    if |set x | x in remaining| < |remaining| {
      perms := UP.UniquePermutations(remaining);
      EnumeratesListing(perms, multiset(remaining));
    } else {
      SetSizeDistinct(remaining);
      PermutationsListing(remaining);
      perms := Permutations(remaining);
    }
  }

  lemma {:induction false} SetSizeDistinct(s: seq<int>)
    ensures |set x | x in s| <= |s|
    ensures |set x | x in s| == |s| ==> Distinct(s)
  {
    if s != [] {
      var rest := s[1..];
      SetSizeDistinct(rest);
      assert (set x | x in s) == (set x | x in rest) + {s[0]};
      if s[0] in rest {
        assert (set x | x in s) == (set x | x in rest);
      }
    }
  }

  /** _recover_order_worker: all phrases with the given first word. */
  method OrderWorker(template: Phrase, positions: seq<nat>, first: int, remaining: seq<int>,
                     valid: Phrase -> bool, accept: Phrase -> bool)
      returns (candidates: seq<Phrase>, checked: nat, passed: nat, ghost tried: seq<seq<int>>)
    requires Slots(template, positions) && |positions| == |remaining| + 1
    ensures Listing(tried, multiset(remaining)) && checked == |tried| == |ArrangementsOf(multiset(remaining))|
    ensures Fillings(Prefixed(first, tried), |positions|)
    ensures candidates == Collected(template, positions, Prefixed(first, tried), valid, accept)
    ensures passed == CountValid(template, positions, Prefixed(first, tried), valid)
  {
    hide Patch, Totals, Listing, Permutations, Collected, CountValid, Checked, ArrangementsOf;
    var perms: seq<seq<int>>;
    if |positions| == 1 {
      perms := [[]];
      OnlyEmpty();
      assert multiset(remaining) == multiset{};
    } else {
      perms := WorkerPermutations(remaining);
    }
    tried := perms;
    ListingSize(perms, multiset(remaining));
    PrefixedFillings(first, perms, multiset(remaining), |positions|);
    candidates, checked, passed := TryAll(template, positions, first, perms, valid, accept);
    TotalsParts(template, positions, Prefixed(first, perms), valid, accept, candidates, checked, passed);
  }

  /** The loop of the worker over its permutations, on one trial phrase patched in place. */
  method TryAll(template: Phrase, positions: seq<nat>, first: int, perms: seq<seq<int>>,
                valid: Phrase -> bool, accept: Phrase -> bool)
      returns (candidates: seq<Phrase>, checked: nat, passed: nat)
    requires Slots(template, positions) && |positions| >= 1 && Fillings(Prefixed(first, perms), |positions|)
    ensures Totals(template, positions, Prefixed(first, perms), valid, accept, candidates, checked, passed)
  {
    hide Patch, Totals, Collected, CountValid, Checked;
    candidates, checked, passed := [], 0, 0;
    var posFirst, posRest := positions[0], positions[1..];
    var trial := new int[|template|](i requires 0 <= i < |template| => template[i]);
    trial[posFirst] := first;
    ghost var base := template[posFirst := first];
    assert trial[..] == base;
    ghost var fillings := Prefixed(first, perms);
    ghost var last: seq<int> := [];
    NoTotals(template, positions, valid, accept);
    assert fillings[..0] == [];
    for i := 0 to |perms|
      invariant trial[..] == base || (|last| == |posRest| && trial[..] == Patch(base, posRest, last))
      invariant Totals(template, positions, fillings[..i], valid, accept, candidates, checked, passed)
    {
      FillingOf(first, perms, i, |positions|);
      NextPhrase(template, positions, first, last, perms[i], trial[..]);
      PatchInPlace(trial, posRest, perms[i]);
      last := perms[i];
      TotalsNext(template, positions, fillings, i, valid, accept, candidates, checked, passed);
      candidates, checked, passed := CheckPhrase(trial[..], valid, accept, candidates, checked, passed);
    }
    assert fillings[..|perms|] == fillings;
  }

  /** The body of the permutation loop once the trial phrase is patched. */
  method CheckPhrase(candidate: Phrase, valid: Phrase -> bool, accept: Phrase -> bool,
                     candidates: seq<Phrase>, checked: nat, passed: nat)
      returns (candidates': seq<Phrase>, checked': nat, passed': nat)
    ensures candidates' == candidates + Checked(candidate, valid, accept)
    ensures checked' == checked + 1 && passed' == passed + (if valid(candidate) then 1 else 0)
  {
    candidates', checked', passed' := candidates, checked + 1, passed;
    if valid(candidate) {
      passed' := passed' + 1;
      if accept(candidate) {
        candidates' := candidates' + [candidate];
      }
    }
  }

  /** Patching the rest of the trial phrase completes the filling, whatever was there before. */
  lemma NextPhrase(template: Phrase, positions: seq<nat>, first: int, last: seq<int>, perm: seq<int>, trial: Phrase)
    requires Slots(template, positions) && |positions| == |perm| + 1
    requires var base := template[positions[0] := first];
      trial == base || (|last| == |perm| && trial == Patch(base, positions[1..], last))
    ensures |trial| == |template|
    ensures Patch(trial, positions[1..], perm) == Patch(template, positions, [first] + perm)
         == Patch(template[positions[0] := first], positions[1..], perm)
  {
    var base := template[positions[0] := first];
    FirstPatch(template, positions, first, perm);
    if trial != base {
      Repatch(base, positions[1..], last, perm);
    }
  }

  lemma OnlyEmpty()
    ensures Listing([[]], multiset{})
  {
    forall t: seq<int> ensures t in [[]] <==> multiset(t) == multiset{} {
      assert t == [] <==> |multiset(t)| == 0;
    }
  }

  lemma PrefixedFillings(x: int, ts: seq<seq<int>>, m: multiset<int>, n: nat)
    requires Listing(ts, m) && n == |m| + 1
    ensures Fillings(Prefixed(x, ts), n) && Fillings(ts, n - 1)
  {
    forall t | t in ts ensures |t| == n - 1 {
      assert |multiset(t)| == |t|;
    }
    forall f | f in Prefixed(x, ts) ensures |f| == n {
      PrefixedIff(x, ts, f);
    }
  }

  lemma FillingOf(x: int, ts: seq<seq<int>>, i: nat, n: nat)
    requires i < |ts| && Fillings(Prefixed(x, ts), n)
    ensures n >= 1 && |ts[i]| == n - 1 && Prefixed(x, ts)[i] == [x] + ts[i]
  {
    assert Prefixed(x, ts)[i] in Prefixed(x, ts);
  }

  lemma FirstPatch(template: Phrase, positions: seq<nat>, first: int, rest: seq<int>)
    requires Slots(template, positions) && |positions| == |rest| + 1
    ensures Patch(template, positions, [first] + rest)
         == Patch(template[positions[0] := first], positions[1..], rest)
  {
    assert ([first] + rest)[1..] == rest;
  }

  // ---------------------------------------------------------------- the task loop

  /** The fillings tried once the tasks of the first k words are done. */
  ghost predicate TriedFor(tried: seq<seq<int>>, pool: seq<int>, done: seq<int>) {
    Distinct(tried) && forall t :: t in tried <==> multiset(t) == multiset(pool) && t != [] && t[0] in done
  }

  lemma MoreTried(tried: seq<seq<int>>, pool: seq<int>, done: seq<int>, x: int, more: seq<seq<int>>)
    requires TriedFor(tried, pool, done) && x !in done && x in pool
    requires Listing(more, multiset(pool) - multiset{x})
    ensures TriedFor(tried + Prefixed(x, more), pool, done + [x])
  {
    PrefixedListing(x, more, multiset(pool));
    DistinctConcat(tried, Prefixed(x, more));
  }

  lemma AllTried(tried: seq<seq<int>>, pool: seq<int>, firsts: seq<int>)
    requires TriedFor(tried, pool, firsts) && pool != [] && forall x :: x in pool ==> x in firsts
    ensures Listing(tried, multiset(pool))
  {
    forall t | multiset(t) == multiset(pool) ensures t in tried {
      assert |multiset(t)| == |t| && |multiset(pool)| == |pool|;
      MultisetTail(t);
      var x := t[0];
      assert x in multiset(pool);
      assert x in pool;
    }
  }

  /** The merge loop: appends candidates that are not there yet, noting when the cap is reached. */
  method Merge(candidates: seq<Phrase>, more: seq<Phrase>, wasTruncated: bool)
      returns (merged: seq<Phrase>, truncated: bool)
    requires Distinct(candidates + more)
    ensures merged == candidates + more
    ensures truncated == (wasTruncated || (more != [] && |merged| >= MAX_RETURNED))
  {
    merged, truncated := candidates, wasTruncated;
    for i := 0 to |more|
      invariant merged == candidates + more[..i]
      invariant truncated == (wasTruncated || (i > 0 && |merged| >= MAX_RETURNED))
    {
      assert (candidates + more)[|candidates| + i] == more[i];
      assert more[i] !in merged by {
        forall k | 0 <= k < |merged| ensures merged[k] != more[i] {
          assert merged[k] == (candidates + more)[k];
        }
      }
      if more[i] !in merged {
        merged := merged + [more[i]];
        if |merged| >= MAX_RETURNED {
          truncated := true;
        }
      }
    }
  }

  /**
   What the task loop leaves when it ends after k tasks: the cap was not reached by `before`, the
   fillings of all but the last of them, and it was reached by all of them unless none is left.
   */
  ghost predicate Ended(template: Phrase, positions: seq<nat>, pool: seq<int>, firsts: seq<int>,
                        valid: Phrase -> bool, accept: Phrase -> bool,
                        k: nat, before: seq<seq<int>>, tried: seq<seq<int>>, candidates: seq<Phrase>) {
    && k <= |firsts| && Slots(template, positions) && |positions| == |pool|
    && TriedFor(tried, pool, firsts[..k]) && Fillings(tried, |positions|)
    && candidates == Collected(template, positions, tried, valid, accept)
    && (k < |firsts| ==> |candidates| >= MAX_RETURNED)
    && (k > 0 ==> before <= tried && TriedFor(before, pool, firsts[..k - 1]) && Fillings(before, |positions|)
                  && |Collected(template, positions, before, valid, accept)| < MAX_RETURNED)
  }

  ghost predicate EndedSomewhere(template: Phrase, positions: seq<nat>, pool: seq<int>, firsts: seq<int>,
                                 valid: Phrase -> bool, accept: Phrase -> bool,
                                 tried: seq<seq<int>>, candidates: seq<Phrase>) {
    exists k: nat, before: seq<seq<int>> ::
      Ended(template, positions, pool, firsts, valid, accept, k, before, tried, candidates)
  }

  /** The task loop: stops after the first task that reaches the cap. */
  method RunTasks(template: Phrase, positions: seq<nat>, pool: seq<int>, firsts: seq<int>,
                  valid: Phrase -> bool, accept: Phrase -> bool)
      returns (candidates: seq<Phrase>, checked: nat, passed: nat, truncated: bool, ghost tried: seq<seq<int>>)
    requires Slots(template, positions) && |positions| == |pool|
    requires Distinct(firsts) && forall x :: x in firsts <==> x in pool
    ensures Totals(template, positions, tried, valid, accept, candidates, checked, passed)
    ensures exists k: nat :: k <= |firsts| && TriedFor(tried, pool, firsts[..k]) && (!truncated ==> k == |firsts|)
    ensures truncated <==> |candidates| >= MAX_RETURNED
    ensures EndedSomewhere(template, positions, pool, firsts, valid, accept, tried, candidates)
  {
    hide Totals, Removed, Listing, TriedFor, Collected, CountValid, Fillings, Slots, ArrangementsOf, Ended, EndedSomewhere;
    candidates, checked, passed, truncated, tried := [], 0, 0, false, [];
    var k: nat := 0;
    ghost var before: seq<seq<int>> := [];
    NoTotals(template, positions, valid, accept);
    NothingTried(pool, firsts);
    if firsts == [] {
      NoTasks(template, positions, pool, firsts, valid, accept);
    }
    while k < |firsts|
      invariant k <= |firsts| && TriedFor(tried, pool, firsts[..k])
      invariant Totals(template, positions, tried, valid, accept, candidates, checked, passed)
      invariant !truncated && |candidates| < MAX_RETURNED
      invariant k == |firsts| ==> Ended(template, positions, pool, firsts, valid, accept, k, before, tried, candidates)
    {
      before := tried;
      ghost var reached := candidates;
      var first := firsts[k];
      assert first in firsts;
      var remaining := Removed(pool, first);
      var more, moreChecked, morePassed, moreTried := OrderWorker(template, positions, first, remaining, valid, accept);
      ghost var fillings := Prefixed(first, moreTried);
      assert firsts[..k + 1] == firsts[..k] + [first];
      MoreTried(tried, pool, firsts[..k], first, moreTried);
      TriedDistinct(tried + fillings, pool, firsts[..k + 1]);
      TotalsAdd(template, positions, tried, fillings, valid, accept, candidates, checked, passed);
      checked := checked + moreChecked;
      passed := passed + morePassed;
      tried := tried + fillings;
      candidates, truncated := Merge(candidates, more, truncated);
      k := k + 1;
      if truncated || k == |firsts| {
        EndedAfter(template, positions, pool, firsts, valid, accept, k, before, fillings, reached, candidates,
                   checked - moreChecked, passed - morePassed, checked, passed);
      }
      if truncated {
        EndedIs(template, positions, pool, firsts, valid, accept, k, before, tried, candidates);
        return;
      }
    }
    EndedIs(template, positions, pool, firsts, valid, accept, k, before, tried, candidates);
  }

  lemma EndedIs(template: Phrase, positions: seq<nat>, pool: seq<int>, firsts: seq<int>,
                valid: Phrase -> bool, accept: Phrase -> bool,
                k: nat, before: seq<seq<int>>, tried: seq<seq<int>>, candidates: seq<Phrase>)
    requires Ended(template, positions, pool, firsts, valid, accept, k, before, tried, candidates)
    ensures EndedSomewhere(template, positions, pool, firsts, valid, accept, tried, candidates)
  {
  }

  /** One task more, and the loop ends. */
  lemma EndedAfter(template: Phrase, positions: seq<nat>, pool: seq<int>, firsts: seq<int>,
                   valid: Phrase -> bool, accept: Phrase -> bool, k: nat, before: seq<seq<int>>, fillings: seq<seq<int>>,
                   reached: seq<Phrase>, candidates: seq<Phrase>, checked: nat, passed: nat, checked': nat, passed': nat)
    requires 0 < k <= |firsts| && |positions| == |pool|
    requires TriedFor(before, pool, firsts[..k - 1]) && TriedFor(before + fillings, pool, firsts[..k])
    requires Totals(template, positions, before, valid, accept, reached, checked, passed) && |reached| < MAX_RETURNED
    requires Totals(template, positions, before + fillings, valid, accept, candidates, checked', passed')
    requires k < |firsts| ==> |candidates| >= MAX_RETURNED
    ensures Ended(template, positions, pool, firsts, valid, accept, k, before, before + fillings, candidates)
  {
    hide Totals, TriedFor, Collected, CountValid, Fillings, Slots;
    TotalsParts(template, positions, before, valid, accept, reached, checked, passed);
    TotalsParts(template, positions, before + fillings, valid, accept, candidates, checked', passed');
  }

  lemma NoTasks(template: Phrase, positions: seq<nat>, pool: seq<int>, firsts: seq<int>,
                valid: Phrase -> bool, accept: Phrase -> bool)
    requires Slots(template, positions) && |positions| == |pool| && firsts == []
    ensures Ended(template, positions, pool, firsts, valid, accept, 0, [], [], [])
  {
  }

  lemma NothingTried(pool: seq<int>, firsts: seq<int>)
    ensures TriedFor([], pool, firsts[..0])
  {
  }

  lemma TriedDistinct(tried: seq<seq<int>>, pool: seq<int>, done: seq<int>)
    requires TriedFor(tried, pool, done)
    ensures Distinct(tried) && forall t :: t in tried ==> multiset(t) == multiset(pool)
  {
  }

  /**
   recover_word_order after its input checks. `firsts` is the pool without repetitions in
   whatever order the set is iterated; `tried` are the fillings gone through.
   */
  method RecoverWordOrder(template: Phrase, pool: seq<int>, firsts: seq<int>, maxPermutations: nat,
                          valid: Phrase -> bool, accept: Phrase -> bool)
      returns (r: Outcome, ghost tried: seq<seq<int>>)
    requires Distinct(firsts) && forall x :: x in firsts <==> x in pool
    ensures r.Mismatch? <==> |UnknownPositions(template)| != |pool|
    ensures r.TooMany? <==> |UnknownPositions(template)| == |pool| > 0 && |ArrangementsOf(multiset(pool))| > maxPermutations
    ensures r.TooMany? ==> r.total == |ArrangementsOf(multiset(pool))|
    ensures r.Done? ==>
      && Totals(template, UnknownPositions(template), tried, valid, accept, r.candidates, r.checked, r.passed)
      && Distinct(tried) && (forall t :: t in tried ==> multiset(t) == multiset(pool))
      && r.searchSpace == |ArrangementsOf(multiset(pool))|
      && (r.truncated <==> |r.candidates| >= MAX_RETURNED)
      && (!r.truncated ==> Listing(tried, multiset(pool)) && r.checked == r.searchSpace)
      && (pool != [] ==> EndedSomewhere(template, UnknownPositions(template), pool, firsts, valid, accept, tried, r.candidates))
  {
    hide ArrangementsOf, Totals, Listing, TriedFor, EndedSomewhere;
    tried := [];
    var positions := UnknownPositions(template);
    if |positions| != |pool| {
      return Mismatch, tried;
    }
    if positions == [] {
      r, tried := NoUnknowns(template, valid, accept);
      assert pool == [];
      return;
    }
    var total := CountPermutations(pool);
    if total > maxPermutations {
      return TooMany(total), tried;
    }
    var candidates, checked, passed, truncated;
    candidates, checked, passed, truncated, tried := RunTasks(template, positions, pool, firsts, valid, accept);
    ghost var k: nat :| k <= |firsts| && TriedFor(tried, pool, firsts[..k]) && (!truncated ==> k == |firsts|);
    TriedDistinct(tried, pool, firsts[..k]);
    if !truncated {
      assert firsts[..k] == firsts;
      AllTried(tried, pool, firsts);
      ListingSize(tried, multiset(pool));
      TotalsParts(template, positions, tried, valid, accept, candidates, checked, passed);
    }
    return Done(candidates, checked, passed, truncated, total), tried;
  }

  /**
   A search that was not cut short returns, without repetition, exactly the phrases that fill
   the template with the pool and pass both tests.
   */
  lemma FullSearchExact(template: Phrase, positions: seq<nat>, pool: seq<int>, tried: seq<seq<int>>,
                        valid: Phrase -> bool, accept: Phrase -> bool, candidates: seq<Phrase>, checked: nat, passed: nat)
    requires Totals(template, positions, tried, valid, accept, candidates, checked, passed)
    requires Listing(tried, multiset(pool)) && |positions| == |pool|
    ensures Distinct(candidates)
    ensures forall c :: c in candidates <==>
              valid(c) && accept(c) && exists f: seq<int> :: IsFilling(template, positions, pool, f, c)
  {
    hide Patch, Collected;
    CollectedDistinct(template, positions, tried, valid, accept);
    forall c ensures c in candidates <==>
        valid(c) && accept(c) && exists f: seq<int> :: IsFilling(template, positions, pool, f, c)
    {
      CollectedIff(template, positions, tried, valid, accept, c);
      if c in candidates {
        var f :| f in tried && Patch(template, positions, f) == c;
        assert IsFilling(template, positions, pool, f, c);
      }
      if exists f: seq<int> :: IsFilling(template, positions, pool, f, c) {
        var f: seq<int> :| IsFilling(template, positions, pool, f, c);
        assert f in tried;
      }
    }
  }

  /** c is the template with the pool, in the order f, at its unknown positions. */
  ghost predicate IsFilling(template: Phrase, positions: seq<nat>, pool: seq<int>, f: seq<int>, c: Phrase) {
    && Slots(template, positions) && |f| == |positions|
    && multiset(f) == multiset(pool) && Patch(template, positions, f) == c
  }

  /** A template without "?": the one phrase is checked as it stands. */
  method NoUnknowns(template: Phrase, valid: Phrase -> bool, accept: Phrase -> bool)
      returns (r: Outcome, ghost tried: seq<seq<int>>)
    requires UnknownPositions(template) == []
    ensures r.Done? && tried == [[]] && r.checked == 1 && r.searchSpace == 1 && !r.truncated
    ensures Listing(tried, multiset{}) && |ArrangementsOf(multiset{})| == 1
    ensures Totals(template, [], tried, valid, accept, r.candidates, r.checked, r.passed) && |r.candidates| <= 1
  {
    OnlyEmpty();
    tried := [[]];
    var v := valid(template);
    var candidates := if v then [template] else [];
    if candidates != [] && !accept(candidates[0]) {
      candidates := [];
    }
    assert tried[..0] == [];
    assert Patch(template, [], []) == template;
    r := Done(candidates, 1, if v then 1 else 0, false, 1);
  }
}
