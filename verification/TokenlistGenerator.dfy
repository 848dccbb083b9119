/** generate_tokenlist_candidates and estimate_tokenlist_count, proved against Tokenlist.dfy. */
module TokenlistGenerator {
  import opened Arrangements
  import opened FirstSeen
  import opened Itertools
  import opened Tokenlist

  const ESTIMATE_LIMIT := 10_000_000

  /** separator.join. */
  function Join(sep: string, parts: seq<string>): string {
    if parts == [] then ""
    else if |parts| == 1 then parts[0]
    else Join(sep, parts[..|parts| - 1]) + sep + parts[|parts| - 1]
  }

  function Joined(sep: string, visits: seq<seq<string>>): (r: seq<string>)
    ensures |r| == |visits|
  {
    seq(|visits|, k requires 0 <= k < |visits| => Join(sep, visits[k]))
  }

  lemma JoinedConcat(sep: string, a: seq<seq<string>>, b: seq<seq<string>>)
    ensures Joined(sep, a + b) == Joined(sep, a) + Joined(sep, b)
  {
  }

  /** More visits kept on top of those already kept. */
  lemma KeepMore(sep: string, seen: seq<string>, a: seq<seq<string>>, b: seq<seq<string>>, cap: int)
    ensures Keep(seen, Joined(sep, a + b), cap) == Keep(Keep(seen, Joined(sep, a), cap), Joined(sep, b), cap)
  {
    JoinedConcat(sep, a, b);
    KeepConcat(seen, Joined(sep, a), Joined(sep, b), cap);
  }

  /** Once the cap is reached the rest makes no difference. */
  lemma KeepStopped(sep: string, seen: seq<string>, a: seq<seq<string>>, b: seq<seq<string>>, cap: int)
    requires |Keep(seen, Joined(sep, a), cap)| >= cap
    ensures Keep(seen, Joined(sep, a + b), cap) == Keep(seen, Joined(sep, a), cap)
  {
    KeepMore(sep, seen, a, b, cap);
    KeepFull(Keep(seen, Joined(sep, a), cap), Joined(sep, b), cap);
  }

  // ---------------------------------------------------------------- generation

  lemma NothingKept(sep: string, seen: seq<string>, cap: int)
    ensures Keep(seen, Joined(sep, []), cap) == seen
  {
  }

  /** One more visit. */
  lemma KeepNext(sep: string, seen: seq<string>, visits: seq<seq<string>>, i: nat, cap: int)
    requires i < |visits|
    ensures Keep(seen, Joined(sep, visits[..i + 1]), cap)
         == Put(Keep(seen, Joined(sep, visits[..i]), cap), Join(sep, visits[i]), cap)
  {
    hide Join;
    var joined := Joined(sep, visits[..i + 1]);
    assert joined[..i] == Joined(sep, visits[..i]) && joined[i] == Join(sep, visits[i]);
  }

  /** The loop over the orders of the free tokens. */
  method TryOrders(before: seq<string>, perms: seq<seq<string>>, after: seq<string>, sep: string,
                   seen: seq<string>, cap: int) returns (seen': seq<string>, stopped: bool)
    ensures seen' == Keep(seen, Joined(sep, Wrapped(before, perms, after)), cap)
    ensures stopped ==> |seen'| >= cap
  {
    hide Joined, Join, Keep;
    ghost var visits := Wrapped(before, perms, after);
    NothingKept(sep, seen, cap);
    assert visits[..0] == [];
    seen', stopped := seen, false;
    for i := 0 to |perms|
      invariant seen' == Keep(seen, Joined(sep, visits[..i]), cap)
    {
      if |seen'| >= cap {
        assert visits == visits[..i] + visits[i..];
        KeepStopped(sep, seen, visits[..i], visits[i..], cap);
        return seen', true;
      }
      var candidate := Join(sep, before + perms[i] + after);
      KeepNext(sep, seen, visits, i, cap);
      if candidate !in seen' {
        seen' := seen' + [candidate];
      }
    }
    assert visits[..|perms|] == visits;
  }

  /** The loop that sorts the chosen tokens by anchor. */
  method SplitTokens(lines: Lines, choice: seq<string>)
      returns (begins: seq<string>, ends: seq<string>, frees: seq<string>)
    requires |choice| == |lines|
    ensures begins == Tokens(lines, choice, Begin)
    ensures ends == Tokens(lines, choice, End)
    ensures frees == Tokens(lines, choice, Free)
  {
    begins, ends, frees := [], [], [];
    for i := 0 to |lines|
      invariant begins == Tokens(lines[..i], choice[..i], Begin)
      invariant ends == Tokens(lines[..i], choice[..i], End)
      invariant frees == Tokens(lines[..i], choice[..i], Free)
    {
      NextToken(lines, choice, i, Begin);
      NextToken(lines, choice, i, End);
      NextToken(lines, choice, i, Free);
      if lines[i].begin {
        begins := begins + [choice[i]];
      } else if lines[i].end {
        ends := ends + [choice[i]];
      } else {
        frees := frees + [choice[i]];
      }
    }
    assert lines[..|lines|] == lines && choice[..|lines|] == choice;
  }

  lemma NextToken(lines: Lines, choice: seq<string>, i: nat, a: Anchor)
    requires i < |lines| == |choice|
    ensures Tokens(lines[..i + 1], choice[..i + 1], a)
         == Tokens(lines[..i], choice[..i], a) + (if AnchorOf(lines[i]) == a then [choice[i]] else [])
  {
    TokensSnoc(lines[..i + 1], choice[..i + 1], a);
    assert lines[..i + 1][..i] == lines[..i] && choice[..i + 1][..i] == choice[..i];
  }

  /** The loop over the choices of one token from each line. */
  method TryLines(lines: Lines, sep: string, seen: seq<string>, cap: int)
      returns (seen': seq<string>, stopped: bool)
    ensures seen' == Keep(seen, Joined(sep, LineVisits(lines)), cap)
    ensures stopped ==> |seen'| >= cap
  {
    hide Joined, Keep, ChoiceVisits, CartesianProduct;
    var choices := CartesianProduct(Options(lines));
    seen', stopped := seen, false;
    NothingKept(sep, seen, cap);
    for i := 0 to |choices|
      invariant seen' == Keep(seen, Joined(sep, ChoicesVisits(lines, choices[..i])), cap)
    {
      ProductIff(Options(lines), choices[i]);
      var begins, ends, frees := SplitTokens(lines, choices[i]);
      seen', stopped := TryOrders(begins, Permutations(frees), ends, sep, seen', cap);
      NextChoice(lines, choices, i);
      KeepMore(sep, seen, ChoicesVisits(lines, choices[..i]), ChoiceVisits(lines, choices[i]), cap);
      if stopped {
        ChoicesConcat(lines, choices[..i + 1], choices[i + 1..]);
        assert choices == choices[..i + 1] + choices[i + 1..];
        KeepStopped(sep, seen, ChoicesVisits(lines, choices[..i + 1]), ChoicesVisits(lines, choices[i + 1..]), cap);
        return;
      }
    }
    assert choices[..|choices|] == choices;
  }

  lemma NextChoice(lines: Lines, choices: seq<seq<string>>, i: nat)
    requires i < |choices|
    ensures choices[i] in choices
    ensures ChoicesVisits(lines, choices[..i + 1]) == ChoicesVisits(lines, choices[..i]) + ChoiceVisits(lines, choices[i])
    ensures ChoiceVisits(lines, choices[i]) ==
            Wrapped(Tokens(lines, choices[i], Begin), Permutations(Tokens(lines, choices[i], Free)),
                    Tokens(lines, choices[i], End))
  {
    assert choices[..i + 1][..i] == choices[..i];
  }

  lemma {:induction false} ChoicesConcat(lines: Lines, a: seq<seq<string>>, b: seq<seq<string>>)
    ensures ChoicesVisits(lines, a + b) == ChoicesVisits(lines, a) + ChoicesVisits(lines, b)
  {
    hide ChoiceVisits;
    if b == [] {
      assert a + b == a;
    } else {
      var init, last, ab := b[..|b| - 1], b[|b| - 1], a + b;
      ChoicesConcat(lines, a, init);
      assert ab[..|ab| - 1] == a + init && ab[|ab| - 1] == last;
      var u, v, w := ChoicesVisits(lines, a), ChoicesVisits(lines, init), ChoiceVisits(lines, last);
      assert u + v + w == u + (v + w);
    }
  }

  /** The loop over the subsets of one size. */
  method TrySubsets(required: Lines, optional: Lines, subsets: seq<seq<nat>>, sep: string, seen: seq<string>, cap: int)
      returns (seen': seq<string>, stopped: bool)
    requires Subsets(subsets, |optional|)
    ensures seen' == Keep(seen, Joined(sep, Visits(SubsetSelections(required, optional, subsets))), cap)
    ensures stopped ==> |seen'| >= cap
  {
    hide Joined, Keep, LineVisits, SubsetSelections, Picked;
    seen', stopped := seen, false;
    NothingKept(sep, seen, cap);
    NoSubsets(required, optional, subsets);
    for i := 0 to |subsets|
      invariant Subsets(subsets[..i], |optional|)
      invariant seen' == Keep(seen, Joined(sep, Visits(SubsetSelections(required, optional, subsets[..i]))), cap)
    {
      ghost var before := SubsetSelections(required, optional, subsets[..i]);
      NextSubset(required, optional, subsets, i);
      var lines := required + Picked(optional, subsets[i]);
      if lines != [] {
        seen', stopped := TryLines(lines, sep, seen', cap);
        OneSelection(before, lines);
        KeepMore(sep, seen, Visits(before), LineVisits(lines), cap);
        if stopped {
          SubsetsSplit(required, optional, subsets, i + 1);
          ghost var done, rest := subsets[..i + 1], subsets[i + 1..];
          VisitsConcat(SubsetSelections(required, optional, done), SubsetSelections(required, optional, rest));
          KeepStopped(sep, seen, Visits(SubsetSelections(required, optional, done)),
                      Visits(SubsetSelections(required, optional, rest)), cap);
          return;
        }
      } else {
        assert before + [] == before;
      }
    }
    assert subsets[..|subsets|] == subsets;
  }

  lemma NoSubsets(required: Lines, optional: Lines, subsets: seq<seq<nat>>)
    ensures Subsets(subsets[..0], |optional|) && Visits(SubsetSelections(required, optional, subsets[..0])) == []
    ensures Sizes(SubsetSelections(required, optional, subsets[..0])) == 0
  {
  }

  lemma NextSubset(required: Lines, optional: Lines, subsets: seq<seq<nat>>, i: nat)
    requires i < |subsets| && Subsets(subsets, |optional|)
    ensures subsets[i] in subsets && Subsets(subsets[..i], |optional|) && Subsets(subsets[..i + 1], |optional|)
    ensures Below(subsets[i], |optional|)
    ensures var lines := required + Picked(optional, subsets[i]);
      SubsetSelections(required, optional, subsets[..i + 1])
      == SubsetSelections(required, optional, subsets[..i]) + (if lines == [] then [] else [lines])
  {
    assert subsets[i] in subsets;
    assert forall s :: s in subsets[..i + 1] ==> s in subsets;
    assert subsets[..i + 1][..i] == subsets[..i];
  }

  lemma OneSelection(before: seq<Lines>, lines: Lines)
    ensures Visits(before + [lines]) == Visits(before) + LineVisits(lines)
    ensures Sizes(before + [lines]) == Sizes(before) + Size(lines)
  {
    hide LineVisits, Size;
    assert (before + [lines])[..|before|] == before;
  }

  lemma SubsetsSplit(required: Lines, optional: Lines, subsets: seq<seq<nat>>, i: nat)
    requires i <= |subsets| && Subsets(subsets, |optional|)
    ensures Subsets(subsets[..i], |optional|) && Subsets(subsets[i..], |optional|)
    ensures SubsetSelections(required, optional, subsets)
         == SubsetSelections(required, optional, subsets[..i]) + SubsetSelections(required, optional, subsets[i..])
  {
    hide Picked, Below, SubsetSelections;
    assert forall s :: s in subsets[..i] ==> s in subsets;
    assert forall s :: s in subsets[i..] ==> s in subsets;
    SubsetsConcat(required, optional, subsets[..i], subsets[i..]);
    assert subsets == subsets[..i] + subsets[i..];
  }

  /** The loop over the number of optional lines. */
  method TryLevels(required: Lines, optional: Lines, minTokens: int, levels: nat, sep: string, cap: int)
      returns (seen: seq<string>)
    ensures seen == Keep([], Joined(sep, Visits(Selections(required, optional, minTokens, levels))), cap)
  {
    hide Joined, Keep, Visits, SubsetSelections, Combinations;
    seen := [];
    var stopped := false;
    NothingKept(sep, [], cap);
    NoSelections();
    for k := 0 to levels
      invariant seen == Keep([], Joined(sep, Visits(Selections(required, optional, minTokens, k))), cap)
    {
      ghost var before := Selections(required, optional, minTokens, k);
      NextLevel(required, optional, minTokens, k);
      if !(k < minTokens && |required| == 0) {
        CombinationsSubsets(|optional|, k);
        seen, stopped := TrySubsets(required, optional, Combinations(0, |optional|, k), sep, seen, cap);
        VisitsConcat(before, Level(required, optional, minTokens, k));
        KeepMore(sep, [], Visits(before), Visits(Level(required, optional, minTokens, k)), cap);
        if stopped {
          LaterLevels(required, optional, minTokens, k + 1, levels, sep, cap);
          return;
        }
      }
    }
  }

  lemma NoSelections()
    ensures Visits([]) == [] && Sizes([]) == 0
  {
  }

  lemma NextLevel(required: Lines, optional: Lines, minTokens: int, k: nat)
    ensures var before, level := Selections(required, optional, minTokens, k), Level(required, optional, minTokens, k);
      && Selections(required, optional, minTokens, k + 1) == before + level
      && (k < minTokens && |required| == 0 ==> before + level == before)
  {
    hide SubsetSelections, Combinations;
  }

  /** Levels after the cap is reached add nothing. */
  lemma {:induction false} LaterLevels(required: Lines, optional: Lines, minTokens: int, k: nat, levels: nat,
                                      sep: string, cap: int)
    requires k <= levels
    requires |Keep([], Joined(sep, Visits(Selections(required, optional, minTokens, k))), cap)| >= cap
    ensures Keep([], Joined(sep, Visits(Selections(required, optional, minTokens, levels))), cap)
         == Keep([], Joined(sep, Visits(Selections(required, optional, minTokens, k))), cap)
    decreases levels
  {
    hide Joined, Keep, Visits, Level;
    if k < levels {
      LaterLevels(required, optional, minTokens, k, levels - 1, sep, cap);
      var before, level := Selections(required, optional, minTokens, levels - 1), Level(required, optional, minTokens, levels - 1);
      VisitsConcat(before, level);
      KeepStopped(sep, [], Visits(before), Visits(level), cap);
    }
  }

  function Required(lines: Lines): Lines {
    if lines == [] then []
    else Required(lines[..|lines| - 1]) + (if lines[|lines| - 1].required then [lines[|lines| - 1]] else [])
  }

  function Optional(lines: Lines): Lines {
    if lines == [] then []
    else Optional(lines[..|lines| - 1]) + (if lines[|lines| - 1].required then [] else [lines[|lines| - 1]])
  }

  /** generate_tokenlist_candidates: the first cap distinct guesses in visit order. */
  method GenerateTokenlist(lines: Lines, minTokens: int, maxTokens: int, sep: string, cap: int)
      returns (r: seq<string>)
    ensures var visits := AllVisits(Required(lines), Optional(lines), minTokens, maxTokens);
      r == AtMost(Firsts(Joined(sep, visits)), cap)
  {
    hide Selections, Visits, Joined;
    var required, optional := Required(lines), Optional(lines);
    if lines == [] {
      NoLines(minTokens, Levels([], maxTokens));
      NothingKept(sep, [], cap);
      KeepFirsts(Joined(sep, []), cap);
      return [];
    }
    r := TryLevels(required, optional, minTokens, Levels(optional, maxTokens), sep, cap);
    KeepFirsts(Joined(sep, AllVisits(required, optional, minTokens, maxTokens)), cap);
  }

  /** Without lines there is nothing to visit. */
  lemma {:induction false} NoLines(minTokens: int, n: nat)
    requires n <= 1
    ensures Visits(Selections([], [], minTokens, n)) == [] && Selections([], [], minTokens, n) == []
  {
    if n == 1 {
      assert Combinations(0, 0, 0) == [[]];
      var subsets: seq<seq<nat>> := [[]];
      assert subsets[..0] == [];
      assert Picked([], []) == [];
    }
  }

  // ---------------------------------------------------------------- estimate

  /** Whether a running total can stand for the n guesses: exact until it passes the limit. */
  predicate Estimates(total: nat, n: nat) {
    total <= n && (total == n || total > 10_000_000)
  }

  method SizeOf(lines: Lines) returns (size: nat)
    ensures size == Size(lines)
  {
    var combos, free := 1, 0;
    for i := 0 to |lines|
      invariant combos == SizeProduct(Options(lines[..i])) && free == FreeCount(lines[..i])
    {
      assert lines[..i + 1][..i] == lines[..i];
      assert Options(lines[..i + 1])[..i] == Options(lines[..i]);
      combos := combos * |lines[i].options|;
      if !lines[i].begin && !lines[i].end {
        free := free + 1;
      }
    }
    assert lines[..|lines|] == lines;
    size := combos * Factorial(free);
  }

  /** The loop over the subsets of one size; `over` tells that the limit was passed. */
  method EstimateSubsets(required: Lines, optional: Lines, subsets: seq<seq<nat>>, before: nat)
      returns (total: nat, over: bool)
    requires Subsets(subsets, |optional|) && before <= ESTIMATE_LIMIT
    ensures var n := before + Sizes(SubsetSelections(required, optional, subsets));
      if over then ESTIMATE_LIMIT < total <= n else total == n <= ESTIMATE_LIMIT
  {
    hide Size, SubsetSelections, Picked;
    total, over := before, false;
    NoSubsets(required, optional, subsets);
    for i := 0 to |subsets|
      invariant Subsets(subsets[..i], |optional|) && total <= ESTIMATE_LIMIT
      invariant total == before + Sizes(SubsetSelections(required, optional, subsets[..i]))
    {
      ghost var done := SubsetSelections(required, optional, subsets[..i]);
      NextSubset(required, optional, subsets, i);
      var lines := required + Picked(optional, subsets[i]);
      if lines != [] {
        var size := SizeOf(lines);
        total := total + size;
        OneSelection(done, lines);
        if total > ESTIMATE_LIMIT {
          SubsetsSplit(required, optional, subsets, i + 1);
          VisitsConcat(SubsetSelections(required, optional, subsets[..i + 1]),
                       SubsetSelections(required, optional, subsets[i + 1..]));
          return total, true;
        }
      } else {
        assert done + [] == done;
      }
    }
    assert subsets[..|subsets|] == subsets;
  }

  /** estimate_tokenlist_count: exact unless it stops early, above the limit. */
  method EstimateTokenlist(lines: Lines, minTokens: int, maxTokens: int) returns (total: nat)
    ensures Estimates(total, |AllVisits(Required(lines), Optional(lines), minTokens, maxTokens)|)
  {
    hide Selections, Sizes, SubsetSelections, Combinations, Visits;
    var required, optional := Required(lines), Optional(lines);
    var levels := Levels(optional, maxTokens);
    total := 0;
    if lines == [] {
      NoLines(minTokens, levels);
      return;
    }
    NoSelections();
    NoneYet(required, optional, minTokens);
    for k := 0 to levels
      invariant total == Sizes(Selections(required, optional, minTokens, k)) && total <= ESTIMATE_LIMIT
    {
      NextLevel(required, optional, minTokens, k);
      if !(k < minTokens && |required| == 0) {
        CombinationsSubsets(|optional|, k);
        var over;
        total, over := EstimateSubsets(required, optional, Combinations(0, |optional|, k), total);
        VisitsConcat(Selections(required, optional, minTokens, k), Level(required, optional, minTokens, k));
        if over {
          MoreSelections(required, optional, minTokens, k + 1, levels);
          VisitsSize(Selections(required, optional, minTokens, levels));
          return;
        }
      }
    }
    VisitsSize(Selections(required, optional, minTokens, levels));
  }

  lemma NoneYet(required: Lines, optional: Lines, minTokens: int)
    ensures Selections(required, optional, minTokens, 0) == []
  {
  }

  lemma {:induction false} MoreSelections(required: Lines, optional: Lines, minTokens: int, k: nat, levels: nat)
    requires k <= levels
    ensures Sizes(Selections(required, optional, minTokens, k)) <= Sizes(Selections(required, optional, minTokens, levels))
    decreases levels
  {
    hide Level, Sizes;
    if k < levels {
      MoreSelections(required, optional, minTokens, k, levels - 1);
      VisitsConcat(Selections(required, optional, minTokens, levels - 1), Level(required, optional, minTokens, levels - 1));
    }
  }

  /** An estimate within the limit is the number of visits, and the result is no longer. */
  lemma EstimateBounds(visits: seq<seq<string>>, total: nat, sep: string, cap: int)
    requires Estimates(total, |visits|) && total <= 10_000_000
    ensures total == |visits| && |AtMost(Firsts(Joined(sep, visits)), cap)| <= total
  {
  }

  /** A result that the cap did not cut holds each joined guess once, and nothing else. */
  lemma ResultExact(required: Lines, optional: Lines, minTokens: int, maxTokens: int, sep: string, cap: int, c: string)
    requires var visits := AllVisits(required, optional, minTokens, maxTokens); |Firsts(Joined(sep, visits))| <= cap
    ensures var r := AtMost(Firsts(Joined(sep, AllVisits(required, optional, minTokens, maxTokens))), cap);
      && Distinct(r)
      && (c in r <==> exists lines, full ::
            Admissible(required, optional, minTokens, maxTokens, lines) && GuessOf(lines, full) && Join(sep, full) == c)
  {
    hide Admissible, GuessOf, Join, AllVisits;
    var visits := AllVisits(required, optional, minTokens, maxTokens);
    var joined := Joined(sep, visits);
    if c in joined {
      var i :| 0 <= i < |joined| && joined[i] == c;
      var full := visits[i];
      assert full in visits;
      AllVisitsIff(required, optional, minTokens, maxTokens, full);
    }
    if lines, full :|
      Admissible(required, optional, minTokens, maxTokens, lines) && GuessOf(lines, full) && Join(sep, full) == c
    {
      AllVisitsIff(required, optional, minTokens, maxTokens, full);
      var i :| 0 <= i < |visits| && visits[i] == full;
      assert joined[i] == c;
    }
  }

  // ---------------------------------------------------------------- the separator

  lemma JoinSnoc(sep: string, a: seq<string>, x: string)
    requires a != []
    ensures Join(sep, a + [x]) == Join(sep, a) + (sep + x)
  {
    assert (a + [x])[..|a|] == a;
  }

  /** One separator stands between any two neighbours and nowhere else. */
  lemma {:induction false} JoinConcat(sep: string, a: seq<string>, b: seq<string>)
    requires a != [] && b != []
    ensures Join(sep, a + b) == Join(sep, a) + sep + Join(sep, b)
    decreases |b|
  {
    var init, last := b[..|b| - 1], b[|b| - 1];
    assert b == init + [last] && a + b == (a + init) + [last];
    JoinOne(sep, last);
    hide Join;
    JoinSnoc(sep, a + init, last);
    if init == [] {
      assert a + init == a;
    } else {
      JoinConcat(sep, a, init);
      JoinSnoc(sep, init, last);
    }
  }

  lemma JoinOne(sep: string, part: string)
    ensures Join(sep, [part]) == part && Join(sep, []) == ""
  {
  }
}
