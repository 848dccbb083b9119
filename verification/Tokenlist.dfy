/**
 The guesses of a token list: choose optional lines, one token from each line, and permute the
 tokens that are not anchored. Lines are given parsed.
 */
module Tokenlist {
  import opened Arrangements
  import opened Itertools

  datatype TokenLine = TokenLine(required: bool, options: seq<string>, begin: bool, end: bool)

  type Lines = seq<TokenLine>

  datatype Anchor = Begin | End | Free

  /** A line anchored at both ends counts as anchored at the beginning. */
  function AnchorOf(l: TokenLine): Anchor {
    if l.begin then Begin else if l.end then End else Free
  }

  function Options(lines: Lines): (o: seq<seq<string>>)
    ensures |o| == |lines| && forall i :: 0 <= i < |lines| ==> o[i] == lines[i].options
  {
    seq(|lines|, i requires 0 <= i < |lines| => lines[i].options)
  }

  /** The chosen tokens of the lines with a given anchor, in line order; zip stops at the shorter. */
  function Tokens(lines: Lines, choice: seq<string>, a: Anchor): seq<string> {
    if lines == [] || choice == [] then []
    else (if AnchorOf(lines[0]) == a then [choice[0]] else []) + Tokens(lines[1..], choice[1..], a)
  }

  /** The token sequences visited for one choice of tokens. */
  function ChoiceVisits(lines: Lines, choice: seq<string>): seq<seq<string>> {
    Wrapped(Tokens(lines, choice, Begin), Permutations(Tokens(lines, choice, Free)), Tokens(lines, choice, End))
  }

  function ChoicesVisits(lines: Lines, choices: seq<seq<string>>): seq<seq<string>> {
    if choices == [] then []
    else ChoicesVisits(lines, choices[..|choices| - 1]) + ChoiceVisits(lines, choices[|choices| - 1])
  }

  /** The token sequences visited for one selection of lines. */
  function LineVisits(lines: Lines): seq<seq<string>> {
    ChoicesVisits(lines, CartesianProduct(Options(lines)))
  }

  function Visits(selections: seq<Lines>): seq<seq<string>> {
    if selections == [] then []
    else Visits(selections[..|selections| - 1]) + LineVisits(selections[|selections| - 1])
  }

  // ---------------------------------------------------------------- selections of lines

  predicate Below(s: seq<nat>, n: nat) {
    forall i :: 0 <= i < |s| ==> s[i] < n
  }

  function Picked(optional: Lines, subset: seq<nat>): Lines
    requires Below(subset, |optional|)
  {
    seq(|subset|, i requires 0 <= i < |subset| => optional[subset[i]])
  }

  ghost predicate Subsets(subsets: seq<seq<nat>>, n: nat) {
    forall s :: s in subsets ==> Below(s, n)
  }

  /** The selections of the given subsets; one without lines is passed over. */
  function SubsetSelections(required: Lines, optional: Lines, subsets: seq<seq<nat>>): seq<Lines>
    requires Subsets(subsets, |optional|)
  {
    if subsets == [] then []
    else
      var last := subsets[|subsets| - 1];
      assert last in subsets;
      var lines := required + Picked(optional, last);
      SubsetSelections(required, optional, subsets[..|subsets| - 1]) + (if lines == [] then [] else [lines])
  }

  lemma CombinationsSubsets(n: nat, k: nat)
    ensures Subsets(Combinations(0, n, k), n)
  {
    forall s | s in Combinations(0, n, k) ensures Below(s, n) {
      CombinationsIff(0, n, k, s);
    }
  }

  /** The selections with k optional lines. */
  function Level(required: Lines, optional: Lines, minTokens: int, k: nat): seq<Lines> {
    if k < minTokens && |required| == 0 then []
    else
      CombinationsSubsets(|optional|, k);
      SubsetSelections(required, optional, Combinations(0, |optional|, k))
  }

  /** The selections with fewer than n optional lines. */
  function Selections(required: Lines, optional: Lines, minTokens: int, n: nat): seq<Lines> {
    if n == 0 then []
    else Selections(required, optional, minTokens, n - 1) + Level(required, optional, minTokens, n - 1)
  }

  /** One more than the largest number of optional lines tried: the end of the outer range. */
  function Levels(optional: Lines, maxTokens: int): nat {
    var most := if maxTokens < |optional| then maxTokens else |optional|;
    if most < 0 then 0 else most + 1
  }

  /** Every token sequence the generator would visit without a cap, in order. */
  function AllVisits(required: Lines, optional: Lines, minTokens: int, maxTokens: int): seq<seq<string>> {
    Visits(Selections(required, optional, minTokens, Levels(optional, maxTokens)))
  }

  lemma {:induction false} SubsetsConcat(required: Lines, optional: Lines, a: seq<seq<nat>>, b: seq<seq<nat>>)
    requires Subsets(a, |optional|) && Subsets(b, |optional|)
    ensures Subsets(a + b, |optional|)
    ensures SubsetSelections(required, optional, a + b)
         == SubsetSelections(required, optional, a) + SubsetSelections(required, optional, b)
    decreases b
  {
    hide Picked, Below;
    var ab := a + b;
    assert forall s :: s in ab ==> s in a || s in b;
    if b == [] {
      assert ab == a;
    } else {
      var init, last := b[..|b| - 1], b[|b| - 1];
      assert last in b && forall s :: s in init ==> s in b;
      SubsetsConcat(required, optional, a, init);
      assert ab[..|ab| - 1] == a + init && ab[|ab| - 1] == last;
    }
  }

  // ---------------------------------------------------------------- each subset once

  /** The subsets of k optional lines that are visited. */
  function LevelSubsets(required: Lines, optional: Lines, minTokens: int, k: nat): seq<seq<nat>> {
    if required == [] && (k < minTokens || k == 0) then [] else Combinations(0, |optional|, k)
  }

  /** The subsets of fewer than n optional lines that are visited, in order. */
  function VisitedSubsets(required: Lines, optional: Lines, minTokens: int, n: nat): seq<seq<nat>> {
    if n == 0 then []
    else VisitedSubsets(required, optional, minTokens, n - 1) + LevelSubsets(required, optional, minTokens, n - 1)
  }

  /** A subset is visited if it is small enough, and not too small or accompanied by a required line. */
  lemma {:induction false} VisitedSubsetsIff(required: Lines, optional: Lines, minTokens: int, n: nat, s: seq<nat>)
    ensures s in VisitedSubsets(required, optional, minTokens, n)
       <==> Combination(s, 0, |optional|, |s|) && |s| < n && (required != [] || (|s| >= minTokens && s != []))
  {
    hide Combinations, Combination;
    if n > 0 {
      VisitedSubsetsIff(required, optional, minTokens, n - 1, s);
      CombinationsIff(0, |optional|, n - 1, s);
      CombinationSize(s, |optional|, n - 1);
    }
  }

  lemma CombinationSize(s: seq<nat>, n: nat, k: nat)
    ensures Combination(s, 0, n, k) <==> |s| == k && Combination(s, 0, n, |s|)
  {
  }

  /** No subset is visited twice. */
  lemma {:induction false} EachSubsetOnce(required: Lines, optional: Lines, minTokens: int, n: nat)
    ensures Distinct(VisitedSubsets(required, optional, minTokens, n))
  {
    hide Combinations, Combination, Distinct;
    if n == 0 {
      assert Distinct<seq<nat>>([]) by { NoneTwice(); }
    } else {
      var before, level := VisitedSubsets(required, optional, minTokens, n - 1), LevelSubsets(required, optional, minTokens, n - 1);
      EachSubsetOnce(required, optional, minTokens, n - 1);
      CombinationsDistinct(0, |optional|, n - 1);
      NoneTwice();
      forall s | s in before ensures s !in level {
        VisitedSubsetsIff(required, optional, minTokens, n - 1, s);
        CombinationsIff(0, |optional|, n - 1, s);
        CombinationSize(s, |optional|, n - 1);
      }
      DistinctConcat(before, level);
    }
  }

  lemma NoneTwice()
    ensures Distinct<seq<nat>>([])
  {
  }

  lemma {:induction false} SelectionCount(required: Lines, optional: Lines, subsets: seq<seq<nat>>)
    requires Subsets(subsets, |optional|) && forall s :: s in subsets ==> required != [] || s != []
    ensures |SubsetSelections(required, optional, subsets)| == |subsets|
    decreases subsets
  {
    if subsets != [] {
      var init, last := subsets[..|subsets| - 1], subsets[|subsets| - 1];
      assert last in subsets && forall s :: s in init ==> s in subsets;
      SelectionCount(required, optional, init);
      assert required + Picked(optional, last) != [];
    }
  }

  lemma LevelOnce(required: Lines, optional: Lines, minTokens: int, k: nat)
    ensures var subsets := LevelSubsets(required, optional, minTokens, k);
      Subsets(subsets, |optional|) && Level(required, optional, minTokens, k) == SubsetSelections(required, optional, subsets)
  {
    hide Combination;
    CombinationsSubsets(|optional|, k);
    if required == [] && k == 0 && !(k < minTokens) {
      var one: seq<seq<nat>> := [[]];
      assert one[..0] == [] && Picked(optional, []) == [];
    }
  }

  /**
   The selections are one for each visited subset, and no subset is visited twice: so the sum of
   their sizes counts each subset, with each choice of tokens and each order, once.
   */
  lemma {:induction false} OneSelectionEach(required: Lines, optional: Lines, minTokens: int, n: nat)
    ensures var subsets := VisitedSubsets(required, optional, minTokens, n);
      && Subsets(subsets, |optional|) && Distinct(subsets)
      && Selections(required, optional, minTokens, n) == SubsetSelections(required, optional, subsets)
      && |Selections(required, optional, minTokens, n)| == |subsets|
  {
    hide Combinations, SubsetSelections, Distinct, Picked;
    EachSubsetOnce(required, optional, minTokens, n);
    var subsets := VisitedSubsets(required, optional, minTokens, n);
    SelectionsFrom(required, optional, minTokens, n);
    forall s | s in subsets ensures required != [] || s != [] {
      VisitedSubsetsIff(required, optional, minTokens, n, s);
    }
    SelectionCount(required, optional, subsets);
  }

  lemma {:induction false} SelectionsFrom(required: Lines, optional: Lines, minTokens: int, n: nat)
    ensures var subsets := VisitedSubsets(required, optional, minTokens, n);
      Subsets(subsets, |optional|) && Selections(required, optional, minTokens, n) == SubsetSelections(required, optional, subsets)
  {
    hide Combinations, Level, LevelSubsets;
    if n > 0 {
      SelectionsFrom(required, optional, minTokens, n - 1);
      LevelOnce(required, optional, minTokens, n - 1);
      SubsetsConcat(required, optional, VisitedSubsets(required, optional, minTokens, n - 1),
                    LevelSubsets(required, optional, minTokens, n - 1));
    }
  }

  // ---------------------------------------------------------------- how many

  function FreeCount(lines: Lines): nat {
    if lines == [] then 0
    else FreeCount(lines[..|lines| - 1]) + (if AnchorOf(lines[|lines| - 1]) == Free then 1 else 0)
  }

  /** What the estimate adds for one selection. */
  function Size(lines: Lines): nat {
    SizeProduct(Options(lines)) * Factorial(FreeCount(lines))
  }

  function Sizes(selections: seq<Lines>): nat {
    if selections == [] then 0
    else Sizes(selections[..|selections| - 1]) + Size(selections[|selections| - 1])
  }

  lemma {:induction false} TokensSnoc(lines: Lines, choice: seq<string>, a: Anchor)
    requires |lines| == |choice| > 0
    ensures var n := |lines| - 1;
      Tokens(lines, choice, a) == Tokens(lines[..n], choice[..n], a) + (if AnchorOf(lines[n]) == a then [choice[n]] else [])
  {
    if |lines| > 1 {
      var n := |lines| - 1;
      TokensSnoc(lines[1..], choice[1..], a);
      assert lines[1..][..n - 1] == lines[..n][1..] && choice[1..][..n - 1] == choice[..n][1..];
    }
  }

  lemma {:induction false} FreeTokens(lines: Lines, choice: seq<string>)
    requires |lines| == |choice|
    ensures |Tokens(lines, choice, Free)| == FreeCount(lines)
  {
    if lines != [] {
      TokensSnoc(lines, choice, Free);
      FreeTokens(lines[..|lines| - 1], choice[..|lines| - 1]);
    }
  }

  lemma ChoiceVisitsSize(lines: Lines, choice: seq<string>)
    requires |choice| == |lines|
    ensures |ChoiceVisits(lines, choice)| == Factorial(FreeCount(lines))
  {
    hide Factorial, Tokens, Permutations;
    FreeTokens(lines, choice);
    PermutationsSize(Tokens(lines, choice, Free));
  }

  lemma {:induction false} ChoicesVisitsSize(lines: Lines, choices: seq<seq<string>>)
    requires forall c :: c in choices ==> |c| == |lines|
    ensures |ChoicesVisits(lines, choices)| == |choices| * Factorial(FreeCount(lines))
  {
    hide Factorial, ChoiceVisits, FreeCount;
    if choices != [] {
      var init, last := choices[..|choices| - 1], choices[|choices| - 1];
      assert last in choices && forall c :: c in init ==> c in choices;
      ChoicesVisitsSize(lines, init);
      ChoiceVisitsSize(lines, last);
      OneMoreTimes(|init|, Factorial(FreeCount(lines)));
    }
  }

  lemma OneMoreTimes(n: nat, f: nat)
    ensures (n + 1) * f == n * f + f
  {
  }

  lemma LineVisitsSize(lines: Lines)
    ensures |LineVisits(lines)| == Size(lines)
  {
    var choices := CartesianProduct(Options(lines));
    forall c | c in choices ensures |c| == |lines| {
      ProductIff(Options(lines), c);
    }
    ChoicesVisitsSize(lines, choices);
    ProductSize(Options(lines));
  }

  /** The estimate's sum is the number of visits. */
  lemma {:induction false} VisitsSize(selections: seq<Lines>)
    ensures |Visits(selections)| == Sizes(selections)
  {
    hide LineVisits, Size;
    if selections != [] {
      VisitsSize(selections[..|selections| - 1]);
      LineVisitsSize(selections[|selections| - 1]);
    }
  }

  lemma {:induction false} VisitsConcat(a: seq<Lines>, b: seq<Lines>)
    ensures Visits(a + b) == Visits(a) + Visits(b)
    ensures Sizes(a + b) == Sizes(a) + Sizes(b)
  {
    hide LineVisits, Size;
    if b == [] {
      assert a + b == a;
    } else {
      VisitsConcat(a, b[..|b| - 1]);
      assert (a + b)[..|a + b| - 1] == a + b[..|b| - 1];
    }
  }

  // ---------------------------------------------------------------- which guesses

  /** full comes from one token of each line, the free ones in some order between the anchored ones. */
  ghost predicate GuessOf(lines: Lines, full: seq<string>) {
    exists choice: seq<string>, perm: seq<string> :: Guess(lines, choice, perm, full)
  }

  ghost predicate Guess(lines: Lines, choice: seq<string>, perm: seq<string>, full: seq<string>) {
    && Picks(Options(lines), choice)
    && multiset(perm) == multiset(Tokens(lines, choice, Free))
    && full == Tokens(lines, choice, Begin) + perm + Tokens(lines, choice, End)
  }

  /** The lines are the required ones and an admissible number of optional ones, in file order. */
  ghost predicate Admissible(required: Lines, optional: Lines, minTokens: int, maxTokens: int, lines: Lines) {
    exists s: seq<nat> :: Chosen(required, optional, minTokens, maxTokens, s, lines)
  }

  ghost predicate Chosen(required: Lines, optional: Lines, minTokens: int, maxTokens: int, s: seq<nat>, lines: Lines) {
    && Combination(s, 0, |optional|, |s|) && |s| <= maxTokens && (|s| >= minTokens || required != [])
    && lines == required + Picked(optional, s) && lines != []
  }

  lemma ChoiceVisitsIff(lines: Lines, choice: seq<string>, full: seq<string>)
    requires Picks(Options(lines), choice)
    ensures full in ChoiceVisits(lines, choice) <==> exists perm: seq<string> :: Guess(lines, choice, perm, full)
  {
    hide Permutations, Tokens, Picks;
    var free := Tokens(lines, choice, Free);
    var perms, r := Permutations(free), ChoiceVisits(lines, choice);
    if full in r {
      var k :| 0 <= k < |r| && r[k] == full;
      PermutationsIff(free, perms[k]);
      assert Guess(lines, choice, perms[k], full);
    }
    if exists perm: seq<string> :: Guess(lines, choice, perm, full) {
      var perm: seq<string> :| Guess(lines, choice, perm, full);
      PermutationsIff(free, perm);
      var k :| 0 <= k < |perms| && perms[k] == perm;
      assert r[k] == full;
    }
  }

  lemma {:induction false} ChoicesVisitsIff(lines: Lines, choices: seq<seq<string>>, full: seq<string>)
    ensures full in ChoicesVisits(lines, choices) <==> exists c :: c in choices && full in ChoiceVisits(lines, c)
  {
    hide ChoiceVisits;
    if choices != [] {
      var init, last := choices[..|choices| - 1], choices[|choices| - 1];
      assert choices == init + [last];
      ChoicesVisitsIff(lines, init, full);
    }
  }

  lemma LineVisitsIff(lines: Lines, full: seq<string>)
    ensures full in LineVisits(lines) <==> GuessOf(lines, full)
  {
    hide ChoiceVisits, ChoicesVisits, CartesianProduct, Guess;
    var choices := CartesianProduct(Options(lines));
    ChoicesVisitsIff(lines, choices, full);
    if full in LineVisits(lines) {
      var c :| c in choices && full in ChoiceVisits(lines, c);
      ProductIff(Options(lines), c);
      ChoiceVisitsIff(lines, c, full);
    }
    if GuessOf(lines, full) {
      var c: seq<string>, perm: seq<string> :| Guess(lines, c, perm, full);
      GuessPicks(lines, c, perm, full);
      ProductIff(Options(lines), c);
      ChoiceVisitsIff(lines, c, full);
    }
  }

  lemma GuessPicks(lines: Lines, c: seq<string>, perm: seq<string>, full: seq<string>)
    requires Guess(lines, c, perm, full)
    ensures Picks(Options(lines), c)
  {
  }

  lemma {:induction false} VisitsIff(selections: seq<Lines>, full: seq<string>)
    ensures full in Visits(selections) <==> exists lines :: lines in selections && full in LineVisits(lines)
  {
    hide LineVisits;
    if selections != [] {
      var init, last := selections[..|selections| - 1], selections[|selections| - 1];
      assert selections == init + [last];
      VisitsIff(init, full);
    }
  }

  lemma {:induction false} SubsetSelectionsIff(required: Lines, optional: Lines, subsets: seq<seq<nat>>, lines: Lines)
    requires Subsets(subsets, |optional|)
    ensures lines in SubsetSelections(required, optional, subsets)
       <==> lines != [] && exists s :: s in subsets && lines == required + Picked(optional, s)
  {
    hide Picked;
    if subsets != [] {
      var init, last := subsets[..|subsets| - 1], subsets[|subsets| - 1];
      assert subsets == init + [last];
      SubsetSelectionsIff(required, optional, init, lines);
    }
  }

  lemma {:induction false} SelectionsIff(required: Lines, optional: Lines, minTokens: int, n: nat, lines: Lines)
    ensures lines in Selections(required, optional, minTokens, n)
       <==> Admissible(required, optional, minTokens, n - 1, lines)
  {
    hide Level, Chosen;
    if n == 0 {
      NoneAdmissible(required, optional, minTokens, lines);
    } else {
      SelectionsIff(required, optional, minTokens, n - 1, lines);
      LevelIff(required, optional, minTokens, n - 1, lines);
      OneMore(required, optional, minTokens, n - 1, lines);
    }
  }

  lemma NoneAdmissible(required: Lines, optional: Lines, minTokens: int, lines: Lines)
    ensures !Admissible(required, optional, minTokens, -1, lines)
  {
  }

  lemma OneMore(required: Lines, optional: Lines, minTokens: int, most: int, lines: Lines)
    ensures Admissible(required, optional, minTokens, most, lines)
       <==> Admissible(required, optional, minTokens, most - 1, lines)
            || exists s: seq<nat> :: |s| == most && Chosen(required, optional, minTokens, most, s, lines)
  {
    var less := most - 1;
    if s: seq<nat> :| Chosen(required, optional, minTokens, most, s, lines) {
      assert |s| == most || Chosen(required, optional, minTokens, less, s, lines);
    }
    if s: seq<nat> :| Chosen(required, optional, minTokens, less, s, lines) {
      assert Chosen(required, optional, minTokens, most, s, lines);
    }
  }

  lemma LevelIff(required: Lines, optional: Lines, minTokens: int, k: nat, lines: Lines)
    ensures lines in Level(required, optional, minTokens, k)
       <==> exists s: seq<nat> :: |s| == k && Chosen(required, optional, minTokens, k, s, lines)
  {
    hide Combinations, Picked;
    var subsets := Combinations(0, |optional|, k);
    CombinationsSubsets(|optional|, k);
    SubsetSelectionsIff(required, optional, subsets, lines);
    if lines in Level(required, optional, minTokens, k) {
      var s :| s in subsets && lines == required + Picked(optional, s);
      CombinationsIff(0, |optional|, k, s);
      assert Chosen(required, optional, minTokens, k, s, lines);
    }
    if s: seq<nat> :| |s| == k && Chosen(required, optional, minTokens, k, s, lines) {
      CombinationsIff(0, |optional|, k, s);
    }
  }

  /** The visits are exactly the guesses of the admissible selections. */
  lemma AllVisitsIff(required: Lines, optional: Lines, minTokens: int, maxTokens: int, full: seq<string>)
    ensures full in AllVisits(required, optional, minTokens, maxTokens)
       <==> exists lines :: Admissible(required, optional, minTokens, maxTokens, lines) && GuessOf(lines, full)
  {
    hide Selections, Visits, LineVisits, Chosen, GuessOf;
    var n := Levels(optional, maxTokens);
    var selections := Selections(required, optional, minTokens, n);
    VisitsIff(selections, full);
    forall lines ensures lines in selections <==> Admissible(required, optional, minTokens, maxTokens, lines) {
      SelectionsIff(required, optional, minTokens, n, lines);
      LevelsEnough(required, optional, minTokens, maxTokens, lines);
    }
    forall lines ensures full in LineVisits(lines) <==> GuessOf(lines, full) {
      LineVisitsIff(lines, full);
    }
  }

  lemma LevelsEnough(required: Lines, optional: Lines, minTokens: int, maxTokens: int, lines: Lines)
    ensures Admissible(required, optional, minTokens, Levels(optional, maxTokens) - 1, lines)
       <==> Admissible(required, optional, minTokens, maxTokens, lines)
  {
    var most := Levels(optional, maxTokens) - 1;
    forall s: seq<nat>
      ensures Chosen(required, optional, minTokens, most, s, lines)
         <==> Chosen(required, optional, minTokens, maxTokens, s, lines)
    {
      if Combination(s, 0, |optional|, |s|) {
        CombinationShort(s, |optional|);
      }
    }
  }

  /** An ascending sequence below n has at most n elements. */
  lemma {:induction false} CombinationShort(s: seq<nat>, n: nat)
    requires Combination(s, 0, n, |s|)
    ensures |s| <= n
  {
    if s != [] {
      CombinationShort(s[..|s| - 1], s[|s| - 1]);
    }
  }

  /**
   Every selection that is visited has at least the documented minimum of optional lines if and
   only if no line is required, or the minimum is not positive, or no number of lines is tried.
   */
  lemma MinimumKeptIff(required: Lines, optional: Lines, minTokens: int, maxTokens: int)
    ensures (forall s, lines :: Chosen(required, optional, minTokens, maxTokens, s, lines) ==> |s| >= minTokens)
       <==> required == [] || minTokens <= 0 || maxTokens < 0
  {
    if required != [] && minTokens > 0 && maxTokens >= 0 {
      assert Picked(optional, []) == [];
      assert Chosen(required, optional, minTokens, maxTokens, [], required);
    }
  }

  lemma OneToken(line: TokenLine, token: string, a: Anchor)
    ensures Tokens([line], [token], a) == if AnchorOf(line) == a then [token] else []
  {
    hide AnchorOf;
    assert [line][1..] == [] && [token][1..] == [] && Tokens([], [], a) == [];
  }

  /** A line with one free token is a guess by itself. */
  lemma AloneGuess(line: TokenLine, token: string)
    requires line.options == [token] && AnchorOf(line) == Free
    ensures GuessOf([line], [token])
  {
    OneToken(line, token, Free);
    OneToken(line, token, Begin);
    OneToken(line, token, End);
    hide Tokens, AnchorOf;
    assert Options([line]) == [[token]];
    assert [] + [token] + [] == [token];
    assert Guess([line], [token], [token], [token]);
  }

  /** A required line is a selection by itself, whatever the minimum. */
  lemma AloneAdmissible(line: TokenLine, optional: Lines, minTokens: int, maxTokens: int)
    requires maxTokens >= 0
    ensures Admissible([line], optional, minTokens, maxTokens, [line])
  {
    assert Picked(optional, []) == [];
    assert Chosen([line], optional, minTokens, maxTokens, [], [line]);
  }

  /** One required and one optional line: with a minimum of one the required token alone is visited. */
  lemma MinimumBroken()
    ensures var a, b := TokenLine(true, ["a"], false, false), TokenLine(false, ["b"], false, false);
      ["a"] in AllVisits([a], [b], 1, 3)
  {
    hide AllVisits, Admissible, GuessOf;
    var a, b := TokenLine(true, ["a"], false, false), TokenLine(false, ["b"], false, false);
    AloneGuess(a, "a");
    AloneAdmissible(a, [b], 1, 3);
    AllVisitsIff([a], [b], 1, 3, ["a"]);
  }

  // ---------------------------------------------------------------- where the tokens stand

  /** How many lines are anchored at the beginning. */
  function BeginLines(lines: Lines): nat {
    if lines == [] then 0 else (if lines[0].begin then 1 else 0) + BeginLines(lines[1..])
  }

  /** How many lines are anchored at the end alone. */
  function EndLines(lines: Lines): nat {
    if lines == [] then 0 else (if !lines[0].begin && lines[0].end then 1 else 0) + EndLines(lines[1..])
  }

  /** The first line's token goes in front of those with the same anchor. */
  lemma TokensCons(lines: Lines, choice: seq<string>, a: Anchor)
    requires lines != [] && choice != []
    ensures Tokens(lines, choice, a)
         == (if AnchorOf(lines[0]) == a then [choice[0]] else []) + Tokens(lines[1..], choice[1..], a)
  {
  }

  lemma {:induction false} TokensCounted(lines: Lines, choice: seq<string>)
    requires |lines| == |choice|
    ensures |Tokens(lines, choice, Begin)| == BeginLines(lines) && |Tokens(lines, choice, End)| == EndLines(lines)
  {
    if lines != [] {
      TokensCounted(lines[1..], choice[1..]);
      TokensCons(lines, choice, Begin);
      TokensCons(lines, choice, End);
      hide Tokens;
    }
  }

  function All(lines: Lines, choice: seq<string>): multiset<string> {
    multiset(Tokens(lines, choice, Begin)) + multiset(Tokens(lines, choice, Free)) + multiset(Tokens(lines, choice, End))
  }

  lemma AllCons(lines: Lines, choice: seq<string>)
    requires lines != [] && choice != []
    ensures All(lines, choice) == multiset{choice[0]} + All(lines[1..], choice[1..])
  {
    TokensCons(lines, choice, Begin);
    TokensCons(lines, choice, Free);
    TokensCons(lines, choice, End);
    hide Tokens;
  }

  lemma {:induction false} AllTokens(lines: Lines, choice: seq<string>)
    requires |lines| == |choice|
    ensures multiset(choice) == All(lines, choice)
  {
    if lines != [] {
      AllTokens(lines[1..], choice[1..]);
      AllCons(lines, choice);
      HeadMultiset(choice);
      hide All;
    }
  }

  lemma {:induction false} BeginAt(lines: Lines, choice: seq<string>, k: nat)
    requires |lines| == |choice| && k < |lines| && lines[k].begin
    ensures var t := Tokens(lines, choice, Begin); var n := BeginLines(lines[..k]);
      n < |t| && t[n] == choice[k]
  {
    if k > 0 {
      BeginAt(lines[1..], choice[1..], k - 1);
      assert lines[..k][1..] == lines[1..][..k - 1];
    } else {
      assert lines[..0] == [];
    }
  }

  lemma {:induction false} EndAt(lines: Lines, choice: seq<string>, k: nat)
    requires |lines| == |choice| && k < |lines| && !lines[k].begin && lines[k].end
    ensures var t := Tokens(lines, choice, End); var n := EndLines(lines[k..]);
      0 < n <= |t| && t[|t| - n] == choice[k]
  {
    TokensCons(lines, choice, End);
    if k > 0 {
      EndAt(lines[1..], choice[1..], k - 1);
      hide Tokens, EndLines;
      assert lines[1..][k - 1..] == lines[k..];
    } else {
      assert lines[0..] == lines;
      TokensCounted(lines, choice);
      hide Tokens;
    }
  }

  /**
   In a guess the tokens of the lines anchored at the beginning come first, in line order, those
   of the lines anchored at the end alone come last, in line order, and every line has its token.
   */
  lemma AnchoredPlaces(lines: Lines, choice: seq<string>, perm: seq<string>, full: seq<string>, k: nat)
    requires Guess(lines, choice, perm, full) && k < |lines|
    ensures multiset(full) == multiset(choice) && |full| == |choice| == |lines| && choice[k] in lines[k].options
    ensures lines[k].begin ==> BeginLines(lines[..k]) < |full| && full[BeginLines(lines[..k])] == choice[k]
    ensures !lines[k].begin && lines[k].end ==>
              0 < EndLines(lines[k..]) <= |full| && full[|full| - EndLines(lines[k..])] == choice[k]
  {
    hide Tokens, BeginLines, EndLines;
    TokensCounted(lines, choice);
    AllTokens(lines, choice);
    assert |multiset(full)| == |full| && |multiset(choice)| == |choice|;
    if lines[k].begin {
      BeginAt(lines, choice, k);
    } else if lines[k].end {
      EndAt(lines, choice, k);
    }
  }
}
