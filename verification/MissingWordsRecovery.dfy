/** recover_missing_words: input checks, the chunk loop and the cap on what is returned. */
module MissingWordsRecovery {
  import opened Arrangements
  import opened Bytes
  import opened Itertools
  import opened ProductOrder
  import opened Trials
  import opened Wrappers
  import opened MissingWords
  import opened MissingWordsSearch
  import Bip39

  const MAX_MISSING_WORDS := 2
  const SEARCH_SPACE_CAP := 4_200_000

  datatype Outcome =
    | Empty
    | BadLimit
    | TooManyUnknowns(count: nat)
    | NotInList(invalid: seq<Word>)
    | NoMatch(position: nat)
    | TooLarge(total: nat)
    | Done(candidates: seq<Phrase>, checked: nat, passed: nat, truncated: bool, searchSpace: nat)

  /** The first cap elements; all of them when there is no cap. */
  function Cut<T>(s: seq<T>, cap: nat): seq<T> {
    if cap > 0 && |s| > cap then s[..cap] else s
  }

  /** The merge loop: stops at the candidate that reaches the cap. */
  method MergeCapped(candidates: seq<Phrase>, more: seq<Phrase>, cap: nat)
      returns (merged: seq<Phrase>, truncated: bool)
    requires Distinct(candidates + more) && (cap > 0 ==> |candidates| < cap)
    ensures merged == Cut(candidates + more, cap)
    ensures truncated <==> cap > 0 && |candidates + more| >= cap
  {
    merged, truncated := candidates, false;
    for i := 0 to |more|
      invariant merged == candidates + more[..i] && (cap > 0 ==> |merged| < cap) && !truncated
    {
      assert (candidates + more)[|candidates| + i] == more[i];
      assert more[i] !in merged by {
        forall k | 0 <= k < |merged| ensures merged[k] != more[i] {
          assert merged[k] == (candidates + more)[k];
        }
      }
      if more[i] !in merged {
        merged := merged + [more[i]];
        if cap > 0 && |merged| >= cap {
          truncated := true;
          assert merged == (candidates + more)[..cap];
          return;
        }
      }
    }
  }

  lemma CutPrefix<T>(a: seq<T>, b: seq<T>, cap: nat)
    requires cap > 0 && |a| >= cap
    ensures Cut(a + b, cap) == Cut(a, cap)
  {
    assert (a + b)[..cap] == a[..cap];
  }

  /** The hits among the fillings of a list of first words. */
  function HitsOf(template: Phrase, positions: seq<nat>, firsts: seq<Word>, rest: seq<seq<Word>>,
                  valid: Phrase -> bool, accept: Phrase -> bool): seq<Phrase>
    requires InRange(positions, |template|) && |positions| == |rest| + 1
  {
    ChunkFillingsSize(firsts, rest, |positions|);
    Collected(template, positions, ChunkFillings(firsts, rest), valid, accept)
  }

  /** How many fillings of a list of first words pass the checksum test. */
  function PassedOf(template: Phrase, positions: seq<nat>, firsts: seq<Word>, rest: seq<seq<Word>>,
                    valid: Phrase -> bool): nat
    requires InRange(positions, |template|) && |positions| == |rest| + 1
  {
    ChunkFillingsSize(firsts, rest, |positions|);
    CountValid(template, positions, ChunkFillings(firsts, rest), valid)
  }

  lemma HitsConcat(template: Phrase, positions: seq<nat>, a: seq<Word>, b: seq<Word>, rest: seq<seq<Word>>,
                   valid: Phrase -> bool, accept: Phrase -> bool)
    requires Slots(template, positions) && |positions| == |rest| + 1
    ensures HitsOf(template, positions, a + b, rest, valid, accept)
         == HitsOf(template, positions, a, rest, valid, accept) + HitsOf(template, positions, b, rest, valid, accept)
    ensures PassedOf(template, positions, a + b, rest, valid)
         == PassedOf(template, positions, a, rest, valid) + PassedOf(template, positions, b, rest, valid)
    ensures |ChunkFillings(a + b, rest)| == |ChunkFillings(a, rest)| + |ChunkFillings(b, rest)|
  {
    hide Collected, CountValid, Spread, CartesianProduct;
    ChunkFillingsSize(a, rest, |positions|);
    ChunkFillingsSize(b, rest, |positions|);
    SpreadConcat(a, b, CartesianProduct(rest));
    CollectedConcat(template, positions, ChunkFillings(a, rest), ChunkFillings(b, rest), valid, accept);
    CountValidConcat(template, positions, ChunkFillings(a, rest), ChunkFillings(b, rest), valid);
  }

  lemma HitsDistinct(template: Phrase, positions: seq<nat>, firsts: seq<Word>, rest: seq<seq<Word>>,
                     valid: Phrase -> bool, accept: Phrase -> bool)
    requires Slots(template, positions) && |positions| == |rest| + 1 && Distinct(ChunkFillings(firsts, rest))
    ensures Distinct(HitsOf(template, positions, firsts, rest, valid, accept))
  {
    ChunkFillingsSize(firsts, rest, |positions|);
    CollectedDistinct(template, positions, ChunkFillings(firsts, rest), valid, accept);
  }

  lemma ChunkDistinct(firsts: seq<Word>, i: nat, j: nat, rest: seq<seq<Word>>)
    requires i <= j <= |firsts| && Distinct(ChunkFillings(firsts, rest))
    ensures Distinct(ChunkFillings(firsts[..j], rest)) && Distinct(ChunkFillings(firsts[i..j], rest))
    ensures firsts[..j] == firsts[..i] + firsts[i..j] && firsts == firsts[..j] + firsts[j..]
  {
    hide Distinct, Spread, CartesianProduct;
    var ts := CartesianProduct(rest);
    SpreadConcat(firsts[..i], firsts[i..j], ts);
    SpreadConcat(firsts[..j], firsts[j..], ts);
    assert firsts[..j] == firsts[..i] + firsts[i..j] && firsts == firsts[..j] + firsts[j..];
    DistinctPrefix(Spread(firsts[..j], ts), Spread(firsts[j..], ts));
    DistinctSuffix(Spread(firsts[..i], ts), Spread(firsts[i..j], ts));
  }

  lemma DistinctSuffix<T>(a: seq<T>, b: seq<T>)
    requires Distinct(a + b)
    ensures Distinct(b)
  {
    forall i, j | 0 <= i < j < |b| ensures b[i] != b[j] {
      assert (a + b)[|a| + i] != (a + b)[|a| + j];
    }
  }

  /** What the chunk loop has when the first `done` first words have been gone through. */
  ghost predicate Progress(template: Phrase, positions: seq<nat>, firsts: seq<Word>, rest: seq<seq<Word>>,
                           valid: Phrase -> bool, done: nat, checked: nat, passed: nat) {
    && InRange(positions, |template|) && |positions| == |rest| + 1 && done <= |firsts|
    && checked == |ChunkFillings(firsts[..done], rest)|
    && passed == PassedOf(template, positions, firsts[..done], rest, valid)
  }

  /** The chunk loop. */
  method RunChunks(sha: Bip39.Hash, m: Ranks, template: Phrase, positions: seq<nat>, firsts: seq<Word>,
                   rest: seq<seq<Word>>, accept: Phrase -> bool, cap: nat)
      returns (candidates: seq<Phrase>, checked: nat, passed: nat, truncated: bool, ghost done: nat)
    requires Bip39.GoodLength(|template|) && SmallRanks(m) && Known(m, firsts) && AllKnown(m, rest)
    requires Slots(template, positions) && |positions| == |rest| + 1
    requires Distinct(ChunkFillings(firsts, rest))
    ensures var hits := HitsOf(template, positions, firsts, rest, ChecksumTest(sha, m, |template|), accept);
      candidates == Cut(hits, cap) && (truncated <==> cap > 0 && |hits| >= cap)
    ensures Progress(template, positions, firsts, rest, ChecksumTest(sha, m, |template|), done, checked, passed)
    ensures !truncated ==> done == |firsts|
  {
    hide ChecksumTest, ChunkFillings, Distinct, HitsOf, PassedOf, Totals;
    ghost var valid := ChecksumTest(sha, m, |template|);
    candidates, checked, passed, truncated, done := [], 0, 0, false, 0;
    var chunkSize := if |positions| == 1 then 256 else 64;
    NothingDone(template, positions, firsts, rest, valid, accept);
    var i := 0;
    while i < |firsts|
      invariant i <= |firsts| && done == i && !truncated && (cap > 0 ==> |candidates| < cap)
      invariant candidates == HitsOf(template, positions, firsts[..i], rest, valid, accept)
      invariant Progress(template, positions, firsts, rest, valid, i, checked, passed)
    {
      var j := Min(i + chunkSize, |firsts|);
      var chunk := firsts[i..j];
      ChunkDistinct(firsts, i, j, rest);
      var more, moreChecked, morePassed := RecoverChunk(sha, m, template, positions, chunk, rest, accept);
      ChunkParts(template, positions, chunk, rest, valid, accept, more, moreChecked, morePassed);
      HitsConcat(template, positions, firsts[..i], chunk, rest, valid, accept);
      HitsConcat(template, positions, firsts[..j], firsts[j..], rest, valid, accept);
      HitsDistinct(template, positions, firsts[..j], rest, valid, accept);
      checked, passed := checked + moreChecked, passed + morePassed;
      ghost var found := candidates + more;
      candidates, truncated := MergeCapped(candidates, more, cap);
      done := j;
      if truncated {
        CutPrefix(found, HitsOf(template, positions, firsts[j..], rest, valid, accept), cap);
        return;
      }
      i := j;
    }
    assert firsts[..|firsts|] == firsts;
  }

  lemma NothingDone(template: Phrase, positions: seq<nat>, firsts: seq<Word>, rest: seq<seq<Word>>,
                    valid: Phrase -> bool, accept: Phrase -> bool)
    requires Slots(template, positions) && |positions| == |rest| + 1
    ensures HitsOf(template, positions, firsts[..0], rest, valid, accept) == []
    ensures Progress(template, positions, firsts, rest, valid, 0, 0, 0)
  {
  }

  lemma ChunkParts(template: Phrase, positions: seq<nat>, chunk: seq<Word>, rest: seq<seq<Word>>,
                   valid: Phrase -> bool, accept: Phrase -> bool, more: seq<Phrase>, checked: nat, passed: nat)
    requires |positions| == |rest| + 1
    requires Totals(template, positions, ChunkFillings(chunk, rest), valid, accept, more, checked, passed)
    ensures more == HitsOf(template, positions, chunk, rest, valid, accept)
    ensures checked == |ChunkFillings(chunk, rest)| && passed == PassedOf(template, positions, chunk, rest, valid)
  {
    hide Collected, CountValid, Spread, CartesianProduct;
    TotalsParts(template, positions, ChunkFillings(chunk, rest), valid, accept, more, checked, passed);
  }

  // ---------------------------------------------------------------- input checks

  predicate Patterned(words: Phrase) {
    exists w :: w in words && WILDCARD in w
  }

  /** The fixed words that the list does not have, in order. */
  function InvalidWords(list: seq<Word>, words: Phrase): (bad: seq<Word>)
    ensures forall w :: w in bad <==> w in words && !Variable(w) && w !in list
  {
    if words == [] then []
    else
      var init, last := words[..|words| - 1], words[|words| - 1];
      assert words == init + [last];
      InvalidWords(list, init) + (if !Variable(last) && last !in list then [last] else [])
  }

  /** The candidate lists, unless some pattern matches nothing. */
  method BuildChoices(list: seq<Word>, words: Phrase, positions: seq<nat>)
      returns (choices: seq<seq<Word>>, unmatched: Option<nat>)
    requires Distinct(list) && InRange(positions, |words|)
    ensures unmatched.None? ==> choices == Choices(list, words, positions) && forall c :: c in choices ==> c != []
    ensures unmatched.Some? ==> unmatched.value in positions && Selected(list, Normal(words[unmatched.value])) == []
  {
    choices := [];
    for i := 0 to |positions|
      invariant choices == Choices(list, words, positions)[..i] && forall c :: c in choices ==> c != []
    {
      var c := ExpandPattern(words[positions[i]], list);
      if c == [] {
        return choices, Some(positions[i]);
      }
      choices := choices + [c];
    }
    unmatched := None;
  }

  /** The product loop. */
  method CountCombinations(choices: seq<seq<Word>>) returns (total: nat)
    ensures total == SizeProduct(choices) == |CartesianProduct(choices)|
  {
    total := 1;
    for i := 0 to |choices|
      invariant total == SizeProduct(choices[..i])
    {
      assert choices[..i + 1][..i] == choices[..i];
      total := total * |choices[i]|;
    }
    assert choices[..|choices|] == choices;
    ProductSize(choices);
  }

  /** Not too many unknown words, unless there is a pattern, and the fixed ones from the list. */
  predicate WordsFit(list: seq<Word>, words: Phrase, maxUnknowns: int) {
    && (Patterned(words) || |VariablePositions(words)| <= maxUnknowns)
    && (forall w :: w in words ==> Variable(w) || w in list)
  }

  /** The phrases with variable tokens that are searched. */
  predicate Searchable(list: seq<Word>, words: Phrase, maxUnknowns: int) {
    var p := VariablePositions(words);
    && WordsFit(list, words, maxUnknowns)
    && (forall k :: k in p ==> Selected(list, Normal(words[k])) != [])
    && SizeProduct(Choices(list, words, p)) <= 4_200_000
  }

  lemma NoneSelected(list: seq<Word>, t: Word)
    requires Selected(list, t) == []
    ensures forall w :: w in list ==> !Matches(t, w)
  {
    forall w | w in list ensures !Matches(t, w) {
      SelectedIff(list, t, w);
    }
  }

  /** The checks of the words alone. */
  method CheckWords(list: seq<Word>, words: Phrase, positions: seq<nat>, maxUnknowns: int) returns (failure: Option<Outcome>)
    requires positions == VariablePositions(words)
    ensures failure.None? <==> WordsFit(list, words, maxUnknowns)
    ensures failure.Some? ==>
      var f := failure.value; !f.Empty? && !f.BadLimit? && !f.Done? && FailureFits(f, list, words, maxUnknowns)
  {
    hide Normal, Choices, Selected, Matches, SizeProduct, Variable;
    if !Patterned(words) && |positions| > maxUnknowns {
      return Some(TooManyUnknowns(|positions|));
    }
    var invalid := InvalidWords(list, words);
    if invalid != [] {
      assert invalid[0] in invalid;
      return Some(NotInList(invalid));
    }
    failure := None;
  }

  /** The checks before the search, in their order: the candidate lists or the first failure. */
  method Prepare(list: seq<Word>, words: Phrase, maxUnknowns: int)
      returns (failure: Option<Outcome>, choices: seq<seq<Word>>, total: nat)
    requires Distinct(list)
    ensures failure.None? <==> Searchable(list, words, maxUnknowns)
    ensures failure.None? ==>
      choices == Choices(list, words, VariablePositions(words)) && total == SizeProduct(choices) == |CartesianProduct(choices)|
    ensures failure.Some? ==>
      var f := failure.value; !f.Empty? && !f.BadLimit? && !f.Done? && FailureFits(f, list, words, maxUnknowns)
  {
    hide Normal, Choices, Selected, Matches, SizeProduct, CartesianProduct, Variable, Patterned, WordsFit;
    choices, total := [], 0;
    var positions := VariablePositions(words);
    failure := CheckWords(list, words, positions, maxUnknowns);
    if failure.Some? {
      return;
    }
    var unmatched;
    choices, unmatched := BuildChoices(list, words, positions);
    if unmatched.Some? {
      NoneSelected(list, Normal(words[unmatched.value]));
      return Some(NoMatch(unmatched.value)), choices, total;
    }
    ChoicesAt(list, words, positions);
    total := CountCombinations(choices);
    failure := if total > SEARCH_SPACE_CAP then Some(TooLarge(total)) else None;
  }

  /** What an error says of the input. */
  ghost predicate FailureFits(r: Outcome, list: seq<Word>, words: Phrase, maxUnknowns: int) {
    match r
    case TooManyUnknowns(count) =>
      count == |VariablePositions(words)| && count > maxUnknowns && forall w :: w in words ==> WILDCARD !in w
    case NotInList(invalid) =>
      invalid != [] && forall w :: w in invalid <==> w in words && !Variable(w) && w !in list
    case NoMatch(position) =>
      position < |words| && Variable(words[position]) && forall w :: w in list ==> !Matches(Normal(words[position]), w)
    case TooLarge(total) =>
      total == SizeProduct(Choices(list, words, VariablePositions(words))) && total > 4_200_000
    case _ => true
  }

  /** What a finished search returns: the hits in order, cut at the cap. */
  ghost predicate SearchFits(r: Outcome, sha: Bip39.Hash, list: seq<Word>, words: Phrase, maxReturned: int,
                             accept: Phrase -> bool, done: nat)
    requires r.Done? && Distinct(list) && Bip39.GoodLength(|words|)
  {
    var valid := ChecksumTest(sha, RankMap(list), |words|);
    var hits := AllHits(list, words, valid, accept);
    var p := VariablePositions(words);
    var choices := Choices(list, words, p);
    && r.candidates == Cut(hits, if maxReturned > 0 then maxReturned else 0)
    && (r.truncated <==> maxReturned > 0 && |hits| >= maxReturned)
    && r.searchSpace == SizeProduct(choices)
    && choices != []
    && Progress(words, p, choices[0], choices[1..], valid, done, r.checked, r.passed)
    && (!r.truncated ==> r.checked == r.searchSpace)
  }

  lemma ChoicesAt(list: seq<Word>, words: Phrase, positions: seq<nat>)
    requires InRange(positions, |words|)
    ensures var c := Choices(list, words, positions);
      (forall x :: x in c ==> x != []) <==> (forall k :: k in positions ==> Selected(list, Normal(words[k])) != [])
  {
    hide Selected, Normal;
    var c := Choices(list, words, positions);
    if forall x :: x in c ==> x != [] {
      forall k | k in positions ensures Selected(list, Normal(words[k])) != [] {
        var i :| 0 <= i < |positions| && positions[i] == k;
        assert c[i] in c;
      }
    }
  }

  /** The chunk loop's requirements hold of the candidate lists. */
  lemma SearchReady(list: seq<Word>, words: Phrase)
    requires Distinct(list) && |list| <= 2048 && VariablePositions(words) != []
    ensures var m, p := RankMap(list), VariablePositions(words);
      var choices := Choices(list, words, p);
      && SmallRanks(m) && Slots(words, p) && |choices| == |p| > 0
      && Known(m, choices[0]) && AllKnown(m, choices[1..])
      && ChunkFillings(choices[0], choices[1..]) == CartesianProduct(choices)
      && Distinct(CartesianProduct(choices))
  {
    hide Normal, Selected, RanksOf, Less, Spread;
    var m, p := RankMap(list), VariablePositions(words);
    var rank := RankBy(m);
    var choices := Choices(list, words, p);
    AscendingSlots(words, p);
    forall w | w in m ensures m[w] < 2048 {
      var i :| 0 <= i < |list| && list[i] == w;
    }
    forall i | 0 <= i < |choices| ensures Known(m, choices[i]) && RankIncreasing(rank, choices[i]) {
      forall w | w in choices[i] ensures w in m {
        SelectedIff(list, Normal(words[p[i]]), w);
      }
      SelectedIncreasing(rank, list, Normal(words[p[i]]));
    }
    ProductIncreasing(rank, choices);
    IncreasingDistinct(rank, CartesianProduct(choices));
  }

  lemma SearchDone(r: Outcome, sha: Bip39.Hash, list: seq<Word>, words: Phrase, maxReturned: int,
                   accept: Phrase -> bool, done: nat)
    requires r.Done? && Distinct(list) && |list| <= 2048 && Bip39.GoodLength(|words|)
    requires VariablePositions(words) != []
    requires var p, valid := VariablePositions(words), ChecksumTest(sha, RankMap(list), |words|);
      var choices := Choices(list, words, p);
      var hits := HitsOf(words, p, choices[0], choices[1..], valid, accept);
      && r.searchSpace == SizeProduct(choices) == |CartesianProduct(choices)|
      && r.candidates == Cut(hits, if maxReturned > 0 then maxReturned else 0)
      && (r.truncated <==> maxReturned > 0 && |hits| >= maxReturned)
      && Progress(words, p, choices[0], choices[1..], valid, done, r.checked, r.passed)
      && (!r.truncated ==> done == |choices[0]|)
    ensures SearchFits(r, sha, list, words, maxReturned, accept, done)
  {
    hide Choices, ChecksumTest, Collected, CountValid;
    SearchReady(list, words);
    var choices := Choices(list, words, VariablePositions(words));
    assert choices[0][..|choices[0]|] == choices[0];
  }

  /** The search proper, for a phrase that has variable tokens. */
  method SearchMissing(sha: Bip39.Hash, list: seq<Word>, words: Phrase, maxUnknowns: int, maxReturned: int,
                       accept: Phrase -> bool) returns (r: Outcome, ghost done: nat)
    requires Distinct(list) && |list| <= 2048
    requires VariablePositions(words) != [] && Bip39.GoodLength(|words|)
    ensures r.Done? <==> Searchable(list, words, maxUnknowns)
    ensures !r.Empty? && !r.BadLimit? && FailureFits(r, list, words, maxUnknowns)
    ensures r.Done? ==> SearchFits(r, sha, list, words, maxReturned, accept, done)
  {
    hide Normal, Choices, Selected, ChecksumTest, AllHits, SmallRanks, Searchable, HitsOf, Progress, ChunkFillings, Distinct;
    var failure, choices, total := Prepare(list, words, maxUnknowns);
    if failure.Some? {
      return failure.value, 0;
    }
    var cap := if maxReturned > 0 then maxReturned else 0;
    SearchReady(list, words);
    var candidates, checked, passed, truncated;
    candidates, checked, passed, truncated, done :=
      RunChunks(sha, RankMap(list), words, VariablePositions(words), choices[0], choices[1..], accept, cap);
    r := Done(candidates, checked, passed, truncated, total);
    SearchDone(r, sha, list, words, maxReturned, accept, done);
  }

  /**
   recover_missing_words on the tokens of the normalised phrase. `wellFormed` is the library's
   own phrase validation, used when there is nothing to fill in.
   */
  method RecoverMissingWords(sha: Bip39.Hash, list: seq<Word>, words: Phrase, maxUnknowns: int, maxReturned: int,
                             wellFormed: Phrase -> bool, accept: Phrase -> bool)
      returns (r: Outcome, ghost done: nat)
    requires Distinct(list) && |list| <= 2048
    requires VariablePositions(words) != [] ==> Bip39.GoodLength(|words|)
    ensures r.Empty? <==> words == []
    ensures r.BadLimit? <==> words != [] && !(1 <= maxUnknowns <= 2)
    ensures r.Done? <==> words != [] && 1 <= maxUnknowns <= 2
                         && (VariablePositions(words) == [] || Searchable(list, words, maxUnknowns))
    ensures FailureFits(r, list, words, maxUnknowns)
    ensures r.Done? && VariablePositions(words) == [] ==>
              r == Done(if wellFormed(words) && accept(words) then [words] else [], 1,
                        if wellFormed(words) then 1 else 0, false, 1)
    ensures r.Done? && VariablePositions(words) != [] ==>
              SearchFits(r, sha, list, words, maxReturned, accept, done)
  {
    hide SearchFits, Searchable;
    done := 0;
    if words == [] {
      return Empty, done;
    }
    if maxUnknowns < 1 || maxUnknowns > MAX_MISSING_WORDS {
      return BadLimit, done;
    }
    if VariablePositions(words) == [] {
      var v := wellFormed(words);
      var candidates := if v then [words] else [];
      if candidates != [] && !accept(candidates[0]) {
        candidates := [];
      }
      return Done(candidates, 1, if v then 1 else 0, false, 1), done;
    }
    r, done := SearchMissing(sha, list, words, maxUnknowns, maxReturned, accept);
  }
}
