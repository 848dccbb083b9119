/**
 recover_missing_words: what a phrase with "?" and "*" tokens stands for.

 A phrase is the sequence of its words; `accept` is the optional address test on a full phrase.
 Word lists are given in sorted order, so rank order is alphabetical order.
 */
module MissingWords {
  import opened Arrangements
  import opened Itertools
  import opened ProductOrder
  import opened Trials
  import opened Text
  import Bip39

  type Word = string
  type Phrase = seq<Word>
  type Ranks = map<Word, nat>

  const UNKNOWN: Word := "?"
  const WILDCARD := '*'

  // ---------------------------------------------------------------- patterns

  predicate Variable(t: Word) {
    t == UNKNOWN || WILDCARD in t
  }

  /** What comes before the first wildcard. */
  function Before(t: Word): Word {
    if t == "" || t[0] == WILDCARD then "" else [t[0]] + Before(t[1..])
  }

  /** What comes after the last wildcard. */
  function After(t: Word): Word {
    if t == "" || t[|t| - 1] == WILDCARD then "" else After(t[..|t| - 1]) + [t[|t| - 1]]
  }

  lemma {:induction false} BeforeIsPrefix(t: Word)
    requires WILDCARD in t
    ensures Before(t) + [WILDCARD] <= t && WILDCARD !in Before(t)
  {
    if t[0] != WILDCARD {
      assert t == [t[0]] + t[1..];
      BeforeIsPrefix(t[1..]);
    }
  }

  predicate EndsWith(w: Word, s: Word) {
    |s| <= |w| && w[|w| - |s|..] == s
  }

  lemma {:induction false} AfterIsSuffix(t: Word)
    requires WILDCARD in t
    ensures EndsWith(t, [WILDCARD] + After(t)) && WILDCARD !in After(t)
  {
    var init, last := t[..|t| - 1], t[|t| - 1];
    assert t == init + [last];
    if last == WILDCARD {
      assert t[|t| - 1..] == [WILDCARD];
    } else {
      AfterIsSuffix(init);
      var s := [WILDCARD] + After(init);
      assert t[|t| - |s| - 1..] == init[|init| - |s|..] + [last] == s + [last];
      assert [WILDCARD] + After(t) == s + [last];
    }
  }

  /** The words that a token stands for. Text between two wildcards is not looked at. */
  predicate Matches(t: Word, w: Word) {
    if t == UNKNOWN then true
    else if WILDCARD in t then Before(t) <= w && EndsWith(w, After(t))
    else w == t
  }

  function Selected(list: seq<Word>, t: Word): seq<Word> {
    if list == [] then []
    else
      var last := list[|list| - 1];
      Selected(list[..|list| - 1], t) + (if Matches(t, last) then [last] else [])
  }

  lemma {:induction false} SelectedIff(list: seq<Word>, t: Word, w: Word)
    ensures w in Selected(list, t) <==> w in list && Matches(t, w)
  {
    hide Matches;
    if list != [] {
      var init, last := list[..|list| - 1], list[|list| - 1];
      assert list == init + [last];
      SelectedIff(init, t, w);
    }
  }

  /** The positions of the variable tokens, ascending. */
  function VariablePositions(words: Phrase): (p: seq<nat>)
    ensures Ascending(p) && InRange(p, |words|)
    ensures forall k :: k in p <==> 0 <= k < |words| && Variable(words[k])
  {
    if words == [] then []
    else
      var p := VariablePositions(words[..|words| - 1]);
      assert forall i :: 0 <= i < |p| ==> p[i] in p;
      p + (if Variable(words[|words| - 1]) then [|words| - 1] else [])
  }

  /** What _expand_pattern makes of a token first: token.lower().strip(). */
  function Normal(token: Word): Word {
    Strip(Lower(token))
  }

  /** The candidate lists of the variable positions. */
  function Choices(list: seq<Word>, words: Phrase, positions: seq<nat>): (lists: seq<seq<Word>>)
    requires InRange(positions, |words|)
    ensures |lists| == |positions|
  {
    seq(|positions|, i requires 0 <= i < |positions| => Selected(list, Normal(words[positions[i]])))
  }

  // ---------------------------------------------------------------- ranks

  /** _build_word_index_map. */
  function RankMap(list: seq<Word>): (m: Ranks)
    requires Distinct(list)
    ensures forall w :: w in m <==> w in list
    ensures forall i :: 0 <= i < |list| ==> list[i] in m && m[list[i]] == i
  {
    map i: nat | i < |list| :: list[i] := i
  }

  function Rank(m: Ranks, w: Word): nat {
    if w in m then m[w] else 0
  }

  function RankBy(m: Ranks): Word -> nat {
    w => Rank(m, w)
  }

  function Indices(m: Ranks, ws: Phrase): (idx: seq<nat>)
    ensures |idx| == |ws|
    ensures forall k :: 0 <= k < |ws| ==> idx[k] == Rank(m, ws[k])
  {
    RanksOf(RankBy(m), ws)
  }

  /** The checksum test of a phrase. */
  function ChecksumTest(sha: Bip39.Hash, m: Ranks, n: nat): Phrase -> bool
    requires Bip39.GoodLength(n)
  {
    ws => Bip39.Valid(sha, Indices(m, ws), n)
  }

  // ---------------------------------------------------------------- the hits

  lemma {:induction false} SelectedIncreasing(rank: Word -> nat, list: seq<Word>, t: Word)
    requires RankIncreasing(rank, list)
    ensures RankIncreasing(rank, Selected(list, t))
  {
    hide Matches;
    if list != [] {
      var init, last := list[..|list| - 1], list[|list| - 1];
      SelectedIncreasing(rank, init, t);
      forall w | w in Selected(init, t) ensures rank(w) < rank(last) {
        SelectedIff(init, t, w);
        var i :| 0 <= i < |init| && init[i] == w;
        assert list[i] == w;
      }
      var s := Selected(init, t);
      assert forall i :: 0 <= i < |s| ==> s[i] in s;
    }
  }

  /** c is the phrase with every variable token replaced by a listed word that it matches. */
  predicate Fits(list: seq<Word>, words: Phrase, c: Phrase) {
    |c| == |words| && forall k :: 0 <= k < |words| ==> FitsAt(list, words[k], c[k])
  }

  predicate FitsAt(list: seq<Word>, t: Word, w: Word) {
    if Variable(t) then w in list && Matches(Normal(t), w) else w == t
  }

  lemma PatchFits(list: seq<Word>, words: Phrase, f: Phrase)
    requires var p := VariablePositions(words); |f| == |p| && Picks(Choices(list, words, p), f)
    ensures var p := VariablePositions(words); Slots(words, p) && Fits(list, words, Patch(words, p, f))
  {
    hide Patch, Matches, Variable, Normal;
    var p := VariablePositions(words);
    AscendingSlots(words, p);
    PatchAt(words, p, f);
    var c := Patch(words, p, f);
    forall k | 0 <= k < |words| ensures FitsAt(list, words[k], c[k]) {
      if k in p {
        var i :| 0 <= i < |p| && p[i] == k;
        SelectedIff(list, Normal(words[k]), f[i]);
      }
    }
  }

  lemma FitsPatch(list: seq<Word>, words: Phrase, c: Phrase) returns (f: Phrase)
    requires Fits(list, words, c)
    ensures var p := VariablePositions(words);
      && Slots(words, p) && |f| == |p| && Picks(Choices(list, words, p), f) && Patch(words, p, f) == c
  {
    hide Patch, Matches, Variable, Normal;
    var p := VariablePositions(words);
    AscendingSlots(words, p);
    f := seq(|p|, i requires 0 <= i < |p| => c[p[i]]);
    forall i | 0 <= i < |p| ensures f[i] in Selected(list, Normal(words[p[i]])) {
      assert p[i] in p;
      assert FitsAt(list, words[p[i]], c[p[i]]);
      SelectedIff(list, Normal(words[p[i]]), f[i]);
    }
    PatchAt(words, p, f);
    var r := Patch(words, p, f);
    forall k | 0 <= k < |words| ensures r[k] == c[k] {
      assert FitsAt(list, words[k], c[k]);
      if k in p {
        var i :| 0 <= i < |p| && p[i] == k;
      }
    }
  }

  /** All the phrases that a search without a cap returns, in its order. */
  function AllHits(list: seq<Word>, words: Phrase, valid: Phrase -> bool, accept: Phrase -> bool): seq<Phrase> {
    var p := VariablePositions(words);
    ProductFillings(Choices(list, words, p));
    Collected(words, p, CartesianProduct(Choices(list, words, p)), valid, accept)
  }

  /** The hits are exactly the phrases that fit the tokens and pass both tests. */
  lemma HitsIff(list: seq<Word>, words: Phrase, valid: Phrase -> bool, accept: Phrase -> bool, c: Phrase)
    ensures c in AllHits(list, words, valid, accept) <==> Fits(list, words, c) && valid(c) && accept(c)
  {
    hide Patch, Collected, Fits, Picks, Choices;
    var p := VariablePositions(words);
    AscendingSlots(words, p);
    var lists := Choices(list, words, p);
    ProductFillings(lists);
    CollectedIff(words, p, CartesianProduct(lists), valid, accept, c);
    if f :| f in CartesianProduct(lists) && Patch(words, p, f) == c {
      ProductIff(lists, f);
      PatchFits(list, words, f);
    }
    if Fits(list, words, c) {
      var f := FitsPatch(list, words, c);
      ProductIff(lists, f);
    }
  }

  /** The hits come in strictly increasing alphabetical order, so none comes twice. */
  lemma HitsIncreasing(list: seq<Word>, words: Phrase, valid: Phrase -> bool, accept: Phrase -> bool)
    requires Distinct(list)
    ensures Increasing(RankBy(RankMap(list)), AllHits(list, words, valid, accept))
    ensures Distinct(AllHits(list, words, valid, accept))
  {
    hide Less, RanksOf, Collected, CartesianProduct;
    var rank, p := RankBy(RankMap(list)), VariablePositions(words);
    var lists := Choices(list, words, p);
    forall i | 0 <= i < |lists| ensures RankIncreasing(rank, lists[i]) {
      SelectedIncreasing(rank, list, Normal(words[p[i]]));
    }
    ProductIncreasing(rank, lists);
    ProductFillings(lists);
    CollectedIncreasing(rank, words, p, CartesianProduct(lists), valid, accept);
    IncreasingDistinct(rank, AllHits(list, words, valid, accept));
  }

  // ---------------------------------------------------------------- what the tokens mean

  lemma {:induction false} BeforeText(a: Word, rest: Word)
    requires '*' !in a
    ensures Before(a + "*" + rest) == a
  {
    var t := a + "*" + rest;
    if a != "" {
      assert t[1..] == a[1..] + "*" + rest;
      BeforeText(a[1..], rest);
      assert a == [a[0]] + a[1..];
    }
  }

  lemma {:induction false} AfterText(rest: Word, b: Word)
    requires '*' !in b
    ensures After(rest + "*" + b) == b
  {
    var t := rest + "*" + b;
    if b != "" {
      var init := b[..|b| - 1];
      assert t[..|t| - 1] == rest + "*" + init;
      AfterText(rest, init);
      assert b == init + [b[|b| - 1]];
    }
  }

  /** "?" stands for every word, a pattern for those that begin and end with the text around its wildcards. */
  lemma MatchesMeans(a: Word, middle: Word, b: Word, w: Word)
    requires '*' !in a && '*' !in b
    ensures Matches("?", w)
    ensures Matches(a + "*" + b, w) <==> a <= w && EndsWith(w, b)
    ensures Matches(a + "*" + middle + "*" + b, w) <==> a <= w && EndsWith(w, b)
    ensures a != "?" ==> (Matches(a, w) <==> w == a)
    ensures Variable("?") && Variable(a + "*" + b) && Variable(a + "*" + middle + "*" + b)
    ensures Variable(a) ==> a == "?"
  {
    hide Before, After;
    BeforeText(a, b);
    AfterText(a, b);
    assert a + "*" + middle + "*" + b == a + "*" + (middle + "*" + b);
    BeforeText(a, middle + "*" + b);
    AfterText(a + "*" + middle, b);
    Starred(a, b);
    Starred(a + "*" + middle, b);
  }

  lemma Starred(a: Word, b: Word)
    ensures '*' in a + "*" + b && a + "*" + b != "?"
  {
    var t := a + "*" + b;
    assert t[|a|] == '*';
  }
}
