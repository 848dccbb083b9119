/** Pattern expansion and the chunk worker of recover_missing_words. */
module MissingWordsSearch {
  import opened Arrangements
  import opened Itertools
  import opened ProductOrder
  import opened Trials
  import opened MissingWords
  import Bip39

  // ---------------------------------------------------------------- patterns

  /** str.partition on the wildcard. */
  method Partition(t: Word) returns (prefix: Word, tail: Word)
    requires WILDCARD in t
    ensures prefix == Before(t) && t == prefix + [WILDCARD] + tail
  {
    var i := 0;
    while t[i] != WILDCARD
      invariant i < |t| && WILDCARD in t[i..]
      invariant WILDCARD !in t[..i]
      decreases |t| - i
    {
      assert t[i..] == [t[i]] + t[i + 1..];
      assert t[..i + 1] == t[..i] + [t[i]];
      i := i + 1;
    }
    prefix, tail := t[..i], t[i + 1..];
    assert t == prefix + [WILDCARD] + tail;
    BeforeFirst(prefix, tail);
  }

  lemma {:induction false} BeforeFirst(prefix: Word, tail: Word)
    requires WILDCARD !in prefix
    ensures Before(prefix + [WILDCARD] + tail) == prefix
  {
    var t := prefix + [WILDCARD] + tail;
    if prefix != "" {
      BeforeFirst(prefix[1..], tail);
      assert t[1..] == prefix[1..] + [WILDCARD] + tail;
      assert prefix == [prefix[0]] + prefix[1..];
    }
  }

  /** The last piece of str.rsplit on the wildcard. */
  method LastPiece(t: Word) returns (piece: Word)
    ensures piece == After(t)
  {
    var i := |t|;
    assert t[..i] == t && t[i..] == "";
    while i > 0 && t[i - 1] != WILDCARD
      invariant 0 <= i <= |t| && After(t) == After(t[..i]) + t[i..]
    {
      assert t[..i][..i - 1] == t[..i - 1];
      assert t[i - 1..] == [t[i - 1]] + t[i..];
      i := i - 1;
    }
    piece := t[i..];
  }

  lemma {:induction false} AfterTail(prefix: Word, tail: Word)
    ensures After(prefix + [WILDCARD] + tail) == After(tail)
  {
    var t := prefix + [WILDCARD] + tail;
    if tail != "" {
      var init := tail[..|tail| - 1];
      AfterTail(prefix, init);
      assert t[..|t| - 1] == prefix + [WILDCARD] + init;
    }
  }

  lemma {:induction false} AfterNoWildcard(t: Word)
    requires WILDCARD !in t
    ensures After(t) == t
  {
    if t != "" {
      AfterNoWildcard(t[..|t| - 1]);
    }
  }

  lemma AllMatch(t: Word, w: Word)
    requires t == UNKNOWN || t == [WILDCARD]
    ensures Matches(t, w)
  {
    assert t == [WILDCARD] ==> WILDCARD in t && Before(t) == "" && After(t) == "";
  }

  lemma {:induction false} SelectAll(list: seq<Word>, t: Word)
    requires t == UNKNOWN || t == [WILDCARD]
    ensures Selected(list, t) == list
  {
    hide Matches;
    if list != [] {
      SelectAll(list[..|list| - 1], t);
      AllMatch(t, list[|list| - 1]);
    }
  }

  lemma {:induction false} SelectOne(list: seq<Word>, t: Word)
    requires Distinct(list) && !Variable(t)
    ensures Selected(list, t) == if t in list then [t] else []
  {
    if list != [] {
      SelectOne(list[..|list| - 1], t);
    }
  }

  /** _expand_pattern. */
  method ExpandPattern(token: Word, list: seq<Word>) returns (r: seq<Word>)
    requires Distinct(list)
    ensures r == Selected(list, Normal(token))
  {
    hide Normal;
    var t := Normal(token);
    if t == UNKNOWN || t == [WILDCARD] {
      SelectAll(list, t);
      return list;
    }
    if WILDCARD !in t {
      SelectOne(list, t);
      return if t in list then [t] else [];
    }
    var prefix, tail := Partition(t);
    AfterTail(prefix, tail);
    var suffix := tail;
    if WILDCARD in tail {
      suffix := LastPiece(tail);
    } else {
      AfterNoWildcard(tail);
    }
    r := [];
    for i := 0 to |list|
      invariant r == Selected(list[..i], t)
    {
      assert list[..i + 1][..i] == list[..i];
      if prefix <= list[i] && EndsWith(list[i], suffix) {
        r := r + [list[i]];
      }
    }
    assert list[..|list|] == list;
  }

  // ---------------------------------------------------------------- the worker

  ghost predicate Known(m: Ranks, ws: seq<Word>) {
    forall w :: w in ws ==> w in m
  }

  ghost predicate AllKnown(m: Ranks, lists: seq<seq<Word>>) {
    forall i :: 0 <= i < |lists| ==> Known(m, lists[i])
  }

  ghost predicate SmallRanks(m: Ranks) {
    forall w :: w in m ==> m[w] < 2048
  }

  /** One word into the trial phrase and its rank into the index array. */
  method PutWord(trial: array<Word>, indices: array<nat>, m: Ranks, position: nat, w: Word)
    requires position < trial.Length && w in m && indices[..] == Indices(m, trial[..])
    modifies trial, indices
    ensures trial[..] == old(trial[..])[position := w] && indices[..] == Indices(m, trial[..])
  {
    assert indices.Length == |indices[..]| == |trial[..]|;
    ghost var before := trial[..];
    trial[position] := w;
    indices[position] := m[w];
    assert trial[..] == before[position := w];
    forall k | 0 <= k < |before| ensures indices[..][k] == Rank(m, trial[..][k]) {
      assert k != position ==> indices[k] == Indices(m, before)[k];
    }
  }

  method PutWords(trial: array<Word>, indices: array<nat>, m: Ranks, positions: seq<nat>, ws: seq<Word>)
    requires |positions| == |ws| && InRange(positions, trial.Length) && Known(m, ws)
    requires indices[..] == Indices(m, trial[..])
    modifies trial, indices
    ensures trial[..] == Patch(old(trial[..]), positions, ws) && indices[..] == Indices(m, trial[..])
  {
    hide Indices;
    for i := 0 to |positions|
      invariant Patch(trial[..], positions[i..], ws[i..]) == Patch(old(trial[..]), positions, ws)
      invariant indices[..] == Indices(m, trial[..])
    {
      assert positions[i..][1..] == positions[i + 1..] && ws[i..][1..] == ws[i + 1..];
      PutWord(trial, indices, m, positions[i], ws[i]);
    }
  }

  /** The trial phrase differs from the template only at the given positions. */
  ghost predicate AgreesOff(trial: Phrase, template: Phrase, positions: seq<nat>) {
    |trial| == |template| && forall k :: 0 <= k < |trial| && k !in positions ==> trial[k] == template[k]
  }

  /** Patching all the positions gives the same phrase whatever was there. */
  lemma PatchFresh(trial: Phrase, template: Phrase, positions: seq<nat>, f: Phrase)
    requires Slots(template, positions) && |f| == |positions| && AgreesOff(trial, template, positions)
    ensures Patch(trial, positions, f) == Patch(template, positions, f)
    ensures AgreesOff(Patch(trial, positions, f), template, positions)
  {
    hide Patch;
    PatchAt(trial, positions, f);
    PatchAt(template, positions, f);
    var a, b := Patch(trial, positions, f), Patch(template, positions, f);
    forall k | 0 <= k < |a| ensures a[k] == b[k] {
      if k in positions {
        var i :| 0 <= i < |positions| && positions[i] == k;
      }
    }
  }

  /** Patching the rest once the first word is in place. */
  lemma PatchRest(trial: Phrase, template: Phrase, positions: seq<nat>, w: Word, ws: Phrase)
    requires Slots(template, positions) && |positions| == |ws| + 1 && AgreesOff(trial, template, positions)
    requires trial[positions[0]] == w
    ensures var r := Patch(trial, positions[1..], ws);
      && r == Patch(template, positions, [w] + ws)
      && AgreesOff(r, template, positions) && r[positions[0]] == w
  {
    var p := positions[0];
    assert trial[p := w] == trial;
    assert ([w] + ws)[1..] == ws;
    assert Patch(trial, positions, [w] + ws) == Patch(trial, positions[1..], ws);
    PatchFresh(trial, template, positions, [w] + ws);
    PatchAt(template, positions, [w] + ws);
  }

  /** _check: one more trial phrase, judged by its index array. */
  method Check(sha: Bip39.Hash, m: Ranks, n: nat, trial: Phrase, indices: seq<nat>, accept: Phrase -> bool,
               candidates: seq<Phrase>, checked: nat, passed: nat)
      returns (candidates': seq<Phrase>, checked': nat, passed': nat)
    requires Bip39.GoodLength(n) && |trial| == n && SmallRanks(m) && indices == Indices(m, trial)
    ensures candidates' == candidates + Checked(trial, ChecksumTest(sha, m, n), accept)
    ensures checked' == checked + 1
    ensures passed' == passed + (if ChecksumTest(sha, m, n)(trial) then 1 else 0)
  {
    hide Bip39.Valid;
    candidates', checked', passed' := candidates, checked + 1, passed;
    var ok := Bip39.ChecksumValid(sha, indices, n);
    if ok {
      passed' := passed' + 1;
      if accept(trial) {
        candidates' := candidates' + [trial];
      }
    }
  }

  /** The fillings of a chunk of first words. */
  function ChunkFillings(chunk: seq<Word>, rest: seq<seq<Word>>): seq<Phrase> {
    Spread(chunk, CartesianProduct(rest))
  }

  lemma ChunkFillingsSize(chunk: seq<Word>, rest: seq<seq<Word>>, n: nat)
    requires n == |rest| + 1
    ensures Fillings(ChunkFillings(chunk, rest), n)
  {
    ProductFillings([chunk] + rest);
    assert ([chunk] + rest)[1..] == rest;
  }

  /** The inner loop of the worker: every choice of the other words with first word w. */
  method TryFirst(sha: Bip39.Hash, m: Ranks, template: Phrase, positions: seq<nat>, w: Word, rest: seq<seq<Word>>,
                  accept: Phrase -> bool, trial: array<Word>, indices: array<nat>)
      returns (candidates: seq<Phrase>, checked: nat, passed: nat)
    requires Bip39.GoodLength(|template|) && SmallRanks(m) && AllKnown(m, rest) && w in m
    requires Slots(template, positions) && |positions| == |rest| + 1
    requires AgreesOff(trial[..], template, positions) && indices[..] == Indices(m, trial[..])
    modifies trial, indices
    ensures AgreesOff(trial[..], template, positions) && indices[..] == Indices(m, trial[..])
    ensures Totals(template, positions, Prefixed(w, CartesianProduct(rest)),
                   ChecksumTest(sha, m, |template|), accept, candidates, checked, passed)
  {
    hide Patch, Totals, Indices, ChecksumTest, Checked, CartesianProduct;
    ghost var valid := ChecksumTest(sha, m, |template|);
    ghost var fillings := Prefixed(w, CartesianProduct(rest));
    FirstFillings(w, rest, |positions|);
    NoTotals(template, positions, valid, accept);
    assert fillings[..0] == [];
    candidates, checked, passed := [], 0, 0;
    var posFirst, posRest := positions[0], positions[1..];
    PutWord(trial, indices, m, posFirst, w);
    assert AgreesOff(trial[..], template, positions);
    var combos := if posRest == [] then [[]] else CartesianProduct(rest);
    OneCombo(rest);
    assert combos == CartesianProduct(rest);
    for i := 0 to |combos|
      invariant AgreesOff(trial[..], template, positions) && indices[..] == Indices(m, trial[..])
      invariant trial[..][posFirst] == w
      invariant Totals(template, positions, fillings[..i], valid, accept, candidates, checked, passed)
    {
      KnownCombo(m, rest, combos[i]);
      PatchRest(trial[..], template, positions, w, combos[i]);
      PutWords(trial, indices, m, posRest, combos[i]);
      TotalsNext(template, positions, fillings, i, valid, accept, candidates, checked, passed);
      candidates, checked, passed :=
        Check(sha, m, |template|, trial[..], indices[..], accept, candidates, checked, passed);
    }
    assert fillings[..|combos|] == fillings;
  }

  lemma FirstFillings(w: Word, rest: seq<seq<Word>>, n: nat)
    requires n == |rest| + 1
    ensures Fillings(Prefixed(w, CartesianProduct(rest)), n)
  {
    ProductFillings(rest);
    forall f | f in Prefixed(w, CartesianProduct(rest)) ensures |f| == n {
      PrefixedIff(w, CartesianProduct(rest), f);
    }
  }

  lemma OneCombo(rest: seq<seq<Word>>)
    ensures rest == [] ==> CartesianProduct(rest) == [[]]
  {
  }

  lemma KnownCombo(m: Ranks, rest: seq<seq<Word>>, combo: Phrase)
    requires AllKnown(m, rest) && combo in CartesianProduct(rest)
    ensures |combo| == |rest| && Known(m, combo)
  {
    ProductIff(rest, combo);
  }

  /** _recover_chunk_worker: every filling whose first word is in the chunk. */
  method RecoverChunk(sha: Bip39.Hash, m: Ranks, template: Phrase, positions: seq<nat>, chunk: seq<Word>,
                      rest: seq<seq<Word>>, accept: Phrase -> bool)
      returns (candidates: seq<Phrase>, checked: nat, passed: nat)
    requires Bip39.GoodLength(|template|) && SmallRanks(m) && Known(m, chunk) && AllKnown(m, rest)
    requires Slots(template, positions) && |positions| == |rest| + 1
    requires Distinct(ChunkFillings(chunk, rest))
    ensures Totals(template, positions, ChunkFillings(chunk, rest),
                   ChecksumTest(sha, m, |template|), accept, candidates, checked, passed)
  {
    hide Totals, Indices, ChecksumTest, CartesianProduct, Prefixed, Spread, Distinct, Collected, CountValid;
    ghost var valid := ChecksumTest(sha, m, |template|);
    candidates, checked, passed := [], 0, 0;
    NoTotals(template, positions, valid, accept);
    NoChunk(chunk, rest);
    var trial := new Word[|template|](i requires 0 <= i < |template| => template[i]);
    assert trial[..] == template;
    var indices := new nat[|template|](i requires 0 <= i < |template| => Rank(m, template[i]));
    FreshIndices(m, template, indices[..]);
    for k := 0 to |chunk|
      invariant AgreesOff(trial[..], template, positions) && indices[..] == Indices(m, trial[..])
      invariant Totals(template, positions, ChunkFillings(chunk[..k], rest), valid, accept, candidates, checked, passed)
      invariant fresh(trial) && fresh(indices)
    {
      var more, moreChecked, morePassed :=
        TryFirst(sha, m, template, positions, chunk[k], rest, accept, trial, indices);
      NextFirst(template, positions, chunk, rest, k, valid, accept, candidates, checked, passed,
                more, moreChecked, morePassed);
      candidates, checked, passed := candidates + more, checked + moreChecked, passed + morePassed;
    }
    assert chunk[..|chunk|] == chunk;
  }

  lemma NoChunk(chunk: seq<Word>, rest: seq<seq<Word>>)
    ensures ChunkFillings(chunk[..0], rest) == []
  {
  }

  lemma FreshIndices(m: Ranks, template: Phrase, idx: seq<nat>)
    requires |idx| == |template| && forall k :: 0 <= k < |template| ==> idx[k] == Rank(m, template[k])
    ensures idx == Indices(m, template)
  {
  }

  lemma DistinctPrefix<T>(a: seq<T>, b: seq<T>)
    requires Distinct(a + b)
    ensures Distinct(a)
  {
    forall i, j | 0 <= i < j < |a| ensures a[i] != a[j] {
      assert (a + b)[i] != (a + b)[j];
    }
  }

  /** One more first word done. */
  lemma NextFirst(template: Phrase, positions: seq<nat>, chunk: seq<Word>, rest: seq<seq<Word>>, k: nat,
                  valid: Phrase -> bool, accept: Phrase -> bool, candidates: seq<Phrase>, checked: nat, passed: nat,
                  more: seq<Phrase>, moreChecked: nat, morePassed: nat)
    requires k < |chunk| && |positions| == |rest| + 1 && Distinct(ChunkFillings(chunk, rest))
    requires Totals(template, positions, ChunkFillings(chunk[..k], rest), valid, accept, candidates, checked, passed)
    requires Totals(template, positions, Prefixed(chunk[k], CartesianProduct(rest)), valid, accept,
                    more, moreChecked, morePassed)
    ensures Totals(template, positions, ChunkFillings(chunk[..k + 1], rest), valid, accept,
                   candidates + more, checked + moreChecked, passed + morePassed)
  {
    hide Totals, CartesianProduct, Prefixed, Spread, Distinct, Collected, CountValid;
    var ts := CartesianProduct(rest);
    var tried, next := Spread(chunk[..k], ts), Prefixed(chunk[k], ts);
    SpreadSnoc(chunk, k, ts);
    FirstFillings(chunk[k], rest, |positions|);
    SpreadConcat(chunk[..k + 1], chunk[k + 1..], ts);
    assert chunk == chunk[..k + 1] + chunk[k + 1..];
    DistinctPrefix(tried + next, Spread(chunk[k + 1..], ts));
    TotalsParts(template, positions, next, valid, accept, more, moreChecked, morePassed);
    TotalsAdd(template, positions, tried, next, valid, accept, candidates, checked, passed);
  }
}
