/** Which seed lines are sure to be handled by a run of the batch protocol, and which are not. */
module BatchCoverage {
  import opened Text
  import opened BatchLog
  import opened Batch
  import opened BatchRuns

  predicate AllDone(s: State) {
    forall i :: 0 <= i < |s.workers| ==> s.workers[i].phase.Stopped? || s.workers[i].phase.Finished?
  }

  ghost predicate LineTried(trials: seq<Trial>, p: nat) {
    exists k :: 0 <= k < |trials| && trials[k].pos == p
  }

  /** A trial of this very seed ended with CHECKED. */
  ghost predicate SeedChecked(c: Config, trials: seq<Trial>, seed: string) {
    exists k :: 0 <= k < |trials| && CheckedAs(c, trials[k], seed)
  }

  predicate CheckedAs(c: Config, t: Trial, seed: string) {
    t.pos < |c.lines| && t.outcome.Checked? && SeedOf(c.lines[t.pos]) == seed
  }

  // ---------------------------------------------------------------- shadowed lines

  /** The record of line q marks the seed of line p, a different seed, as completed. */
  predicate Shadows(c: Config, q: nat, p: nat) {
    && q < |c.lines| && p < |c.lines| && IsSeedLine(c.lines[q]) && IsSeedLine(c.lines[p])
    && SeedOf(c.lines[p]) == UpTo(TAB, SeedOf(c.lines[q])) && SeedOf(c.lines[q]) != SeedOf(c.lines[p])
  }

  /** Line p is shadowed by a line that comes before it or that belongs to another worker. */
  ghost predicate Shadowed(c: Config, p: nat) {
    exists q: nat, i: nat, j: nat :: Shadows(c, q, p) && Owns(c, i, p) && Owns(c, j, q) && (j != i || q < p)
  }

  ghost predicate NoMatchIn(trials: seq<Trial>) {
    forall k :: 0 <= k < |trials| ==> !trials[k].outcome.Matched?
  }

  ghost predicate Owned(c: Config, trials: seq<Trial>) {
    forall k :: 0 <= k < |trials| ==>
      Owns(c, trials[k].worker, trials[k].pos) && IsSeedLine(c.lines[trials[k].pos])
  }

  lemma LogParts(c: Config, base: Log, s: State)
    requires LogInv(c, base, s)
    ensures Owned(c, s.trials)
    ensures !HasMatch(s.log) ==> NoMatchIn(s.trials)
    ensures !HasMatch(base) && NoMatchIn(s.trials) ==> !HasMatch(s.log)
  {
    hide Record, SeedsBefore, Takes, IsSeedLine, SeedOf;
    forall k | 0 <= k < |s.trials|
      ensures var t := s.trials[k];
        Owns(c, t.worker, t.pos) && IsSeedLine(c.lines[t.pos])
        && (t.outcome.Matched? <==> "MATCHED\t" <= s.log[|base| + k])
    {
      var t := s.trials[k];
      assert TrialInv(c, t, s.log[|base| + k]);
      RecordMatches(t.outcome, SeedOf(c.lines[t.pos]), t.extras);
    }
    if k :| 0 <= k < |s.log| && "MATCHED\t" <= s.log[k] {
      if k < |base| {
        assert s.log[..|base|][k] == base[k];
      } else {
        var t := s.trials[k - |base|];
        assert s.log[|base| + (k - |base|)] == s.log[k];
        assert t.outcome.Matched?;
      }
    }
  }

  /** A line that is not shadowed is handled for its own sake. */
  lemma {:induction false} TrulyHandled(c: Config, base: Log, trials: seq<Trial>, i: nat, p: nat)
    requires HistoryInv(c, base, trials) && NoMatchIn(trials) && Owned(c, trials)
    requires Owns(c, i, p) && IsSeedLine(c.lines[p]) && Handled(c, base, trials, i, p)
    requires c.skip ==> !Shadowed(c, p)
    ensures TriedAt(trials, i, p)
         || (c.skip && (LogCompletes(base, SeedOf(c.lines[p])) || SeedChecked(c, trials, SeedOf(c.lines[p]))))
    decreases |trials|
  {
    hide LogCompletes, IsSeedLine, SeedOf, SeedsBefore, Takes, UpTo;
    var seed := SeedOf(c.lines[p]);
    if !TriedAt(trials, i, p) && !LogCompletes(base, seed) {
      var k :| 0 <= k < |trials| && Covers(c, trials[k], seed);
      var q, j := trials[k].pos, trials[k].worker;
      if SeedOf(c.lines[q]) == seed {
        assert CheckedAs(c, trials[k], seed);
      } else {
        assert Shadows(c, q, p) && Owns(c, j, q);
        assert Passed(c, base, trials[..k], trials[k].worker, trials[k].pos);
        HistoryPrefix(c, base, trials, k);
        TrulyHandled(c, base, trials[..k], i, p);
        TriedPrefix(trials, k, i, p);
        CheckedGrows(c, trials, k, seed);
      }
    }
  }

  lemma HistoryPrefix(c: Config, base: Log, trials: seq<Trial>, k: nat)
    requires HistoryInv(c, base, trials) && k <= |trials|
    ensures HistoryInv(c, base, trials[..k])
  {
    hide Passed;
    forall m | 0 <= m < k ensures Passed(c, base, trials[..k][..m], trials[..k][m].worker, trials[..k][m].pos) {
      assert trials[..k][..m] == trials[..m];
      assert Passed(c, base, trials[..m], trials[m].worker, trials[m].pos);
    }
  }

  lemma TriedPrefix(trials: seq<Trial>, k: nat, i: nat, p: nat)
    requires k <= |trials| && !TriedAt(trials, i, p)
    ensures !TriedAt(trials[..k], i, p)
  {
    assert forall m :: 0 <= m < k ==> trials[..k][m] == trials[m];
  }

  lemma CheckedGrows(c: Config, trials: seq<Trial>, k: nat, seed: string)
    requires k <= |trials| && SeedChecked(c, trials[..k], seed)
    ensures SeedChecked(c, trials, seed)
  {
    var m :| 0 <= m < k && CheckedAs(c, trials[..k][m], seed);
    assert trials[m] == trials[..k][m];
  }

  /**
   If all the workers have ended and no match was recorded, a seed line was tried, or its seed
   was completed: by the log that was there at first, or by a trial of the same seed. With
   skipping this is sure of every line that is not shadowed, without skipping of every line.
   */
  lemma AllHandled(c: Config, base: Log, t: seq<State>, p: nat)
    requires Run(c, base, t) && Complete(c)
    requires var s := t[|t| - 1]; AllDone(s) && !HasMatch(s.log)
    requires p < |c.lines| && IsSeedLine(c.lines[p]) && (c.skip ==> !Shadowed(c, p))
    ensures var trials, seed := t[|t| - 1].trials, SeedOf(c.lines[p]);
      LineTried(trials, p) || (c.skip && (LogCompletes(base, seed) || SeedChecked(c, trials, seed)))
  {
    hide HasMatch, LogCompletes, SeedOf, IsSeedLine, SeedsBefore, SeedChecked, LogInv, HistoryInv, Shadowed, CompletedInv;
    RunInv(c, base, t, |t| - 1);
    var s := t[|t| - 1];
    LogParts(c, base, s);
    var r := SeedsBefore(c.lines, p) % c.total;
    assert Taken(c, r);
    var i: nat :| Takes(c, i, r);
    assert Owns(c, i, p);
    assert WorkerInv(c, base, s, i, s.workers[i]);
    assert s.workers[i].phase.Finished?;
    assert Handled(c, base, s.trials, i, p);
    TrulyHandled(c, base, s.trials, i, p);
  }

  // ---------------------------------------------------------------- a run that misses a shadowed line

  /** Line p was not tried; CHECKED for line q, ERROR for every other trial. */
  ghost predicate Quiet(trials: seq<Trial>, p: nat, q: nat) {
    forall k :: 0 <= k < |trials| ==>
      trials[k].pos != p && trials[k].outcome == (if trials[k].pos == q then Checked else Error)
  }

  /** The worker would skip line p. */
  predicate SkipsLine(c: Config, w: Worker, i: nat, p: nat) {
    Owns(c, i, p) ==> c.skip && SeedOf(c.lines[p]) in w.completed
  }

  /** The worker would try line q. */
  predicate Tryable(c: Config, w: Worker, i: nat, q: nat) {
    q < |c.lines| && IsSeedLine(c.lines[q]) && Owns(c, i, q) && SeedOf(c.lines[q]) !in w.completed
  }

  ghost predicate FinishedBelow(s: State, n: nat) {
    n <= |s.workers| && forall i :: 0 <= i < n ==> s.workers[i].phase.Finished?
  }

  lemma NoMatchAtFirst()
    ensures !HasMatch([])
  {
  }

  /** A run from an empty log in which worker i stands ready for its next line. */
  ghost predicate ReadyRun(c: Config, t: seq<State>, i: nat, p: nat, q: nat) {
    && t != [] && Run(c, [], t) && Quiet(t[|t| - 1].trials, p, q)
    && i < |c.ids| && |t[|t| - 1].workers| == |c.ids| && t[|t| - 1].workers[i].phase.Ready?
  }

  /** Only worker i moved between the states. */
  ghost predicate OnlyMoved(s: State, s': State, i: nat) {
    && i < |s.workers| == |s'.workers| && s'.workers == s.workers[i := s'.workers[i]]
    && s.workers[i].completed <= s'.workers[i].completed && Grows(s, s')
  }

  /** Worker i goes past one line. */
  lemma PassLine(c: Config, t: seq<State>, i: nat, p: nat, q: nat) returns (t': seq<State>)
    requires ReadyRun(c, t, i, p, q)
    requires var w := t[|t| - 1].workers[i]; w.pos < |c.lines| && (w.pos == p ==> SkipsLine(c, w, i, p))
    ensures ReadyRun(c, t', i, p, q)
    ensures var s, s' := t[|t| - 1], t'[|t'| - 1];
      && OnlyMoved(s, s', i) && s'.workers[i].pos == s.workers[i].pos + 1
      && (s.workers[i].pos != q ==> s'.workers[i].completed == s.workers[i].completed)
      && (s.workers[i].pos == q && Tryable(c, s.workers[i], i, q) ==> TriedAt(s'.trials, i, q))
  {
    hide Run, HasMatch, IsSeedLine, SeedOf, Record, CompletedIn, LogInv, HistoryInv, CompletedInv, Passed, TrialInv;
    RunLast(c, [], t);
    var s := t[|t| - 1];
    var w := s.workers[i];
    LogParts(c, [], s);
    NoMatchAtFirst();
    assert WorkerInv(c, [], s, i, w);
    t' := Go(c, [], t, i, Look);
    t' := Go(c, [], t', i, Decide);
    var s2 := t'[|t'| - 1];
    if s2.workers[i].phase.Running? {
      assert w.pos != p;
      var o := if w.pos == q then Checked else Error;
      t' := Go(c, [], t', i, Append(o, []));
      var s' := t'[|t'| - 1];
      assert s'.trials[|s.trials|] == Trial(i, w.pos, o, []);
    }
  }

  lemma RunLast(c: Config, base: Log, t: seq<State>)
    requires Run(c, base, t)
    ensures t != [] && Inv(c, base, t[|t| - 1])
  {
    RunInv(c, base, t, |t| - 1);
  }

  /** Worker i goes on to line `target`; on the way it tries its lines, except one that it skips. */
  lemma {:induction false} DriveTo(c: Config, t: seq<State>, i: nat, target: nat, p: nat, q: nat) returns (t': seq<State>)
    requires ReadyRun(c, t, i, p, q)
    requires var w := t[|t| - 1].workers[i]; w.pos <= target <= |c.lines| && (w.pos <= p < target ==> SkipsLine(c, w, i, p))
    ensures ReadyRun(c, t', i, p, q)
    ensures var s, s' := t[|t| - 1], t'[|t'| - 1];
      && OnlyMoved(s, s', i) && s'.workers[i].pos == target
      && (s.workers[i].pos <= q < target && Tryable(c, s.workers[i], i, q) ==> TriedAt(s'.trials, i, q))
    decreases target - t[|t| - 1].workers[i].pos
  {
    hide Run, IsSeedLine, SeedOf, Quiet, Owns;
    var s := t[|t| - 1];
    if s.workers[i].pos == target {
      t' := t;
    } else {
      var t1 := PassLine(c, t, i, p, q);
      var s1 := t1[|t1| - 1];
      t' := DriveTo(c, t1, i, target, p, q);
      var s' := t'[|t'| - 1];
      if TriedAt(s1.trials, i, q) {
        TriedGrows(s1.trials, s'.trials, i, q);
      }
    }
  }

  /** Worker i starts, goes through the whole list and ends. */
  lemma FinishWorker(c: Config, t: seq<State>, i: nat, p: nat, q: nat) returns (t': seq<State>)
    requires t != [] && Run(c, [], t) && Quiet(t[|t| - 1].trials, p, q) && i < |c.ids| == |t[|t| - 1].workers| && p < |c.lines|
    requires Owns(c, i, p) ==> c.skip && LogCompletes(t[|t| - 1].log, SeedOf(c.lines[p]))
    ensures t' != [] && Run(c, [], t') && Quiet(t'[|t'| - 1].trials, p, q)
    ensures var s, s' := t[|t| - 1], t'[|t'| - 1];
      && |s'.workers| == |s.workers| && s'.workers == s.workers[i := s'.workers[i]] && Grows(s, s')
      && s'.workers[i].phase.Finished?
  {
    hide Run, IsSeedLine, SeedOf, Quiet, Owns, HasMatch, CompletedIn, LogCompletes;
    RunShaped(c, t);
    var s := t[|t| - 1];
    var t1 := Go(c, [], t, i, Start);
    CompletedInIff(s.log, SeedOf(c.lines[p]));
    var t2 := DriveTo(c, t1, i, |c.lines|, p, q);
    RunShaped(c, t2);
    t' := Go(c, [], t2, i, Look);
  }

  lemma RunShaped(c: Config, t: seq<State>)
    requires Run(c, [], t)
    ensures t != [] && Shaped(c, t[|t| - 1])
  {
    hide LogInv, HistoryInv, WorkerInv;
    RunLast(c, [], t);
  }

  lemma MoreLog(s: State, s': State, x: string)
    requires Grows(s, s') && LogCompletes(s.log, x)
    ensures LogCompletes(s'.log, x)
  {
    hide Completes;
    var k :| 0 <= k < |s.log| && Completes(s.log[k], x);
    assert s'.log[k] == s.log[k];
  }

  /** All the workers from n on start, go through the list and end. */
  lemma {:induction false} FinishAll(c: Config, t: seq<State>, n: nat, p: nat, q: nat) returns (t': seq<State>)
    requires t != [] && Run(c, [], t) && Quiet(t[|t| - 1].trials, p, q) && n <= |c.ids| == |t[|t| - 1].workers| && p < |c.lines|
    requires c.skip && LogCompletes(t[|t| - 1].log, SeedOf(c.lines[p]))
    requires FinishedBelow(t[|t| - 1], n)
    ensures t' != [] && Run(c, [], t') && Quiet(t'[|t'| - 1].trials, p, q) && AllDone(t'[|t'| - 1])
    decreases |c.ids| - n
  {
    hide Run, SeedOf, Quiet, Owns, LogCompletes, Grows;
    if n == |c.ids| {
      t' := t;
    } else {
      var t1 := FinishWorker(c, t, n, p, q);
      MoreLog(t[|t| - 1], t1[|t1| - 1], SeedOf(c.lines[p]));
      t' := FinishAll(c, t1, n + 1, p, q);
    }
  }

  /** Once line q was tried, the log tells that the seed of line p is completed. */
  lemma ShadowInLog(c: Config, s: State, j: nat, p: nat, q: nat)
    requires LogInv(c, [], s) && Quiet(s.trials, p, q) && TriedAt(s.trials, j, q) && Shadows(c, q, p)
    ensures LogCompletes(s.log, SeedOf(c.lines[p]))
  {
    hide Record, Completes, IsSeedLine, SeedOf, UpTo, Owns;
    var k :| 0 <= k < |s.trials| && s.trials[k].worker == j && s.trials[k].pos == q;
    var empty: Log := [];
    assert TrialInv(c, s.trials[k], s.log[|empty| + k]);
    SeedNotEmpty(c.lines[p]);
    RecordCompletes(Checked, SeedOf(c.lines[q]), s.trials[k].extras, SeedOf(c.lines[p]));
    assert Completes(s.log[k], SeedOf(c.lines[p]));
  }

  /**
   The condition is exact: for every shadowed line there is a run from an empty log in which all
   the workers end without a match, and the line was not tried, nor its seed completed.
   */
  lemma NeverHandled(c: Config, p: nat) returns (t: seq<State>)
    requires Partition(c) && c.skip && p < |c.lines| && Shadowed(c, p)
    ensures Run(c, [], t)
    ensures var s := t[|t| - 1];
      AllDone(s) && !HasMatch(s.log) && !LineTried(s.trials, p) && !SeedChecked(c, s.trials, SeedOf(c.lines[p]))
  {
    hide Run, IsSeedLine, SeedOf, UpTo, LogCompletes, HasMatch, LogInv, HistoryInv, CompletedIn;
    var q: nat, i: nat, j: nat :| Shadows(c, q, p) && Owns(c, i, p) && Owns(c, j, q) && (j != i || q < p);
    FirstRun(c);
    t := [FirstState(c)];
    t := Go(c, [], t, j, Start);
    NothingCompleted(SeedOf(c.lines[q]));
    t := DriveTo(c, t, j, q + 1, p, q);
    RunLast(c, [], t);
    ShadowInLog(c, t[|t| - 1], j, p, q);
    t := FinishAll(c, t, 0, p, q);
    RunLast(c, [], t);
    LogParts(c, [], t[|t| - 1]);
    NoMatchAtFirst();
  }

  lemma NothingCompleted(x: string)
    ensures x !in CompletedIn([])
  {
  }

  // ---------------------------------------------------------------- an example

  lemma TabbedPrefix()
    ensures "a\tb"[1] == TAB && UpTo(TAB, "a\tb") == "a"
  {
    assert "a\tb" == "a" + [TAB] + "b";
    UpToSplit(TAB, "a", "b");
  }

  /** A seed with a tab: its record marks another seed as completed, and not itself. */
  lemma TabMarksAnother()
    ensures var log := [Record(Checked, "a\tb", [])]; LogCompletes(log, "a") && !LogCompletes(log, "a\tb")
  {
    var log := [Record(Checked, "a\tb", [])];
    TabbedPrefix();
    RecordCompletes(Checked, "a\tb", [], "a");
    assert Completes(log[0], "a");
    OwnRecordIff(Checked, "a\tb", []);
  }

  lemma TabbedLine()
    ensures IsSeedLine("a\tb") && SeedOf("a\tb") == "a\tb"
  {
    assert "a\tb"[0] == 'a' && "a\tb"[2] == 'b' && |"a\tb"| == 3;
    assert LeftStrip("a\tb") == "a\tb" && RightStrip("a\tb") == "a\tb";
    UpToAll('#', "a\tb");
  }

  lemma UpToAll(c: char, s: string)
    requires c !in s
    ensures UpTo(c, s) == s
  {
  }

  /** Two lines, the first with a tab: a single worker that restarts can miss the second. */
  lemma ShadowExample()
    ensures var c := Config(["a\tb", "a"], 1, [{0}], true); Partition(c) && Shadowed(c, 1) && !Shadowed(c, 0)
  {
    hide IsSeedLine, SeedOf, UpTo;
    var c := Config(["a\tb", "a"], 1, [{0}], true);
    assert Takes(c, 0, 0) && Taken(c, 0);
    TabbedLine();
    TabbedPrefix();
    LetterIsSeed('a');
    assert |"a"| == 1 && |"a\tb"| == 3;
    assert Shadows(c, 0, 1) && Owns(c, 0, 1) && Owns(c, 0, 0);
    UpToAll(TAB, "a");
    forall q: nat | q < 2 ensures !Shadows(c, q, 0) {
      assert UpTo(TAB, SeedOf(c.lines[q])) == "a";
    }
  }
}
