/**
 The batch protocol: workers that go through one list of lines, sharing an append-only log.

 A worker reads the log when it starts and again at the top of each line. Reading the log,
 deciding about the line and recording the outcome of a recovery are separate steps, so other
 workers act in between. A worker may crash and start again at any time.
 */
module Batch {
  import opened BatchLog

  /** ids[i] are the residues, modulo total, that worker i takes. */
  datatype Config = Config(lines: seq<string>, total: nat, ids: seq<set<nat>>, skip: bool)

  datatype Phase = Idle | Ready | Looked | Running | Stopped | Finished

  /** `since` is the length that the log had when the worker started. */
  datatype Worker = Worker(phase: Phase, pos: nat, seedIndex: nat, completed: set<string>, since: nat)

  datatype Trial = Trial(worker: nat, pos: nat, outcome: Outcome, extras: seq<string>)

  /** The trials that came to an outcome, in log order, are kept with the state. */
  datatype State = State(log: Log, workers: seq<Worker>, trials: seq<Trial>)

  datatype Action = Start | Crash | Look | Decide | Append(outcome: Outcome, extras: seq<string>)

  // ---------------------------------------------------------------- steps

  /** The seeds that a log completes, as a finite set. */
  function CompletedIn(log: Log): set<string> {
    set k | 0 <= k < |log| && FieldsSay(log[k], SecondField(log[k])) :: SecondField(log[k])
  }

  function SecondField(line: string): string {
    if |Fields(line)| >= 2 then Fields(line)[1] else ""
  }

  lemma CompletedInIff(log: Log, s: string)
    ensures s in CompletedIn(log) <==> LogCompletes(log, s)
  {
    hide Fields, Completes;
    if s in CompletedIn(log) {
      var k :| 0 <= k < |log| && FieldsSay(log[k], SecondField(log[k])) && SecondField(log[k]) == s;
      CompletesFields(log[k], s);
    }
    if k :| 0 <= k < |log| && Completes(log[k], s) {
      CompletesFields(log[k], s);
      assert FieldsSay(log[k], s) && SecondField(log[k]) == s;
    }
  }

  predicate Shaped(c: Config, s: State) {
    c.total >= 1 && |s.workers| == |c.ids|
  }

  function Started(c: Config, log: Log): Worker {
    Worker(Ready, 0, 0, if c.skip then CompletedIn(log) else {}, |log|)
  }

  /** The end of the list, or the top of the loop body: the log is searched for a match. */
  ghost function AfterLook(c: Config, log: Log, w: Worker): Worker {
    if w.pos >= |c.lines| then w.(phase := Finished)
    else if HasMatch(log) then w.(phase := Stopped)
    else w.(phase := Looked)
  }

  /** The rest of the loop body up to the recovery of a seed; the log is not read again. */
  function AfterDecide(c: Config, ids: set<nat>, w: Worker): Worker
    requires c.total >= 1 && w.pos < |c.lines|
  {
    if !IsSeedLine(c.lines[w.pos]) then w.(phase := Ready, pos := w.pos + 1)
    else if (c.skip && SeedOf(c.lines[w.pos]) in w.completed) || w.seedIndex % c.total !in ids then
      w.(phase := Ready, pos := w.pos + 1, seedIndex := w.seedIndex + 1)
    else w.(phase := Running, seedIndex := w.seedIndex + 1)
  }

  /** The end of the loop body, once the outcome is known. */
  function Concluded(c: Config, w: Worker, seed: string, o: Outcome): Worker {
    var completed := if c.skip && !o.Error? then w.completed + {seed} else w.completed;
    if o.Matched? then w.(phase := Stopped, completed := completed)
    else w.(phase := Ready, pos := w.pos + 1, completed := completed)
  }

  predicate Enabled(c: Config, s: State, i: nat, a: Action) {
    && Shaped(c, s) && i < |c.ids|
    && match a
       case Start => true
       case Crash => true
       case Look => s.workers[i].phase.Ready?
       case Decide => s.workers[i].phase.Looked? && s.workers[i].pos < |c.lines|
       case Append(_, _) => s.workers[i].phase.Running? && s.workers[i].pos < |c.lines|
  }

  ghost function Step(c: Config, s: State, i: nat, a: Action): State
    requires Enabled(c, s, i, a)
  {
    var w := s.workers[i];
    match a
    case Start => s.(workers := s.workers[i := Started(c, s.log)])
    case Crash => s.(workers := s.workers[i := w.(phase := Idle)])
    case Look => s.(workers := s.workers[i := AfterLook(c, s.log, w)])
    case Decide => s.(workers := s.workers[i := AfterDecide(c, c.ids[i], w)])
    case Append(o, extras) =>
      var seed := SeedOf(c.lines[w.pos]);
      State(s.log + [Record(o, seed, extras)], s.workers[i := Concluded(c, w, seed, o)],
            s.trials + [Trial(i, w.pos, o, extras)])
  }

  ghost predicate Next(c: Config, s: State, s': State) {
    exists i: nat, a: Action :: Enabled(c, s, i, a) && s' == Step(c, s, i, a)
  }

  ghost predicate Init(c: Config, base: Log, s: State) {
    Shaped(c, s) && s.log == base && s.trials == [] && forall i :: 0 <= i < |s.workers| ==> s.workers[i].phase.Idle?
  }

  /** A finite run from a log that was there before. */
  ghost predicate Run(c: Config, base: Log, t: seq<State>) {
    t != [] && Init(c, base, t[0]) && forall k :: 0 <= k < |t| - 1 ==> Next(c, t[k], t[k + 1])
  }

  // ---------------------------------------------------------------- ownership

  /** The number of seed lines before line p. */
  function SeedsBefore(lines: seq<string>, p: nat): nat
    requires p <= |lines|
  {
    if p == 0 then 0 else SeedsBefore(lines, p - 1) + (if IsSeedLine(lines[p - 1]) then 1 else 0)
  }

  predicate Takes(c: Config, i: nat, r: nat) {
    i < |c.ids| && r in c.ids[i]
  }

  predicate Owns(c: Config, i: nat, p: nat) {
    c.total >= 1 && p < |c.lines| && Takes(c, i, SeedsBefore(c.lines, p) % c.total)
  }

  ghost predicate Taken(c: Config, r: nat) {
    exists i: nat :: Takes(c, i, r)
  }

  /** Every residue is taken by a worker. */
  ghost predicate Complete(c: Config) {
    c.total >= 1 && forall r: nat :: r < c.total ==> Taken(c, r)
  }

  /** Every residue is taken by exactly one worker. */
  ghost predicate Partition(c: Config) {
    Complete(c) && forall r: nat, i: nat, j: nat :: Takes(c, i, r) && Takes(c, j, r) ==> i == j
  }

  lemma OneOwner(c: Config, p: nat) returns (owner: nat)
    requires Partition(c) && p < |c.lines|
    ensures Owns(c, owner, p) && forall i: nat :: Owns(c, i, p) ==> i == owner
  {
    var r := SeedsBefore(c.lines, p) % c.total;
    assert Taken(c, r);
    owner :| Takes(c, owner, r);
  }

  // ---------------------------------------------------------------- invariant

  /** The log is the old one and the records of the trials, each made by an owner of its line. */
  ghost predicate LogInv(c: Config, base: Log, s: State) {
    && |s.log| == |base| + |s.trials| && s.log[..|base|] == base
    && forall k :: 0 <= k < |s.trials| ==> TrialInv(c, s.trials[k], s.log[|base| + k])
  }

  predicate TrialInv(c: Config, t: Trial, line: string) {
    && Owns(c, t.worker, t.pos) && IsSeedLine(c.lines[t.pos])
    && line == Record(t.outcome, SeedOf(c.lines[t.pos]), t.extras)
  }

  /** x was completed before, or is told of by the record of a trial without error. */
  ghost predicate Known(c: Config, base: Log, trials: seq<Trial>, x: string) {
    LogCompletes(base, x) || exists k :: 0 <= k < |trials| && Covers(c, trials[k], x)
  }

  /** The worker itself remembers the seed; its record tells of the text before the first tab. */
  predicate Covers(c: Config, t: Trial, x: string) {
    && t.pos < |c.lines| && !t.outcome.Error?
    && (x == SeedOf(c.lines[t.pos]) || x == UpTo(TAB, SeedOf(c.lines[t.pos])))
  }

  ghost predicate TriedAt(trials: seq<Trial>, i: nat, p: nat) {
    exists k :: 0 <= k < |trials| && trials[k].worker == i && trials[k].pos == p
  }

  ghost predicate Handled(c: Config, base: Log, trials: seq<Trial>, i: nat, p: nat)
    requires p < |c.lines|
  {
    TriedAt(trials, i, p) || (c.skip && Known(c, base, trials, SeedOf(c.lines[p])))
  }

  /** Of the lines before pos, the worker's own seed lines are all handled. */
  ghost predicate Passed(c: Config, base: Log, trials: seq<Trial>, i: nat, pos: nat) {
    forall p: nat :: p < pos && p < |c.lines| && IsSeedLine(c.lines[p]) && Owns(c, i, p) ==> Handled(c, base, trials, i, p)
  }

  /** When a trial was recorded, its worker had passed the lines before. */
  ghost predicate HistoryInv(c: Config, base: Log, trials: seq<Trial>) {
    forall k :: 0 <= k < |trials| ==> Passed(c, base, trials[..k], trials[k].worker, trials[k].pos)
  }

  ghost predicate CompletedInv(c: Config, base: Log, s: State, w: Worker) {
    && (forall x :: x in w.completed ==> c.skip && Known(c, base, s.trials, x))
    && w.since <= |s.log|
    && (c.skip ==> forall x :: LogCompletes(s.log[..w.since], x) ==> x in w.completed)
  }

  ghost predicate PhaseInv(c: Config, s: State, i: nat, w: Worker) {
    && w.pos <= |c.lines|
    && (w.phase.Ready? || w.phase.Looked? ==> w.seedIndex == SeedsBefore(c.lines, w.pos))
    && (w.phase.Looked? ==> w.pos < |c.lines|)
    && (w.phase.Running? ==>
          && w.seedIndex == SeedsBefore(c.lines, w.pos) + 1
          && w.pos < |c.lines| && IsSeedLine(c.lines[w.pos]) && Owns(c, i, w.pos)
          && !(c.skip && SeedOf(c.lines[w.pos]) in w.completed))
    && (w.phase.Stopped? ==> HasMatch(s.log))
    && (w.phase.Finished? ==> w.pos == |c.lines|)
  }

  ghost predicate WorkerInv(c: Config, base: Log, s: State, i: nat, w: Worker) {
    w.phase.Idle? || (PhaseInv(c, s, i, w) && CompletedInv(c, base, s, w) && Passed(c, base, s.trials, i, w.pos))
  }

  ghost predicate Inv(c: Config, base: Log, s: State) {
    && Shaped(c, s) && LogInv(c, base, s) && HistoryInv(c, base, s.trials)
    && forall i: nat :: i < |s.workers| ==> WorkerInv(c, base, s, i, s.workers[i])
  }

  // ---------------------------------------------------------------- what growth of the log keeps

  ghost predicate Grows(s: State, s': State) {
    s.log <= s'.log && s.trials <= s'.trials
  }

  lemma KnownGrows(c: Config, base: Log, a: seq<Trial>, b: seq<Trial>, x: string)
    requires a <= b && Known(c, base, a, x)
    ensures Known(c, base, b, x)
  {
    hide Covers, LogCompletes;
    if !LogCompletes(base, x) {
      var k :| 0 <= k < |a| && Covers(c, a[k], x);
      assert b[k] == a[k];
    }
  }

  lemma TriedGrows(a: seq<Trial>, b: seq<Trial>, i: nat, p: nat)
    requires a <= b && TriedAt(a, i, p)
    ensures TriedAt(b, i, p)
  {
    var k :| 0 <= k < |a| && a[k].worker == i && a[k].pos == p;
    assert b[k] == a[k];
  }

  lemma PassedGrows(c: Config, base: Log, a: seq<Trial>, b: seq<Trial>, i: nat, pos: nat)
    requires a <= b && Passed(c, base, a, i, pos)
    ensures Passed(c, base, b, i, pos)
  {
    hide Known, TriedAt, Owns, IsSeedLine;
    forall p: nat | p < pos && p < |c.lines| && IsSeedLine(c.lines[p]) && Owns(c, i, p)
      ensures Handled(c, base, b, i, p)
    {
      assert Handled(c, base, a, i, p);
      if TriedAt(a, i, p) {
        TriedGrows(a, b, i, p);
      } else {
        KnownGrows(c, base, a, b, SeedOf(c.lines[p]));
      }
    }
  }

  lemma CompletedGrows(c: Config, base: Log, s: State, s': State, w: Worker)
    requires Grows(s, s') && CompletedInv(c, base, s, w)
    ensures CompletedInv(c, base, s', w)
  {
    hide Known, LogCompletes;
    forall x | x in w.completed ensures Known(c, base, s'.trials, x) {
      KnownGrows(c, base, s.trials, s'.trials, x);
    }
    assert s'.log[..w.since] == s.log[..w.since];
  }

  lemma MatchGrows(s: State, s': State)
    requires Grows(s, s') && HasMatch(s.log)
    ensures HasMatch(s'.log)
  {
    var k :| 0 <= k < |s.log| && "MATCHED\t" <= s.log[k];
    assert s'.log[k] == s.log[k];
  }

  lemma WorkerGrows(c: Config, base: Log, s: State, s': State, i: nat, w: Worker)
    requires Grows(s, s') && WorkerInv(c, base, s, i, w)
    ensures WorkerInv(c, base, s', i, w)
  {
    hide Passed, CompletedInv, HasMatch;
    if !w.phase.Idle? {
      PassedGrows(c, base, s.trials, s'.trials, i, w.pos);
      CompletedGrows(c, base, s, s', w);
      if HasMatch(s.log) {
        MatchGrows(s, s');
      }
    }
  }

  /** A step that keeps the invariant of its own worker keeps everything. */
  lemma OthersKeep(c: Config, base: Log, s: State, s': State, i: nat)
    requires Inv(c, base, s) && Grows(s, s') && i < |s.workers| == |s'.workers|
    requires LogInv(c, base, s') && HistoryInv(c, base, s'.trials)
    requires s'.workers == s.workers[i := s'.workers[i]] && WorkerInv(c, base, s', i, s'.workers[i])
    ensures Inv(c, base, s')
  {
    hide WorkerInv, LogInv, Grows, HistoryInv;
    forall j: nat | j < |s'.workers| ensures WorkerInv(c, base, s', j, s'.workers[j]) {
      if j != i {
        WorkerGrows(c, base, s, s', j, s.workers[j]);
      }
    }
  }

  /** The same when only the worker itself changes. */
  lemma OneChanges(c: Config, base: Log, s: State, s': State, i: nat)
    requires Inv(c, base, s) && i < |s.workers| == |s'.workers|
    requires s' == s.(workers := s.workers[i := s'.workers[i]]) && WorkerInv(c, base, s', i, s'.workers[i])
    ensures Inv(c, base, s')
  {
    hide WorkerInv, HistoryInv;
    assert LogInv(c, base, s');
    OthersKeep(c, base, s, s', i);
  }

  // ---------------------------------------------------------------- each step keeps the invariant

  /** What the log completes is known, by the old log or by a trial. */
  lemma LogKnown(c: Config, base: Log, s: State, x: string)
    requires LogInv(c, base, s) && LogCompletes(s.log, x)
    ensures Known(c, base, s.trials, x)
  {
    hide Completes, Record, SeedsBefore, Takes, IsSeedLine, SeedOf, UpTo;
    var k :| 0 <= k < |s.log| && Completes(s.log[k], x);
    if k < |base| {
      assert s.log[..|base|][k] == base[k];
    } else {
      var t := s.trials[k - |base|];
      assert TrialInv(c, t, s.log[|base| + (k - |base|)]);
      RecordCompletes(t.outcome, SeedOf(c.lines[t.pos]), t.extras, x);
      assert Covers(c, t, x);
    }
  }

  lemma StartKeeps(c: Config, base: Log, s: State, i: nat)
    requires Inv(c, base, s) && i < |c.ids|
    ensures Inv(c, base, Step(c, s, i, Start))
  {
    hide Known, LogInv, HistoryInv, LogCompletes, CompletedIn, HasMatch;
    var s' := Step(c, s, i, Start);
    var w := s'.workers[i];
    forall x | x in w.completed ensures c.skip && Known(c, base, s.trials, x) {
      CompletedInIff(s.log, x);
      LogKnown(c, base, s, x);
    }
    assert s.log[..|s.log|] == s.log;
    forall x | c.skip && LogCompletes(s.log, x) ensures x in w.completed {
      CompletedInIff(s.log, x);
    }
    OneChanges(c, base, s, s', i);
  }

  lemma CrashKeeps(c: Config, base: Log, s: State, i: nat)
    requires Inv(c, base, s) && i < |c.ids|
    ensures Inv(c, base, Step(c, s, i, Crash))
  {
    hide WorkerInv, LogInv, HistoryInv;
    var s' := Step(c, s, i, Crash);
    IdleInv(c, base, s', i);
    OneChanges(c, base, s, s', i);
  }

  lemma IdleInv(c: Config, base: Log, s: State, i: nat)
    requires i < |s.workers| && s.workers[i].phase.Idle?
    ensures WorkerInv(c, base, s, i, s.workers[i])
  {
  }

  lemma LookKeeps(c: Config, base: Log, s: State, i: nat)
    requires Inv(c, base, s) && Enabled(c, s, i, Look)
    ensures Inv(c, base, Step(c, s, i, Look))
  {
    hide LogInv, HistoryInv, Passed, HasMatch, Owns, IsSeedLine, SeedOf, Known, LogCompletes, SeedsBefore;
    var s' := Step(c, s, i, Look);
    assert WorkerInv(c, base, s, i, s.workers[i]);
    assert WorkerInv(c, base, s', i, s'.workers[i]);
    OneChanges(c, base, s, s', i);
  }

  lemma DecideKeeps(c: Config, base: Log, s: State, i: nat)
    requires Inv(c, base, s) && Enabled(c, s, i, Decide)
    ensures Inv(c, base, Step(c, s, i, Decide))
  {
    hide LogInv, HistoryInv, Passed, CompletedInv, HasMatch, Owns, IsSeedLine, SeedOf, WorkerInv, PhaseInv, AfterDecide;
    var s' := Step(c, s, i, Decide);
    var w, w' := s.workers[i], AfterDecide(c, c.ids[i], s.workers[i]);
    WorkerGrows(c, base, s, s', i, w);
    Parts(c, base, s', i, w);
    DecidedPhase(c, s', i, w);
    DecidedPassed(c, base, s', i, w);
    DecidedRest(c, base, s', w, c.ids[i]);
    WorkerParts(c, base, s', i, w');
    OneChanges(c, base, s, s', i);
  }

  lemma Parts(c: Config, base: Log, s: State, i: nat, w: Worker)
    requires WorkerInv(c, base, s, i, w) && !w.phase.Idle?
    ensures PhaseInv(c, s, i, w) && CompletedInv(c, base, s, w) && Passed(c, base, s.trials, i, w.pos)
  {
  }

  lemma WorkerParts(c: Config, base: Log, s: State, i: nat, w: Worker)
    requires PhaseInv(c, s, i, w) && CompletedInv(c, base, s, w) && Passed(c, base, s.trials, i, w.pos)
    ensures WorkerInv(c, base, s, i, w)
  {
  }

  lemma DecidedPhase(c: Config, s: State, i: nat, w: Worker)
    requires c.total >= 1 && i < |c.ids| && w.phase.Looked? && PhaseInv(c, s, i, w)
    ensures PhaseInv(c, s, i, AfterDecide(c, c.ids[i], w))
  {
    hide HasMatch, IsSeedLine, SeedOf;
  }

  lemma DecidedRest(c: Config, base: Log, s: State, w: Worker, ids: set<nat>)
    requires CompletedInv(c, base, s, w) && c.total >= 1 && w.pos < |c.lines|
    ensures CompletedInv(c, base, s, AfterDecide(c, ids, w))
  {
    hide Known, LogCompletes, IsSeedLine, SeedOf;
  }

  lemma DecidedPassed(c: Config, base: Log, s: State, i: nat, w: Worker)
    requires c.total >= 1 && i < |c.ids| && w.phase.Looked? && PhaseInv(c, s, i, w) && CompletedInv(c, base, s, w)
    requires Passed(c, base, s.trials, i, w.pos)
    ensures Passed(c, base, s.trials, i, AfterDecide(c, c.ids[i], w).pos)
  {
    hide Known, LogCompletes, HasMatch, IsSeedLine, SeedOf, TriedAt;
    var w' := AfterDecide(c, c.ids[i], w);
    forall p: nat | p < w'.pos && p < |c.lines| && IsSeedLine(c.lines[p]) && Owns(c, i, p)
      ensures Handled(c, base, s.trials, i, p)
    {
      if p == w.pos {
        assert SeedOf(c.lines[p]) in w.completed;
      }
    }
  }

  lemma AppendKeeps(c: Config, base: Log, s: State, i: nat, o: Outcome, extras: seq<string>)
    requires Inv(c, base, s) && Enabled(c, s, i, Append(o, extras))
    ensures Inv(c, base, Step(c, s, i, Append(o, extras)))
  {
    hide LogInv, HistoryInv, Passed, CompletedInv, HasMatch, Owns, IsSeedLine, SeedOf, WorkerInv, PhaseInv, Record, Concluded;
    var s' := Step(c, s, i, Append(o, extras));
    var w := s.workers[i];
    var seed := SeedOf(c.lines[w.pos]);
    Parts(c, base, s, i, w);
    AppendLog(c, base, s, i, o, extras);
    AppendHistory(c, base, s.trials, Trial(i, w.pos, o, extras));
    WorkerGrows(c, base, s, s', i, w);
    Parts(c, base, s', i, w);
    ConcludedPhase(c, s', i, w, seed, o, extras);
    ConcludedPassed(c, base, s', i, w, o);
    ConcludedCompleted(c, base, s', w, o);
    WorkerParts(c, base, s', i, Concluded(c, w, seed, o));
    OthersKeep(c, base, s, s', i);
  }

  lemma AppendHistory(c: Config, base: Log, trials: seq<Trial>, t: Trial)
    requires HistoryInv(c, base, trials) && Passed(c, base, trials, t.worker, t.pos)
    ensures HistoryInv(c, base, trials + [t])
  {
    hide Passed;
    var all := trials + [t];
    forall k | 0 <= k < |all| ensures Passed(c, base, all[..k], all[k].worker, all[k].pos) {
      assert all[..k] == if k < |trials| then trials[..k] else trials;
    }
  }

  lemma AppendLog(c: Config, base: Log, s: State, i: nat, o: Outcome, extras: seq<string>)
    requires LogInv(c, base, s) && Enabled(c, s, i, Append(o, extras)) && PhaseInv(c, s, i, s.workers[i])
    ensures var s' := Step(c, s, i, Append(o, extras)); LogInv(c, base, s') && Grows(s, s')
  {
    hide HasMatch, IsSeedLine, SeedOf, Record, Owns, Concluded, SeedsBefore;
    var s' := Step(c, s, i, Append(o, extras));
    assert s'.log[..|base|] == s.log[..|base|];
    assert TrialInv(c, s'.trials[|s.trials|], s'.log[|s.log|]);
  }

  lemma ConcludedPhase(c: Config, s: State, i: nat, w: Worker, seed: string, o: Outcome, extras: seq<string>)
    requires w.phase.Running? && PhaseInv(c, s, i, w) && s.log != [] && s.log[|s.log| - 1] == Record(o, seed, extras)
    ensures PhaseInv(c, s, i, Concluded(c, w, seed, o))
  {
    hide IsSeedLine, SeedOf, Record, Owns;
    RecordMatches(o, seed, extras);
    if o.Matched? {
      assert HasMatch(s.log);
    }
  }

  lemma ConcludedPassed(c: Config, base: Log, s: State, i: nat, w: Worker, o: Outcome)
    requires w.phase.Running? && w.pos < |c.lines| && Passed(c, base, s.trials, i, w.pos)
    requires s.trials != [] && s.trials[|s.trials| - 1].worker == i && s.trials[|s.trials| - 1].pos == w.pos
    ensures Passed(c, base, s.trials, i, Concluded(c, w, SeedOf(c.lines[w.pos]), o).pos)
  {
    hide Known, IsSeedLine, SeedOf, Owns;
    assert TriedAt(s.trials, i, w.pos);
  }

  lemma ConcludedCompleted(c: Config, base: Log, s: State, w: Worker, o: Outcome)
    requires w.pos < |c.lines| && CompletedInv(c, base, s, w)
    requires s.trials != [] && s.trials[|s.trials| - 1].pos == w.pos && s.trials[|s.trials| - 1].outcome == o
    ensures CompletedInv(c, base, s, Concluded(c, w, SeedOf(c.lines[w.pos]), o))
  {
    hide LogCompletes, IsSeedLine, SeedOf, UpTo;
    if !o.Error? {
      assert Covers(c, s.trials[|s.trials| - 1], SeedOf(c.lines[w.pos]));
      assert Known(c, base, s.trials, SeedOf(c.lines[w.pos]));
    }
  }

  // ---------------------------------------------------------------- which line is whose

  /** The seed lines before line p. */
  function SeedLinesBefore(lines: seq<string>, p: nat): set<nat> {
    set q: nat | q < p && q < |lines| && IsSeedLine(lines[q])
  }

  lemma {:induction false} SeedsCounted(lines: seq<string>, p: nat)
    requires p <= |lines|
    ensures SeedsBefore(lines, p) == |SeedLinesBefore(lines, p)|
  {
    hide IsSeedLine;
    if p > 0 {
      SeedsCounted(lines, p - 1);
      var a, b := SeedLinesBefore(lines, p - 1), SeedLinesBefore(lines, p);
      if IsSeedLine(lines[p - 1]) {
        assert b == a + {p - 1};
      } else {
        assert b == a;
      }
    } else {
      assert SeedLinesBefore(lines, 0) == {};
    }
  }

  /** A worker owns the lines whose number among the seed lines, from zero, has one of its residues. */
  lemma OwnsIff(c: Config, i: nat, p: nat)
    requires c.total >= 1 && p < |c.lines|
    ensures Owns(c, i, p) <==> i < |c.ids| && |SeedLinesBefore(c.lines, p)| % c.total in c.ids[i]
  {
    hide IsSeedLine;
    SeedsCounted(c.lines, p);
  }
}
