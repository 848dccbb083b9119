/** What holds over whole runs of the batch protocol, and the loop of one worker. */
module BatchRuns {
  import opened Wrappers
  import opened BatchLog
  import opened Batch
  import opened Bytes
  import opened Digits
  import opened Text

  // ---------------------------------------------------------------- every reachable state

  lemma InitInv(c: Config, base: Log, s: State)
    requires Init(c, base, s)
    ensures Inv(c, base, s)
  {
    hide PhaseInv, CompletedInv, Passed;
    assert s.log[..|base|] == base;
  }

  lemma NextInv(c: Config, base: Log, s: State, i: nat, a: Action)
    requires Inv(c, base, s) && Enabled(c, s, i, a)
    ensures Inv(c, base, Step(c, s, i, a))
  {
    hide Inv, Step;
    match a
    case Start => StartKeeps(c, base, s, i);
    case Crash => CrashKeeps(c, base, s, i);
    case Look => LookKeeps(c, base, s, i);
    case Decide => DecideKeeps(c, base, s, i);
    case Append(o, extras) => AppendKeeps(c, base, s, i, o, extras);
  }

  /** The invariant holds in every state of every run, whatever the interleaving. */
  lemma {:induction false} RunInv(c: Config, base: Log, t: seq<State>, n: nat)
    requires Run(c, base, t) && n < |t|
    ensures Inv(c, base, t[n])
  {
    hide Inv, Step, Init;
    if n == 0 {
      InitInv(c, base, t[0]);
    } else {
      RunInv(c, base, t, n - 1);
      assert Next(c, t[n - 1], t[n - 1 + 1]);
      var i: nat, a: Action :| Enabled(c, t[n - 1], i, a) && t[n] == Step(c, t[n - 1], i, a);
      NextInv(c, base, t[n - 1], i, a);
    }
  }

  // ---------------------------------------------------------------- owners

  /**
   Each line is only ever tried by its owner, so no two workers try the same line, at the same
   time or at different times, with or without skipping and restarts.
   */
  lemma OnlyOwnerTries(c: Config, base: Log, t: seq<State>, n: nat, p: nat) returns (owner: nat)
    requires Run(c, base, t) && n < |t| && Partition(c) && p < |c.lines|
    ensures Owns(c, owner, p)
    ensures forall k :: 0 <= k < |t[n].trials| && t[n].trials[k].pos == p ==> t[n].trials[k].worker == owner
    ensures forall i: nat :: i < |t[n].workers| && t[n].workers[i].phase.Running? && t[n].workers[i].pos == p ==> i == owner
  {
    hide SeedsBefore, Run, CompletedInv, Passed, IsSeedLine, SeedOf, Record, Takes, Partition;
    owner := OneOwner(c, p);
    RunInv(c, base, t, n);
    var s := t[n];
    forall k | 0 <= k < |s.trials| && s.trials[k].pos == p ensures s.trials[k].worker == owner {
      assert TrialInv(c, s.trials[k], s.log[|base| + k]);
    }
    forall i: nat | i < |s.workers| && s.workers[i].phase.Running? && s.workers[i].pos == p ensures i == owner {
      assert WorkerInv(c, base, s, i, s.workers[i]);
    }
  }

  /** A worker that skips completed seeds never runs one that was completed when it started. */
  lemma NotRunAgain(c: Config, base: Log, t: seq<State>, n: nat, i: nat)
    requires Run(c, base, t) && n < |t| && i < |t[n].workers| && c.skip && t[n].workers[i].phase.Running?
    ensures var s, w := t[n], t[n].workers[i];
      && w.pos < |c.lines| && w.since <= |s.log|
      && !LogCompletes(s.log[..w.since], SeedOf(c.lines[w.pos]))
  {
    hide LogCompletes, Run, Passed, IsSeedLine, SeedOf, Owns, LogInv, SeedsBefore, Known;
    RunInv(c, base, t, n);
    assert WorkerInv(c, base, t[n], i, t[n].workers[i]);
  }

  // ---------------------------------------------------------------- after a match

  /** Worker i begins the recovery of a seed between the two states. */
  predicate BeginsIn(s: State, s': State, i: nat) {
    i < |s.workers| && i < |s'.workers| && !s.workers[i].phase.Running? && s'.workers[i].phase.Running?
  }

  /** How many recoveries worker i begins along a path. */
  function Begins(t: seq<State>, i: nat): nat {
    if |t| < 2 then 0
    else Begins(t[..|t| - 1], i) + (if BeginsIn(t[|t| - 2], t[|t| - 1], i) then 1 else 0)
  }

  ghost predicate Path(c: Config, t: seq<State>) {
    t != [] && forall k :: 0 <= k < |t| - 1 ==> Next(c, t[k], t[k + 1])
  }

  function LookedCount(s: State, i: nat): nat {
    if i < |s.workers| && s.workers[i].phase.Looked? then 1 else 0
  }

  /** With a match in the log a step begins a recovery only where a look had come before the match. */
  lemma StepAfterMatch(c: Config, s: State, j: nat, a: Action, i: nat)
    requires Enabled(c, s, j, a) && HasMatch(s.log)
    ensures var s' := Step(c, s, j, a);
      HasMatch(s'.log) && (if BeginsIn(s, s', i) then 1 else 0) + LookedCount(s', i) <= LookedCount(s, i)
  {
    hide HasMatch, CompletedIn, IsSeedLine, SeedOf, Record;
    var s' := Step(c, s, j, a);
    MatchGrows(s, s');
  }

  /**
   After a match is logged each worker begins at most one more recovery, and only if it had
   already looked at the log for its current line.
   */
  lemma {:induction false} AtMostOneAfterMatch(c: Config, t: seq<State>, i: nat)
    requires Path(c, t) && HasMatch(t[0].log)
    ensures HasMatch(t[|t| - 1].log)
    ensures Begins(t, i) + LookedCount(t[|t| - 1], i) <= LookedCount(t[0], i) <= 1
    decreases t
  {
    hide HasMatch, Step, Enabled, BeginsIn, LookedCount;
    LookedAtMostOne(t[0], i);
    if |t| > 1 {
      var init := t[..|t| - 1];
      forall k | 0 <= k < |init| - 1 ensures Next(c, init[k], init[k + 1]) {
        assert Next(c, t[k], t[k + 1]);
      }
      AtMostOneAfterMatch(c, init, i);
      var s := t[|t| - 2];
      assert Next(c, t[|t| - 2], t[|t| - 2 + 1]);
      var j: nat, a: Action :| Enabled(c, s, j, a) && t[|t| - 1] == Step(c, s, j, a);
      StepAfterMatch(c, s, j, a, i);
    }
  }

  lemma LookedAtMostOne(s: State, i: nat)
    ensures LookedCount(s, i) <= 1
  {
  }

  /** Worker i has looked at the log for a seed line of its own that it does not skip. */
  predicate WouldBegin(c: Config, s: State, i: nat) {
    && Shaped(c, s) && i < |c.ids|
    && var w := s.workers[i];
       && w.phase.Looked? && w.pos < |c.lines| && IsSeedLine(c.lines[w.pos])
       && w.seedIndex % c.total in c.ids[i]
       && !(c.skip && SeedOf(c.lines[w.pos]) in w.completed)
  }

  /** With a match in the log, to begin now or to stand before a beginning needs the latter before. */
  lemma StepWouldBegin(c: Config, s: State, j: nat, a: Action, i: nat)
    requires Enabled(c, s, j, a) && HasMatch(s.log)
    ensures var s' := Step(c, s, j, a); BeginsIn(s, s', i) || WouldBegin(c, s', i) ==> WouldBegin(c, s, i)
  {
    hide HasMatch, CompletedIn, IsSeedLine, SeedOf, Record;
  }

  lemma {:induction false} BeginsOnlyIf(c: Config, t: seq<State>, i: nat)
    requires Path(c, t) && HasMatch(t[0].log)
    ensures HasMatch(t[|t| - 1].log)
    ensures Begins(t, i) > 0 || WouldBegin(c, t[|t| - 1], i) ==> WouldBegin(c, t[0], i)
    decreases t
  {
    hide HasMatch, Step, Enabled, BeginsIn, WouldBegin;
    AtMostOneAfterMatch(c, t, i);
    if |t| > 1 {
      var init := t[..|t| - 1];
      forall k | 0 <= k < |init| - 1 ensures Next(c, init[k], init[k + 1]) {
        assert Next(c, t[k], t[k + 1]);
      }
      BeginsOnlyIf(c, init, i);
      var s := t[|t| - 2];
      assert Next(c, t[|t| - 2], t[|t| - 2 + 1]);
      var j: nat, a: Action :| Enabled(c, s, j, a) && t[|t| - 1] == Step(c, s, j, a);
      StepWouldBegin(c, s, j, a, i);
    }
  }

  lemma BeginsIf(c: Config, s: State, i: nat) returns (t: seq<State>)
    requires WouldBegin(c, s, i)
    ensures Path(c, t) && t[0] == s && Begins(t, i) > 0
  {
    hide IsSeedLine, SeedOf;
    var s' := Step(c, s, i, Decide);
    t := [s, s'];
    assert Next(c, s, s');
    assert t[..1] == [s] && BeginsIn(s, s', i);
  }

  /**
   Once a match is logged, a worker can still begin a recovery if and only if it has looked at the
   log, before, for a seed line of its own that it does not skip.
   */
  lemma BeginsAfterMatchIff(c: Config, s: State, i: nat)
    requires HasMatch(s.log)
    ensures (exists t: seq<State> :: Path(c, t) && t[0] == s && Begins(t, i) > 0) <==> WouldBegin(c, s, i)
  {
    hide HasMatch, Next, Begins, WouldBegin;
    if t: seq<State> :| Path(c, t) && t[0] == s && Begins(t, i) > 0 {
      BeginsOnlyIf(c, t, i);
    }
    if WouldBegin(c, s, i) {
      var t := BeginsIf(c, s, i);
    }
  }

  // ---------------------------------------------------------------- building runs

  /** One more step. */
  lemma Go(c: Config, base: Log, t: seq<State>, i: nat, a: Action) returns (t': seq<State>)
    requires Run(c, base, t) && Enabled(c, t[|t| - 1], i, a)
    ensures Run(c, base, t') && t <= t' && |t'| == |t| + 1 && t'[|t|] == Step(c, t[|t| - 1], i, a)
  {
    hide Step, Enabled, Init;
    var s' := Step(c, t[|t| - 1], i, a);
    assert Next(c, t[|t| - 1], s');
    t' := t + [s'];
    forall k | 0 <= k < |t'| - 1 ensures Next(c, t'[k], t'[k + 1]) {
      assert k < |t| - 1 ==> Next(c, t[k], t[k + 1]);
    }
  }

  function FirstState(c: Config): State {
    State([], seq(|c.ids|, _ => Worker(Idle, 0, 0, {}, 0)), [])
  }

  lemma FirstRun(c: Config)
    requires c.total >= 1
    ensures Run(c, [], [FirstState(c)])
  {
  }

  lemma LetterIsSeed(a: char)
    requires !Space(a) && a != '#'
    ensures IsSeedLine([a]) && SeedOf([a]) == [a]
  {
    assert Strip([a]) == [a];
    assert UpTo('#', [a]) == [a];
  }

  /** Two workers and two seeds: the second begins its seed although the first has logged a match. */
  lemma LateBegin() returns (c: Config, t: seq<State>, n: nat)
    ensures Partition(c) && Run(c, [], t) && n + 1 < |t|
    ensures HasMatch(t[n].log) && BeginsIn(t[n], t[n + 1], 1)
  {
    hide Run, IsSeedLine, SeedOf, Record, CompletedIn, HasMatch, Init;
    c := Config(["a", "b"], 2, [{0}, {1}], false);
    assert Partition(c) by {
      assert Takes(c, 0, 0) && Takes(c, 1, 1);
      assert Taken(c, 0) && Taken(c, 1);
    }
    LetterIsSeed('a');
    LetterIsSeed('b');
    FirstRun(c);
    t := [FirstState(c)];
    t := Go(c, [], t, 1, Start);
    NoMatchYet();
    t := Go(c, [], t, 1, Look);
    t := Go(c, [], t, 1, Decide);
    t := Go(c, [], t, 1, Look);
    t := Go(c, [], t, 0, Start);
    t := Go(c, [], t, 0, Look);
    t := Go(c, [], t, 0, Decide);
    t := Go(c, [], t, 0, Append(Matched, []));
    n := |t| - 1;
    RecordMatches(Matched, "a", []);
    assert HasMatch(t[n].log) by { LastMatches(t[n].log, "a", []); }
    t := Go(c, [], t, 1, Decide);
  }

  lemma NoMatchYet()
    ensures !HasMatch([])
  {
  }

  // ---------------------------------------------------------------- reversed batch files

  lemma {:induction false} ReversedIndex(lines: seq<string>, p: nat)
    requires p <= |lines|
    ensures SeedsBefore(Reversed(lines), |lines| - p) == SeedsBefore(lines, |lines|) - SeedsBefore(lines, p)
    decreases |lines| - p
  {
    hide IsSeedLine;
    if p < |lines| {
      ReversedIndex(lines, p + 1);
      assert Reversed(lines)[|lines| - p - 1] == lines[p];
    }
  }

  lemma {:induction false} SeedLineAt(lines: seq<string>, n: nat, k: nat) returns (p: nat)
    requires n <= |lines| && k < SeedsBefore(lines, n)
    ensures p < n && IsSeedLine(lines[p]) && SeedsBefore(lines, p) == k
  {
    hide IsSeedLine;
    if SeedsBefore(lines, n - 1) == k {
      p := n - 1;
    } else {
      p := SeedLineAt(lines, n - 1, k);
    }
  }

  /** The same workers with the batch file reversed. */
  function Reverse(c: Config): Config {
    c.(lines := Reversed(c.lines))
  }

  /** Worker i owns the same seed lines when it reverses the file. */
  ghost predicate SameLines(c: Config, i: nat) {
    forall p: nat :: p < |c.lines| && IsSeedLine(c.lines[p]) ==>
      (Owns(c, i, p) <==> Owns(Reverse(c), i, |c.lines| - 1 - p))
  }

  /** Worker i takes the residues of k and of its mirror image among n, or neither. */
  predicate Mirrors(c: Config, i: nat, n: nat, k: nat)
    requires c.total >= 1 && k < n
  {
    Takes(c, i, k % c.total) <==> Takes(c, i, (n - 1 - k) % c.total)
  }

  ghost predicate AllMirror(c: Config, i: nat, n: nat)
    requires c.total >= 1
  {
    forall k: nat :: k < n ==> Mirrors(c, i, n, k)
  }

  lemma MirrorIndex(c: Config, i: nat, p: nat)
    requires c.total >= 1 && p < |c.lines| && IsSeedLine(c.lines[p])
    ensures var n, k := SeedsBefore(c.lines, |c.lines|), SeedsBefore(c.lines, p);
      && k < n
      && (Mirrors(c, i, n, k) <==> (Owns(c, i, p) <==> Owns(Reverse(c), i, |c.lines| - 1 - p)))
  {
    hide SeedsBefore, IsSeedLine;
    ReversedIndex(c.lines, p + 1);
    NextIndex(c.lines, p);
    assert |c.lines| - (p + 1) == |c.lines| - 1 - p;
  }

  /**
   A worker that alone reverses the file keeps its seed lines if and only if, for every index k
   below the number n of seed lines, it takes the residues of k and n - 1 - k or neither.
   */
  lemma ReverseKeepsLinesIff(c: Config, i: nat)
    requires c.total >= 1
    ensures var n := SeedsBefore(c.lines, |c.lines|);
      SameLines(c, i) <==> AllMirror(c, i, n)
  {
    hide SeedsBefore, IsSeedLine, Mirrors, Owns;
    var n := SeedsBefore(c.lines, |c.lines|);
    forall p: nat | p < |c.lines| && IsSeedLine(c.lines[p])
      ensures SeedsBefore(c.lines, p) < n
      ensures Mirrors(c, i, n, SeedsBefore(c.lines, p)) <==> (Owns(c, i, p) <==> Owns(Reverse(c), i, |c.lines| - 1 - p))
    {
      MirrorIndex(c, i, p);
    }
    if SameLines(c, i) {
      forall k: nat | k < n ensures Mirrors(c, i, n, k) {
        var p := SeedLineAt(c.lines, |c.lines|, k);
        assert Mirrors(c, i, n, SeedsBefore(c.lines, p));
      }
    }
    if AllMirror(c, i, n) {
      forall p: nat | p < |c.lines| && IsSeedLine(c.lines[p])
        ensures Owns(c, i, p) <==> Owns(Reverse(c), i, |c.lines| - 1 - p)
      {
        assert Mirrors(c, i, n, SeedsBefore(c.lines, p));
      }
    }
  }

  /** Reversing by any of the workers leaves every seed line with its one owner. */
  ghost predicate ReverseAgrees(c: Config) {
    forall i: nat :: i < |c.ids| ==> SameLines(c, i)
  }

  /** k and its mirror image are taken by the same workers. */
  ghost predicate SameTaker(c: Config, n: nat, k: nat)
    requires c.total >= 1 && k < n
  {
    forall i: nat :: i < |c.ids| ==> Mirrors(c, i, n, k)
  }

  ghost predicate AllSameTaker(c: Config, n: nat)
    requires c.total >= 1
  {
    forall k: nat :: k < n ==> SameTaker(c, n, k)
  }

  lemma SwapMirrors(c: Config, n: nat)
    requires c.total >= 1
    ensures AllSameTaker(c, n) <==> forall i: nat :: i < |c.ids| ==> AllMirror(c, i, n)
  {
    hide Mirrors;
    if AllSameTaker(c, n) {
      forall i: nat, k: nat | i < |c.ids| && k < n ensures Mirrors(c, i, n, k) {
        assert SameTaker(c, n, k);
      }
    }
    if forall i: nat :: i < |c.ids| ==> AllMirror(c, i, n) {
      forall k: nat, i: nat | k < n && i < |c.ids| ensures Mirrors(c, i, n, k) {
        assert AllMirror(c, i, n);
      }
    }
  }

  /**
   The owners in the file and in the reversed file agree on every seed line if and only if, for
   every k below the number n of seed lines, k and n - 1 - k fall to the same worker.
   */
  lemma ReverseAgreesIff(c: Config)
    requires c.total >= 1
    ensures ReverseAgrees(c) <==> AllSameTaker(c, SeedsBefore(c.lines, |c.lines|))
  {
    hide SeedsBefore, SameLines, AllMirror, AllSameTaker;
    var n := SeedsBefore(c.lines, |c.lines|);
    SwapMirrors(c, n);
    forall i: nat | i < |c.ids| ensures SameLines(c, i) <==> AllMirror(c, i, n) {
      ReverseKeepsLinesIff(c, i);
    }
  }

  /** Every worker takes at most one residue. */
  ghost predicate OneEach(c: Config) {
    forall i: nat, a: nat, b: nat :: Takes(c, i, a) && Takes(c, i, b) ==> a == b
  }

  lemma SameTakerResidue(c: Config, n: nat, k: nat)
    requires Complete(c) && OneEach(c) && k < n
    ensures SameTaker(c, n, k) <==> k % c.total == (n - 1 - k) % c.total
  {
    var a, b := k % c.total, (n - 1 - k) % c.total;
    assert Taken(c, a);
    var i: nat :| Takes(c, i, a);
    if SameTaker(c, n, k) {
      assert Mirrors(c, i, n, k);
    }
  }

  /**
   With one id for each worker that is: at most one seed line, one residue, or two residues and
   an odd number of seed lines.
   */
  lemma ReverseOneEachIff(c: Config)
    requires Complete(c) && OneEach(c)
    ensures var n := SeedsBefore(c.lines, |c.lines|);
      ReverseAgrees(c) <==> n <= 1 || c.total == 1 || (c.total == 2 && n % 2 == 1)
  {
    hide SeedsBefore, ReverseAgrees, SameTaker, OneEach;
    var n, t := SeedsBefore(c.lines, |c.lines|), c.total;
    ReverseAgreesIff(c);
    forall k: nat | k < n ensures SameTaker(c, n, k) <==> k % t == (n - 1 - k) % t {
      SameTakerResidue(c, n, k);
    }
    if n > 1 && forall k: nat :: k < n ==> SameTaker(c, n, k) {
      assert SameTaker(c, n, 0) && SameTaker(c, n, 1);
      TwoResidues(n, t);
    }
    if n <= 1 || t == 1 || (t == 2 && n % 2 == 1) {
      forall k: nat | k < n ensures SameTaker(c, n, k) {
        ParityMirror(k, n, t);
      }
    }
  }

  lemma NextIndex(lines: seq<string>, p: nat)
    requires p < |lines| && IsSeedLine(lines[p])
    ensures SeedsBefore(lines, p + 1) == SeedsBefore(lines, p) + 1 <= SeedsBefore(lines, |lines|)
  {
    hide IsSeedLine;
    SeedsMonotone(lines, p + 1, |lines|);
  }

  lemma {:induction false} SeedsMonotone(lines: seq<string>, p: nat, q: nat)
    requires p <= q <= |lines|
    ensures SeedsBefore(lines, p) <= SeedsBefore(lines, q)
  {
    hide IsSeedLine;
    if p < q {
      SeedsMonotone(lines, p, q - 1);
    }
  }

  lemma TwoResidues(n: nat, t: nat)
    requires n >= 2 && t >= 1 && 0 % t == (n - 1) % t && 1 % t == (n - 2) % t
    ensures t == 1 || (t == 2 && n % 2 == 1)
  {
    if t >= 2 {
      var q := (n - 1) / t;
      assert n - 1 == q * t;
      assert q >= 1;
      assert n - 2 == (q - 1) * t + (t - 1);
      DivMod(q - 1, t - 1, t);
    }
  }

  lemma ParityMirror(k: nat, n: nat, t: nat)
    requires k < n && t >= 1 && (n <= 1 || t == 1 || (t == 2 && n % 2 == 1))
    ensures k % t == (n - 1 - k) % t
  {
  }

  // ---------------------------------------------------------------- the loop of one worker

  ghost method Extend(c: Config, t: seq<State>, i: nat, a: Action) returns (t': seq<State>)
    requires Path(c, t) && Enabled(c, t[|t| - 1], i, a)
    ensures Path(c, t') && t' != [] && t'[0] == t[0] && t'[|t'| - 1] == Step(c, t[|t| - 1], i, a)
  {
    hide Step, Enabled;
    var s' := Step(c, t[|t| - 1], i, a);
    assert Next(c, t[|t| - 1], s');
    t' := t + [s'];
    forall k | 0 <= k < |t'| - 1 ensures Next(c, t'[k], t'[k + 1]) {
      assert k < |t| - 1 ==> Next(c, t[k], t[k + 1]);
    }
  }

  /** The state in which only worker i has moved. */
  function With(s: State, i: nat, log: Log, w: Worker, trials: seq<Trial>): State
    requires i < |s.workers|
  {
    State(log, s.workers[i := w], trials)
  }

  lemma StartStep(c: Config, s: State, i: nat)
    requires Shaped(c, s) && i < |c.ids|
    ensures Enabled(c, s, i, Start) && Step(c, s, i, Start) == With(s, i, s.log, Started(c, s.log), s.trials)
  {
  }

  lemma LookStep(c: Config, s: State, i: nat, log: Log, w: Worker, trials: seq<Trial>)
    requires Shaped(c, s) && i < |c.ids| && w.phase.Ready?
    ensures var at := With(s, i, log, w, trials);
      && Enabled(c, at, i, Look)
      && Step(c, at, i, Look) == With(s, i, log, AfterLook(c, log, w), trials)
  {
    hide AfterLook;
    assert s.workers[i := w][i := AfterLook(c, log, w)] == s.workers[i := AfterLook(c, log, w)];
  }

  lemma DecideStep(c: Config, s: State, i: nat, log: Log, w: Worker, trials: seq<Trial>)
    requires Shaped(c, s) && i < |c.ids| && w.phase.Looked? && w.pos < |c.lines|
    ensures var at := With(s, i, log, w, trials);
      && Enabled(c, at, i, Decide)
      && Step(c, at, i, Decide) == With(s, i, log, AfterDecide(c, c.ids[i], w), trials)
  {
    hide AfterDecide;
    assert s.workers[i := w][i := AfterDecide(c, c.ids[i], w)] == s.workers[i := AfterDecide(c, c.ids[i], w)];
  }

  lemma AppendStep(c: Config, s: State, i: nat, log: Log, w: Worker, trials: seq<Trial>, o: Outcome, extras: seq<string>)
    requires Shaped(c, s) && i < |c.ids| && w.phase.Running? && w.pos < |c.lines|
    ensures var at, seed := With(s, i, log, w, trials), SeedOf(c.lines[w.pos]);
      && Enabled(c, at, i, Append(o, extras))
      && Step(c, at, i, Append(o, extras))
         == With(s, i, log + [Record(o, seed, extras)], Concluded(c, w, seed, o), trials + [Trial(i, w.pos, o, extras)])
  {
    hide Concluded, Record, SeedOf;
    var w' := Concluded(c, w, SeedOf(c.lines[w.pos]), o);
    assert s.workers[i := w][i := w'] == s.workers[i := w'];
  }

  /** From the given length on, the trials are worker i's and have the outcomes that `attempt` gives. */
  ghost predicate TrialsBy(trials: seq<Trial>, from: nat, i: nat, attempt: nat -> (Outcome, seq<string>)) {
    |trials| >= from && forall k :: from <= k < |trials| ==>
      trials[k].worker == i && (trials[k].outcome, trials[k].extras) == attempt(trials[k].pos)
  }

  /**
   The main loop of a worker that runs alone from state s on: `attempt` gives the outcome of the
   seed on each line and the further fields of its record. Every round is a step of the protocol.
   */
  method WorkerLoop(c: Config, ghost s: State, i: nat, log: Log, attempt: nat -> (Outcome, seq<string>))
      returns (log': Log, matched: bool, ghost t: seq<State>)
    requires Shaped(c, s) && i < |c.ids| && s.log == log
    ensures Path(c, t) && t[0] == s && t[|t| - 1].log == log'
    ensures var last := t[|t| - 1];
      && Shaped(c, last) && (last.workers[i].phase.Stopped? || last.workers[i].phase.Finished?)
      && (last.workers[i].phase.Stopped? ==> HasMatch(log'))
    ensures matched ==> HasMatch(log')
    ensures TrialsBy(t[|t| - 1].trials, |s.trials|, i, attempt)
  {
    hide Next, HasMatch, IsSeedLine, SeedOf, Record, CompletedIn, LogCompletes, Step, Path;
    var completed := {};
    if c.skip {
      completed := LoadCompletedSeeds(Some(log));
      forall x ensures x in completed <==> x in CompletedIn(log) {
        CompletedInIff(log, x);
      }
    }
    log', matched := log, false;
    var pos, seedIndex := 0, 0;
    ghost var trials := s.trials;
    ghost var w := Started(c, log);
    assert w.completed == completed;
    OnePath(c, s);
    StartStep(c, s, i);
    t := Extend(c, [s], i, Start);
    while pos < |c.lines|
      invariant pos <= |c.lines| && !matched && Path(c, t) && t != [] && t[0] == s
      invariant w == Worker(Ready, pos, seedIndex, completed, |log|)
      invariant t[|t| - 1] == With(s, i, log', w, trials) && TrialsBy(trials, |s.trials|, i, attempt)
    {
      LookStep(c, s, i, log', w, trials);
      t := Extend(c, t, i, Look);
      w := AfterLook(c, log', w);
      var found := ProgressContainsMatch(Some(log'));
      if found {
        return;
      }
      DecideStep(c, s, i, log', w, trials);
      t := Extend(c, t, i, Decide);
      w := AfterDecide(c, c.ids[i], w);
      var line := c.lines[pos];
      if !IsSeedLine(line) {
        pos := pos + 1;
        continue;
      }
      var seed := SeedOf(line);
      if c.skip && seed in completed {
        pos, seedIndex := pos + 1, seedIndex + 1;
        continue;
      }
      if seedIndex % c.total !in c.ids[i] {
        pos, seedIndex := pos + 1, seedIndex + 1;
        continue;
      }
      seedIndex := seedIndex + 1;
      var (o, extras) := attempt(pos);
      AppendStep(c, s, i, log', w, trials, o, extras);
      t := Extend(c, t, i, Append(o, extras));
      w := Concluded(c, w, seed, o);
      trials := trials + [Trial(i, pos, o, extras)];
      log' := log' + [Record(o, seed, extras)];
      if c.skip && !o.Error? {
        completed := completed + {seed};
      }
      if o.Matched? {
        matched := true;
        LastMatches(log', seed, extras);
        return;
      }
      pos := pos + 1;
    }
    LookStep(c, s, i, log', w, trials);
    t := Extend(c, t, i, Look);
  }

  lemma OnePath(c: Config, s: State)
    ensures Path(c, [s])
  {
  }

  lemma LastMatches(log: Log, seed: string, extras: seq<string>)
    requires log != [] && log[|log| - 1] == Record(Matched, seed, extras)
    ensures HasMatch(log)
  {
    RecordMatches(Matched, seed, extras);
  }
}
