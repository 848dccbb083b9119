/** Batch files and progress logs as texts: the seed of a line, what a log says is completed. */
module BatchLog {
  import opened Text
  import opened Wrappers

  const TAB := '\t'

  type Log = seq<string>

  // ---------------------------------------------------------------- fields

  /** str.split on tabs. */
  function Fields(line: string): (f: seq<string>)
    ensures |f| >= 1
  {
    if line == "" then [""]
    else
      var f := Fields(line[1..]);
      if line[0] == TAB then [""] + f else [[line[0]] + f[0]] + f[1..]
  }

  /** What comes before the first c; the whole text when there is none. */
  function UpTo(c: char, s: string): (r: string)
    ensures r <= s && c !in r && (|r| < |s| ==> s[|r|] == c) && (c !in s ==> r == s)
  {
    if s == "" || s[0] == c then "" else [s[0]] + UpTo(c, s[1..])
  }

  lemma {:induction false} FieldsSplit(a: string, rest: string)
    requires TAB !in a
    ensures Fields(a + [TAB] + rest) == [a] + Fields(rest)
  {
    var line := a + [TAB] + rest;
    if a == "" {
      assert line[1..] == rest && line[0] == TAB;
    } else {
      FieldsSplit(a[1..], rest);
      assert line[1..] == a[1..] + [TAB] + rest;
      assert line[0] == a[0] && a == [a[0]] + a[1..];
    }
  }

  lemma {:induction false} FieldsOne(a: string)
    requires TAB !in a
    ensures Fields(a) == [a]
  {
    if a != "" {
      FieldsOne(a[1..]);
      assert a == [a[0]] + a[1..];
    }
  }

  lemma {:induction false} UpToSplit(c: char, a: string, rest: string)
    requires c !in a
    ensures UpTo(c, a + [c] + rest) == a
  {
    var line := a + [c] + rest;
    if a != "" {
      UpToSplit(c, a[1..], rest);
      assert line[1..] == a[1..] + [c] + rest;
    }
  }

  /** Splitting off a first field without tabs. */
  lemma FirstField(a: string, rest: string)
    requires TAB !in a
    ensures Fields(a + [TAB] + rest) == [a] + Fields(rest) && UpTo(TAB, a + [TAB] + rest) == a
    ensures Fields(a) == [a] && UpTo(TAB, a) == a
  {
    hide Fields, UpTo;
    FieldsSplit(a, rest);
    FieldsOne(a);
    UpToSplit(TAB, a, rest);
  }

  /** The text is s, or s and a tab and more: s is its first field when s has no tab. */
  predicate Leads(s: string, text: string) {
    s == text || s + [TAB] <= text
  }

  lemma FirstFieldOf(text: string)
    ensures Fields(text)[0] == UpTo(TAB, text)
    ensures var a := UpTo(TAB, text);
      |a| < |text| ==> text == a + [TAB] + text[|a| + 1..] && Fields(text) == [a] + Fields(text[|a| + 1..])
    ensures |UpTo(TAB, text)| == |text| ==> |Fields(text)| == 1
  {
    hide Fields, UpTo;
    var a := UpTo(TAB, text);
    if |a| < |text| {
      var rest := text[|a| + 1..];
      assert text == a + [TAB] + rest;
      FirstField(a, rest);
    } else {
      assert a == text;
      FirstField(a, "");
    }
  }

  lemma LeadsIff(s: string, text: string)
    requires TAB !in s
    ensures Leads(s, text) <==> s == UpTo(TAB, text)
  {
    hide Fields, UpTo;
    FirstFieldOf(text);
    FirstField(s, "");
    if s + [TAB] <= text {
      assert text == s + [TAB] + text[|s| + 1..];
      FirstField(s, text[|s| + 1..]);
    }
  }

  // ---------------------------------------------------------------- completed seeds

  predicate Success(status: string) {
    status == "MATCHED" || status == "CHECKED"
  }

  /** The line tells that s, a text without tabs, was tried to the end. */
  predicate Completes(line: string, s: string) {
    s != "" && TAB !in s && (Tells("MATCHED", line, s) || Tells("CHECKED", line, s))
  }

  /** The line is the status and s, possibly with more fields after them. */
  predicate Tells(status: string, line: string, s: string) {
    status + [TAB] <= line && Leads(s, line[|status| + 1..])
  }

  ghost predicate LogCompletes(log: Log, s: string) {
    exists k :: 0 <= k < |log| && Completes(log[k], s)
  }

  lemma {:induction false} FieldsTabFree(line: string)
    ensures forall k :: 0 <= k < |Fields(line)| ==> TAB !in Fields(line)[k]
  {
    if line != "" {
      FieldsTabFree(line[1..]);
    }
  }

  lemma TellsFields(status: string, line: string, s: string)
    requires TAB !in status && TAB !in s
    ensures Tells(status, line, s) <==> |Fields(line)| >= 2 && Fields(line)[0] == status && Fields(line)[1] == s
  {
    hide Fields, UpTo, Leads;
    var a := UpTo(TAB, line);
    FirstFieldOf(line);
    if status + [TAB] <= line {
      assert line == status + [TAB] + line[|status| + 1..];
      FirstField(status, line[|status| + 1..]);
    }
    if |a| < |line| {
      var rest := line[|a| + 1..];
      FirstFieldOf(rest);
      LeadsIff(s, rest);
    }
  }

  /** The fields that _load_completed_seeds looks at say exactly what the line completes. */
  lemma CompletesFields(line: string, s: string)
    ensures Completes(line, s)
       <==> |Fields(line)| >= 2 && s != "" && Fields(line)[1] == s && Success(Fields(line)[0])
  {
    hide Tells, Fields;
    FieldsTabFree(line);
    if TAB !in s {
      TellsFields("MATCHED", line, s);
      TellsFields("CHECKED", line, s);
    }
  }

  /** _load_completed_seeds; None stands for no file name or no file. */
  method LoadCompletedSeeds(file: Option<Log>) returns (completed: set<string>)
    ensures forall s :: s in completed <==> file.Some? && LogCompletes(file.value, s)
  {
    hide Fields, Completes;
    if file.None? {
      return {};
    }
    var log, status: map<string, string> := file.value, map[];
    for k := 0 to |log|
      invariant forall s :: s in status && Success(status[s]) <==> LogCompletes(log[..k], s)
    {
      var parts := Fields(log[k]);
      NextLine(log, k);
      if |parts| < 2 {
        continue;
      }
      var word, seed := parts[0], parts[1];
      if seed == "" {
        continue;
      }
      if seed in status && Success(status[seed]) {
        continue;
      }
      if Success(word) || seed !in status {
        status := status[seed := word];
      }
    }
    assert log[..|log|] == log;
    completed := set s | s in status && Success(status[s]);
  }

  /** What the first two fields of a line say of s. */
  predicate FieldsSay(line: string, s: string) {
    |Fields(line)| >= 2 && s != "" && Fields(line)[1] == s && Success(Fields(line)[0])
  }

  lemma NextLine(log: Log, k: nat)
    requires k < |log|
    ensures forall s :: LogCompletes(log[..k + 1], s) <==> (LogCompletes(log[..k], s) || FieldsSay(log[k], s))
  {
    hide Fields, Completes;
    assert log[..k + 1] == log[..k] + [log[k]];
    forall s ensures LogCompletes(log[..k + 1], s) <==> (LogCompletes(log[..k], s) || FieldsSay(log[k], s)) {
      MoreCompletes(log[..k], [log[k]], s);
      CompletesFields(log[k], s);
      var one := [log[k]];
      assert LogCompletes(one, s) <==> Completes(one[0], s);
    }
  }

  lemma MoreCompletes(log: Log, more: Log, s: string)
    ensures LogCompletes(log + more, s) <==> LogCompletes(log, s) || LogCompletes(more, s)
  {
    hide Completes;
    var all := log + more;
    if k :| 0 <= k < |all| && Completes(all[k], s) {
      assert k < |log| || more[k - |log|] == all[k];
    }
    if k :| 0 <= k < |log| && Completes(log[k], s) {
      assert all[k] == log[k];
    }
    if k :| 0 <= k < |more| && Completes(more[k], s) {
      assert all[|log| + k] == more[k];
    }
  }

  /** The order of the lines, and any ERROR lines among them, make no difference. */
  lemma OrderIrrelevant(a: Log, b: Log, s: string)
    requires forall line :: line in a && Success(Fields(line)[0]) <==> line in b && Success(Fields(line)[0])
    ensures LogCompletes(a, s) <==> LogCompletes(b, s)
  {
    hide Fields, Completes;
    forall line ensures Completes(line, s) ==> Success(Fields(line)[0]) {
      CompletesFields(line, s);
    }
    if k :| 0 <= k < |a| && Completes(a[k], s) {
      assert a[k] in b;
    }
    if k :| 0 <= k < |b| && Completes(b[k], s) {
      assert b[k] in a;
    }
  }

  // ---------------------------------------------------------------- matches

  ghost predicate HasMatch(log: Log) {
    exists k :: 0 <= k < |log| && "MATCHED\t" <= log[k]
  }

  /** _progress_contains_match. */
  method ProgressContainsMatch(file: Option<Log>) returns (found: bool)
    ensures found <==> file.Some? && HasMatch(file.value)
  {
    if file.None? {
      return false;
    }
    for k := 0 to |file.value|
      invariant forall j :: 0 <= j < k ==> !("MATCHED\t" <= file.value[j])
    {
      if "MATCHED\t" <= file.value[k] {
        return true;
      }
    }
    found := false;
  }

  // ---------------------------------------------------------------- records

  datatype Outcome = Error | Checked | Matched

  function Status(o: Outcome): string {
    match o
    case Error => "ERROR"
    case Checked => "CHECKED"
    case Matched => "MATCHED"
  }

  /** The rest of a record: a tab before each further field. */
  function Extras(fields: seq<string>): string {
    if fields == [] then "" else [TAB] + fields[0] + Extras(fields[1..])
  }

  /** The line that _append_progress writes. */
  function Record(o: Outcome, seed: string, extras: seq<string>): string {
    Status(o) + [TAB] + (seed + Extras(extras))
  }

  lemma UpToJoined(seed: string, extras: seq<string>)
    ensures UpTo(TAB, seed + Extras(extras)) == UpTo(TAB, seed)
  {
    var a, text := UpTo(TAB, seed), seed + Extras(extras);
    assert Leads(a, text) by {
      if |a| < |seed| {
        assert text[..|a| + 1] == a + [TAB];
      } else if extras != [] {
        assert text[|a|] == TAB;
        assert text[..|a| + 1] == a + [TAB];
      }
    }
    LeadsIff(a, text);
  }

  lemma StatusOf(o: Outcome, line: string, status: string)
    requires Status(o) + [TAB] <= line && TAB !in status && status + [TAB] <= line
    ensures status == Status(o)
  {
    hide Fields, UpTo;
    var a := Status(o);
    assert TAB !in a;
    assert line == a + [TAB] + line[|a| + 1..];
    assert line == status + [TAB] + line[|status| + 1..];
    FirstField(a, line[|a| + 1..]);
    FirstField(status, line[|status| + 1..]);
  }

  /** A record completes the seed up to its first tab, unless it is an ERROR record. */
  lemma RecordCompletes(o: Outcome, seed: string, extras: seq<string>, s: string)
    ensures Completes(Record(o, seed, extras), s) <==> !o.Error? && s != "" && s == UpTo(TAB, seed)
  {
    var line, text := Record(o, seed, extras), seed + Extras(extras);
    assert line[|Status(o)| + 1..] == text;
    UpToJoined(seed, extras);
    if TAB !in s {
      LeadsIff(s, text);
      RecordTells(o, line, "MATCHED");
      RecordTells(o, line, "CHECKED");
    }
  }

  lemma RecordTells(o: Outcome, line: string, status: string)
    requires Status(o) + [TAB] <= line && TAB !in status
    ensures status + [TAB] <= line <==> status == Status(o)
  {
    if status + [TAB] <= line {
      StatusOf(o, line, status);
    }
  }

  /** The record of a seed marks that seed as completed exactly when the seed has no tab. */
  lemma OwnRecordIff(o: Outcome, seed: string, extras: seq<string>)
    requires !o.Error? && seed != ""
    ensures LogCompletes([Record(o, seed, extras)], seed) <==> TAB !in seed
  {
    hide Completes, Record;
    var log := [Record(o, seed, extras)];
    RecordCompletes(o, seed, extras, seed);
    assert LogCompletes(log, seed) <==> Completes(log[0], seed);
  }

  lemma RecordMatches(o: Outcome, seed: string, extras: seq<string>)
    ensures "MATCHED\t" <= Record(o, seed, extras) <==> o.Matched?
  {
    var line := Record(o, seed, extras);
    assert "MATCHED" + [TAB] == "MATCHED\t";
    RecordTells(o, line, "MATCHED");
  }

  // ---------------------------------------------------------------- seed lines

  /** Neither blank nor a comment. */
  predicate IsSeedLine(line: string) {
    var stripped := Strip(line);
    stripped != "" && stripped[0] != '#'
  }

  /** The seed of a line, without the comment after it. */
  function SeedOf(line: string): string {
    Strip(UpTo('#', line))
  }

  /** A seed line has a seed. */
  lemma SeedNotEmpty(line: string)
    requires IsSeedLine(line)
    ensures SeedOf(line) != ""
  {
    var i := LeftStripAt(line);
    assert i < |line| && line[i] != '#' by {
      if i < |line| {
        RightStripKeeps(line[i..]);
      }
    }
    var text := UpTo('#', line);
    assert |text| > i by {
      assert |text| < |line| ==> line[|text|] == '#';
    }
    var j := LeftStripAt(text);
    assert j <= i by {
      assert text[i] == line[i];
    }
    RightStripKeeps(text[j..]);
  }

  // ---------------------------------------------------------------- which lines, which seed

  lemma {:induction false} UpToNone(c: char, s: string)
    requires c !in s
    ensures UpTo(c, s) == s
  {
  }

  /** The seed of a line is its text before a comment, without the space around it. */
  lemma SeedOfMeans(a: string, core: string, b: string, comment: string)
    requires AllSpace(a) && AllSpace(b) && '#' !in core
    requires core != "" && !Space(core[0]) && !Space(core[|core| - 1])
    ensures SeedOf(a + core + b) == core && SeedOf(a + core + b + ['#'] + comment) == core
    ensures IsSeedLine(a + core + b) && IsSeedLine(a + core + b + ['#'] + comment)
  {
    hide Strip, UpTo, LeftStrip, RightStrip;
    var text := a + core + b;
    assert !Space('#');
    assert '#' !in text;
    UpToNone('#', text);
    UpToSplit('#', text, comment);
    Stripped(a, core, b);
    BeginsWithSeed(text + ['#'] + comment, |a|);
  }

  /** The first character that is no space is no comment sign. */
  lemma BeginsWithSeed(line: string, n: nat)
    requires n < |line| && !Space(line[n]) && AllSpace(line[..n])
    ensures IsSeedLine(line) <==> line[n] != '#'
  {
    LeftStripped(line[..n], line[n..]);
    assert line[..n] + line[n..] == line;
    RightStripKeeps(line[n..]);
  }

  lemma BlankLine(line: string)
    requires AllSpace(line)
    ensures !IsSeedLine(line)
  {
    BlankStripped(line);
  }

  /** The lines of a log as they stand in the file: two statuses complete a seed, ERROR does not. */
  lemma LinesMean(seed: string, s: string)
    requires TAB !in seed && seed != ""
    ensures Record(Checked, seed, []) == "CHECKED\t" + seed
    ensures Record(Matched, seed, []) == "MATCHED\t" + seed
    ensures Record(Error, seed, []) == "ERROR\t" + seed
    ensures LogCompletes(["CHECKED\t" + seed], s) <==> s == seed
    ensures LogCompletes(["MATCHED\t" + seed], s) <==> s == seed
    ensures !LogCompletes(["ERROR\t" + seed], s)
  {
    hide Completes, UpTo;
    assert seed + "" == seed;
    UpToNone(TAB, seed);
    OneLine(Checked, seed, "CHECKED\t" + seed, s);
    OneLine(Matched, seed, "MATCHED\t" + seed, s);
    OneLine(Error, seed, "ERROR\t" + seed, s);
  }

  lemma OneLine(o: Outcome, seed: string, line: string, s: string)
    requires line == Record(o, seed, []) && UpTo(TAB, seed) == seed != ""
    ensures LogCompletes([line], s) <==> !o.Error? && s == seed
  {
    hide Completes, Record, UpTo;
    RecordCompletes(o, seed, [], s);
    var log := [line];
    assert LogCompletes(log, s) <==> Completes(log[0], s);
  }
}
