/**
 _levenshtein of recovery_utils.py: the two-row table, against the least number of single
 character insertions, deletions and substitutions that lead from one string to the other.
 */
module Levenshtein {

  // ---------------------------------------------------------------- edit scripts

  datatype Edit = Insert(at: nat, c: char) | Delete(at: nat) | Substitute(at: nat, c: char) {
    predicate Applies(s: string) {
      match this
      case Insert(at, _) => at <= |s|
      case Delete(at) => at < |s|
      case Substitute(at, _) => at < |s|
    }

    function Apply(s: string): string
      requires Applies(s)
    {
      match this
      case Insert(at, c) => s[..at] + [c] + s[at..]
      case Delete(at) => s[..at] + s[at + 1..]
      case Substitute(at, c) => s[..at] + [c] + s[at + 1..]
    }
  }

  /** The edits, one after the other, turn a into b. */
  predicate Transforms(script: seq<Edit>, a: string, b: string)
    decreases script
  {
    if script == [] then a == b
    else script[0].Applies(a) && Transforms(script[1..], script[0].Apply(a), b)
  }

  /** d is the least length of a script from a to b. */
  ghost predicate IsDistance(a: string, b: string, d: nat) {
    && (exists script :: Transforms(script, a, b) && |script| == d)
    && forall script :: Transforms(script, a, b) ==> |script| >= d
  }

  // ---------------------------------------------------------------- the recurrence

  function Min(x: nat, y: nat): nat {
    if x < y then x else y
  }

  function Cost(x: char, y: char): nat {
    if x == y then 0 else 1
  }

  /** The table entry for the prefixes a and b. */
  function Distance(a: string, b: string): nat
    decreases |a| + |b|
  {
    if a == [] then |b|
    else if b == [] then |a|
    else
      var a', b' := a[..|a| - 1], b[..|b| - 1];
      Min(Min(Distance(a, b') + 1, Distance(a', b) + 1), Distance(a', b') + Cost(a[|a| - 1], b[|b| - 1]))
  }

  /** The recurrence on strings that end in x and y. */
  lemma DistanceStep(a: string, x: char, b: string, y: char)
    ensures Distance(a + [x], b + [y])
         == Min(Min(Distance(a + [x], b) + 1, Distance(a, b + [y]) + 1), Distance(a, b) + Cost(x, y))
  {
    assert (a + [x])[..|a| + 1 - 1] == a && (b + [y])[..|b| + 1 - 1] == b;
  }

  lemma {:induction false} DistanceSelf(a: string)
    ensures Distance(a, a) == 0
  {
    if a != [] {
      DistanceSelf(a[..|a| - 1]);
    }
  }

  lemma {:induction false} DistanceSymmetric(a: string, b: string)
    ensures Distance(a, b) == Distance(b, a)
    decreases |a| + |b|
  {
    if a != [] && b != [] {
      var a', b' := a[..|a| - 1], b[..|b| - 1];
      DistanceSymmetric(a, b');
      DistanceSymmetric(a', b);
      DistanceSymmetric(a', b');
    }
  }

  /** Appending a character changes the distance by at most one. */
  lemma {:induction false} DistanceAppend(a: string, b: string)
    requires a != []
    ensures Distance(a, b) <= Distance(a[..|a| - 1], b) + 1
    ensures Distance(a[..|a| - 1], b) <= Distance(a, b) + 1
    decreases |a| + |b|
  {
    var a' := a[..|a| - 1];
    if b != [] {
      var b' := b[..|b| - 1];
      DistanceAppend(a, b');
      if a' != [] {
        DistanceAppend(a', b);
        DistanceAppend(a', b');
        DistanceSymmetric(a', b);
        DistanceSymmetric(a', b');
        DistanceAppend(b, a');
      } else {
        LengthBound(a, b');
      }
    }
  }

  lemma {:induction false} LengthBound(a: string, b: string)
    ensures Distance(a, b) <= |a| + |b| && Distance(a, b) + |a| >= |b|
    decreases |a| + |b|
  {
    if a != [] && b != [] {
      LengthBound(a, b[..|b| - 1]);
      LengthBound(a[..|a| - 1], b);
      LengthBound(a[..|a| - 1], b[..|b| - 1]);
    }
  }

  /** The triangle inequality of the recurrence. */
  lemma {:induction false} Triangle(a: string, b: string, c: string)
    ensures Distance(a, c) <= Distance(a, b) + Distance(b, c)
    decreases |a| + |b| + |c|
  {
    if a == [] {
      LengthBound(b, c);
    } else if c == [] {
      DistanceSymmetric(a, b);
      LengthBound(b, a);
    } else if b == [] {
      LengthBound(a, c);
    } else {
      var a', b', c' := a[..|a| - 1], b[..|b| - 1], c[..|c| - 1];
      Triangle(a', b, c);
      Triangle(a, b, c');
      Triangle(a, b', c);
      Triangle(a', b', c);
      Triangle(a, b', c');
      Triangle(a', b', c');
      DistanceAppend(a, c);
      DistanceSymmetric(a, c);
      DistanceSymmetric(a, c');
      DistanceAppend(c, a);
    }
  }

  // ---------------------------------------------------------------- scripts and the recurrence

  lemma {:induction false} CommonSuffix(a: string, b: string, t: string)
    ensures Distance(a + t, b + t) <= Distance(a, b)
    decreases t
  {
    hide Distance;
    if t == [] {
      assert a + t == a && b + t == b;
    } else {
      var t', c := t[..|t| - 1], t[|t| - 1];
      CommonSuffix(a, b, t');
      DistanceStep(a + t', c, b + t', c);
      assert a + t == (a + t') + [c] && b + t == (b + t') + [c];
    }
  }

  lemma OneCharacter(p: string, x: char, y: char)
    ensures Distance(p, p + [x]) <= 1 && Distance(p + [x], p) <= 1 && Distance(p + [x], p + [y]) <= 1
  {
    DistanceSelf(p);
    assert (p + [x])[..|p| + 1 - 1] == p;
    DistanceAppend(p + [x], p);
    DistanceSymmetric(p, p + [x]);
    DistanceStep(p, x, p, y);
  }

  lemma OneEdit(e: Edit, s: string)
    requires e.Applies(s)
    ensures Distance(s, e.Apply(s)) <= 1
  {
    hide Distance;
    var p, t := s[..e.at], s[e.at..];
    assert s == p + t;
    if e.Insert? {
      OneCharacter(p, e.c, e.c);
      CommonSuffix(p, p + [e.c], t);
    } else {
      var x, u := t[0], t[1..];
      assert s[e.at + 1..] == u && s == p + [x] + u;
      OneCharacter(p, x, if e.Substitute? then e.c else x);
      CommonSuffix(p + [x], if e.Delete? then p else p + [e.c], u);
    }
  }

  /** No script is shorter than the recurrence says. */
  lemma {:induction false} ScriptBound(script: seq<Edit>, a: string, b: string)
    requires Transforms(script, a, b)
    ensures |script| >= Distance(a, b)
    decreases script
  {
    if script == [] {
      DistanceSelf(a);
    } else {
      var a1 := script[0].Apply(a);
      OneEdit(script[0], a);
      ScriptBound(script[1..], a1, b);
      Triangle(a, a1, b);
    }
  }

  lemma {:induction false} ScriptConcat(u: seq<Edit>, v: seq<Edit>, a: string, b: string, c: string)
    requires Transforms(u, a, b) && Transforms(v, b, c)
    ensures Transforms(u + v, a, c)
    decreases u
  {
    hide Edit.Apply, Edit.Applies;
    if u == [] {
      assert u + v == v;
    } else {
      ScriptConcat(u[1..], v, u[0].Apply(a), b, c);
      assert (u + v)[1..] == u[1..] + v;
    }
  }

  lemma EditLift(e: Edit, a: string, t: string)
    requires e.Applies(a)
    ensures e.Applies(a + t) && e.Apply(a + t) == e.Apply(a) + t
  {
    assert (a + t)[..e.at] == a[..e.at] && (a + t)[e.at..] == a[e.at..] + t;
    if !e.Insert? {
      assert (a + t)[e.at + 1..] == a[e.at + 1..] + t;
    }
  }

  /** A script works unchanged in front of a common tail. */
  lemma {:induction false} ScriptLift(script: seq<Edit>, a: string, b: string, t: string)
    requires Transforms(script, a, b)
    ensures Transforms(script, a + t, b + t)
    decreases script
  {
    if script != [] {
      var e := script[0];
      EditLift(e, a, t);
      hide Edit.Apply, Edit.Applies;
      ScriptLift(script[1..], e.Apply(a), b, t);
    }
  }

  lemma Single(e: Edit, a: string, b: string)
    requires e.Applies(a) && e.Apply(a) == b
    ensures Transforms([e], a, b)
  {
    assert Transforms([], e.Apply(a), b);
    assert [e][1..] == [];
  }

  lemma ExtendAfter(script: seq<Edit>, e: Edit, a: string, b: string, c: string)
    requires Transforms(script, a, b) && e.Applies(b) && e.Apply(b) == c
    ensures Transforms(script + [e], a, c)
  {
    Single(e, b, c);
    ScriptConcat(script, [e], a, b, c);
  }

  lemma ExtendBefore(e: Edit, script: seq<Edit>, a: string, b: string, c: string)
    requires e.Applies(a) && e.Apply(a) == b && Transforms(script, b, c)
    ensures Transforms([e] + script, a, c)
  {
    assert ([e] + script)[1..] == script;
  }

  /** The last characters of a string can be typed, removed or replaced. */
  lemma LastEdits(a: string, x: char, y: char)
    ensures Insert(|a|, x).Applies(a) && Insert(|a|, x).Apply(a) == a + [x]
    ensures Delete(|a|).Applies(a + [x]) && Delete(|a|).Apply(a + [x]) == a
    ensures Substitute(|a|, y).Applies(a + [x]) && Substitute(|a|, y).Apply(a + [x]) == a + [y]
  {
    assert (a + [x])[..|a|] == a && (a + [x])[|a| + 1..] == [];
  }

  /** Which neighbour of the table an entry comes from. */
  lemma DistanceCases(a: string, b: string)
    requires a != [] && b != []
    ensures
      var a', b' := a[..|a| - 1], b[..|b| - 1];
      || Distance(a, b) == Distance(a, b') + 1
      || Distance(a, b) == Distance(a', b) + 1
      || Distance(a, b) == Distance(a', b') + Cost(a[|a| - 1], b[|b| - 1])
  {
  }

  lemma DistanceEmpty(b: string)
    ensures Distance([], b) == |b| == Distance(b, [])
  {
  }

  /** Some script is as short as the recurrence says. */
  lemma {:induction false} ScriptExists(a: string, b: string) returns (script: seq<Edit>)
    ensures Transforms(script, a, b) && |script| == Distance(a, b)
    decreases |a| + |b|
  {
    DistanceEmpty(a);
    DistanceEmpty(b);
    if a != [] && b != [] {
      DistanceCases(a, b);
    }
    hide Distance, Transforms;
    if a == [] && b == [] {
      NoEdits(a);
      script := [];
    } else if b != [] && (a == [] || Distance(a, b) == Distance(a, b[..|b| - 1]) + 1) {
      var b' := b[..|b| - 1];
      DistanceEmpty(b');
      script := ScriptExists(a, b');
      script := TypeLast(script, a, b', b);
    } else if b == [] || Distance(a, b) == Distance(a[..|a| - 1], b) + 1 {
      var a' := a[..|a| - 1];
      DistanceEmpty(a');
      script := ScriptExists(a', b);
      script := RemoveLast(script, a, a', b);
    } else {
      script := ScriptExists(a[..|a| - 1], b[..|b| - 1]);
      script := ReplaceLast(script, a, b);
    }
  }

  lemma NoEdits(a: string)
    ensures Transforms([], a, a)
  {
  }

  lemma TypeLast(script: seq<Edit>, a: string, b': string, b: string) returns (longer: seq<Edit>)
    requires b != [] && b' == b[..|b| - 1] && Transforms(script, a, b')
    ensures Transforms(longer, a, b) && |longer| == |script| + 1
  {
    hide Transforms;
    var y := b[|b| - 1];
    LastEdits(b', y, y);
    assert b' + [y] == b;
    ExtendAfter(script, Insert(|b'|, y), a, b', b);
    longer := script + [Insert(|b'|, y)];
  }

  lemma RemoveLast(script: seq<Edit>, a: string, a': string, b: string) returns (longer: seq<Edit>)
    requires a != [] && a' == a[..|a| - 1] && Transforms(script, a', b)
    ensures Transforms(longer, a, b) && |longer| == |script| + 1
  {
    hide Transforms;
    var x := a[|a| - 1];
    LastEdits(a', x, x);
    assert a' + [x] == a;
    ExtendBefore(Delete(|a'|), script, a, a', b);
    longer := [Delete(|a'|)] + script;
  }

  lemma ReplaceLast(script: seq<Edit>, a: string, b: string) returns (longer: seq<Edit>)
    requires a != [] && b != [] && Transforms(script, a[..|a| - 1], b[..|b| - 1])
    ensures Transforms(longer, a, b) && |longer| == |script| + Cost(a[|a| - 1], b[|b| - 1])
  {
    hide Transforms;
    var a', b', x, y := a[..|a| - 1], b[..|b| - 1], a[|a| - 1], b[|b| - 1];
    longer := script;
    ScriptLift(script, a', b', [x]);
    assert a' + [x] == a && b' + [y] == b;
    if x != y {
      LastEdits(b', x, y);
      ExtendAfter(script, Substitute(|b'|, y), a, b' + [x], b);
      longer := script + [Substitute(|b'|, y)];
    }
  }

  /** The recurrence is the edit distance. */
  lemma DistanceIsEditDistance(a: string, b: string)
    ensures IsDistance(a, b, Distance(a, b))
  {
    var script := ScriptExists(a, b);
    forall other | Transforms(other, a, b) ensures |other| >= Distance(a, b) {
      ScriptBound(other, a, b);
    }
  }

  /** It is a metric: zero only between equal strings, symmetric, with the triangle inequality. */
  lemma DistanceIsMetric(a: string, b: string, c: string)
    ensures Distance(a, b) == 0 <==> a == b
    ensures Distance(a, b) == Distance(b, a)
    ensures Distance(a, c) <= Distance(a, b) + Distance(b, c)
  {
    DistanceSelf(a);
    DistanceSymmetric(a, b);
    Triangle(a, b, c);
    var script := ScriptExists(a, b);
  }

  // ---------------------------------------------------------------- the code

  /** Entry j of the row for the first i characters of a. */
  ghost predicate IsRow(row: seq<nat>, a: string, b: string, i: nat, n: nat) {
    i <= |a| && n <= |b| && n < |row| && forall j :: 0 <= j <= n ==> row[j] == Distance(a[..i], b[..j])
  }

  method Levenshtein(a: string, b: string) returns (d: nat)
    ensures d == Distance(a, b) && IsDistance(a, b, d)
  {
    DistanceIsEditDistance(a, b);
    DistanceSelf(a);
    DistanceEmpty(a);
    DistanceEmpty(b);
    hide Distance, IsDistance;
    if a == b {
      return 0;
    }
    if a == [] {
      return |b|;
    }
    if b == [] {
      return |a|;
    }
    var prev := new nat[|b| + 1](j => j);
    FirstRow(prev[..], a, b);
    for i := 1 to |a| + 1
      invariant prev.Length == |b| + 1 && IsRow(prev[..], a, b, i - 1, |b|)
    {
      prev := NextRow(prev, a, b, i);
    }
    assert a[..|a|] == a && b[..|b|] == b;
    assert prev[..][|b|] == Distance(a[..|a|], b[..|b|]);
    return prev[prev.Length - 1];
  }

  /** The inner loop: row i of the table from row i - 1. */
  method NextRow(prev: array<nat>, a: string, b: string, i: nat) returns (curr: array<nat>)
    requires 1 <= i <= |a| && prev.Length == |b| + 1 && IsRow(prev[..], a, b, i - 1, |b|)
    ensures fresh(curr) && curr.Length == |b| + 1 && IsRow(curr[..], a, b, i, |b|)
  {
    hide Distance;
    curr := new nat[|b| + 1](j => if j == 0 then i else 0);
    FirstEntry(a, b, i);
    for j := 1 to |b| + 1
      invariant IsRow(curr[..], a, b, i, j - 1)
    {
      var cost := if a[i - 1] == b[j - 1] then 0 else 1;
      Entry(a, b, i, j);
      assert curr[..][j - 1] == Distance(a[..i], b[..j - 1]);
      assert prev[..][j] == Distance(a[..i - 1], b[..j]) && prev[..][j - 1] == Distance(a[..i - 1], b[..j - 1]);
      curr[j] := Min(Min(curr[j - 1] + 1, prev[j] + 1), prev[j - 1] + cost);
    }
  }

  lemma FirstRow(row: seq<nat>, a: string, b: string)
    requires |row| == |b| + 1 && forall j :: 0 <= j <= |b| ==> row[j] == j
    ensures IsRow(row, a, b, 0, |b|)
  {
    hide Distance;
    forall j | 0 <= j <= |b| ensures row[j] == Distance(a[..0], b[..j]) {
      assert a[..0] == [];
      DistanceEmpty(b[..j]);
    }
  }

  lemma FirstEntry(a: string, b: string, i: nat)
    requires i <= |a|
    ensures Distance(a[..i], b[..0]) == i
  {
    hide Distance;
    assert b[..0] == [];
    DistanceEmpty(a[..i]);
  }

  lemma Entry(a: string, b: string, i: nat, j: nat)
    requires 1 <= i <= |a| && 1 <= j <= |b|
    ensures Distance(a[..i], b[..j])
         == Min(Min(Distance(a[..i], b[..j - 1]) + 1, Distance(a[..i - 1], b[..j]) + 1),
                Distance(a[..i - 1], b[..j - 1]) + Cost(a[i - 1], b[j - 1]))
  {
    hide Distance;
    assert a[..i] == a[..i - 1] + [a[i - 1]] && b[..j] == b[..j - 1] + [b[j - 1]];
    DistanceStep(a[..i - 1], a[i - 1], b[..j - 1], b[j - 1]);
  }
}
