/** generate_brute_force_candidates and estimate_brute_force_count. */
module BruteForce {
  import opened Arrangements
  import opened Bytes
  import opened FirstSeen
  import opened Itertools
  import opened ProductOrder
  import opened Text

  const CHARSETS: map<string, string> :=
    map["lowercase" := "abcdefghijklmnopqrstuvwxyz",
        "uppercase" := "ABCDEFGHIJKLMNOPQRSTUVWXYZ",
        "digits" := "0123456789",
        "symbols" := "!@#$%^&*()-_=+[]{}|;:,.<>?"]

  const ESTIMATE_LIMIT := 1_000_000_000

  datatype Generated = NegativeLength | Candidates(list: seq<string>)

  /** The characters of the named sets; unknown names are passed over. */
  function Chars(names: seq<string>): string {
    if names == [] then ""
    else
      Chars(names[..|names| - 1]) + CharsOf(names[|names| - 1])
  }

  function CharsOf(name: string): string {
    if name in CHARSETS then CHARSETS[name] else ""
  }

  function Strings(charset: string, len: nat): seq<string> {
    CartesianProduct(Repeat(charset, len))
  }

  /** The strings of n lengths from lo on; none without characters, not even the empty string. */
  function AllStrings(charset: string, lo: nat, n: nat): seq<string> {
    if n == 0 || charset == "" then [] else AllStrings(charset, lo, n - 1) + Strings(charset, lo + n - 1)
  }

  /** How many lengths range(lo, hi + 1) has. */
  function Lengths(lo: int, hi: int): nat {
    if hi < lo then 0 else hi - lo + 1
  }

  /** Whether the first length asked of product would be negative. */
  predicate Negative(charset: string, lo: int, hi: int) {
    charset != "" && lo <= hi && lo < 0
  }

  function Wanted(names: seq<string>, lo: int, hi: int): seq<string>
    requires !Negative(Firsts(Chars(names)), lo, hi)
  {
    if lo < 0 then [] else AllStrings(Firsts(Chars(names)), lo, Lengths(lo, hi))
  }

  /** The cap is tested after a candidate is added, so it never keeps out the first one. */
  function Capped(s: seq<string>, cap: int): seq<string> {
    var most := if cap > 1 then cap else 1;
    if |s| > most then s[..most] else s
  }

  // ---------------------------------------------------------------- generation

  /** The loop over the strings of one length. */
  method AddLength(prefix: string, ss: seq<string>, suffix: string, candidates: seq<string>, cap: int)
      returns (candidates': seq<string>, full: bool)
    requires candidates == [] || |candidates| < cap
    ensures candidates' == Capped(candidates + Wrapped(prefix, ss, suffix), cap)
    ensures full <==> ss != [] && |candidates + ss| >= cap
  {
    hide Capped;
    ghost var wrapped := Wrapped(prefix, ss, suffix);
    candidates', full := candidates, false;
    for i := 0 to |ss|
      invariant candidates' == candidates + wrapped[..i] && (candidates' == [] || |candidates'| < cap)
    {
      candidates' := candidates' + [prefix + ss[i] + suffix];
      assert candidates' == candidates + wrapped[..i + 1];
      if |candidates'| >= cap {
        full := true;
        CappedHere(candidates, wrapped, i + 1, cap);
        return;
      }
    }
    assert wrapped[..|ss|] == wrapped;
    NotCapped(candidates', cap);
  }

  /** The loop over the lengths. */
  method AddLengths(charset: string, lo: nat, n: nat, prefix: string, suffix: string, cap: int)
      returns (candidates: seq<string>)
    requires charset != ""
    ensures candidates == Capped(Wrapped(prefix, AllStrings(charset, lo, n), suffix), cap)
  {
    hide Strings, Wrapped;
    candidates := [];
    ghost var done: seq<string> := [];
    for k := 0 to n
      invariant done == AllStrings(charset, lo, k) && candidates == Wrapped(prefix, done, suffix)
      invariant candidates == [] || |candidates| < cap
    {
      var full;
      ghost var more := Strings(charset, lo + k);
      candidates, full := AddLength(prefix, Strings(charset, lo + k), suffix, candidates, cap);
      WrappedConcat(prefix, done, more, suffix);
      if full {
        AllStringsExtend(charset, lo, k + 1, n);
        ghost var rest :| AllStrings(charset, lo, n) == (done + more) + rest;
        WrappedConcat(prefix, done + more, rest, suffix);
        CappedExtend(Wrapped(prefix, done + more, suffix), Wrapped(prefix, rest, suffix), cap);
        return;
      }
      done := done + more;
    }
  }

  lemma WrappedConcat(prefix: string, a: seq<string>, b: seq<string>, suffix: string)
    ensures Wrapped(prefix, a + b, suffix) == Wrapped(prefix, a, suffix) + Wrapped(prefix, b, suffix)
  {
  }

  lemma NotCapped(a: seq<string>, cap: int)
    requires a == [] || |a| < cap
    ensures Capped(a, cap) == a
  {
  }

  /** Where the length first reaches the cap, the rest is cut. */
  lemma CappedHere(a: seq<string>, b: seq<string>, k: nat, cap: int)
    requires k <= |b| && |a| + k == if cap > 1 then cap else 1
    ensures Capped(a + b, cap) == a + b[..k]
  {
    assert (a + b)[..|a| + k] == a + b[..k];
    assert k == |b| ==> b[..k] == b;
  }

  lemma CappedExtend(a: seq<string>, b: seq<string>, cap: int)
    requires a != [] && |a| >= cap
    ensures Capped(a + b, cap) == Capped(a, cap)
  {
    var most := if cap > 1 then cap else 1;
    assert (a + b)[..most] == a[..most];
    assert |a| == most ==> a[..most] == a;
  }

  lemma {:induction false} AllStringsExtend(charset: string, lo: nat, k: nat, n: nat)
    requires k <= n
    ensures exists rest :: AllStrings(charset, lo, n) == AllStrings(charset, lo, k) + rest
    decreases n
  {
    hide Strings;
    if k == n || charset == "" {
      assert AllStrings(charset, lo, n) == AllStrings(charset, lo, k) + [];
    } else {
      AllStringsExtend(charset, lo, k, n - 1);
      var rest :| AllStrings(charset, lo, n - 1) == AllStrings(charset, lo, k) + rest;
      assert AllStrings(charset, lo, n) == AllStrings(charset, lo, k) + (rest + Strings(charset, lo + n - 1));
    }
  }

  /** generate_brute_force_candidates. */
  method GenerateBruteForce(names: seq<string>, lo: int, hi: int, prefix: string, suffix: string, cap: int)
      returns (r: Generated)
    ensures r.NegativeLength? <==> Negative(Firsts(Chars(names)), lo, hi)
    ensures r.Candidates? ==> r.list == Capped(Wrapped(prefix, Wanted(names, lo, hi), suffix), cap)
  {
    hide Chars;
    var charset := Firsts(Chars(names));
    if charset == "" {
      return Candidates([]);
    }
    if lo <= hi && lo < 0 {
      return NegativeLength;
    }
    if lo > hi {
      return Candidates([]);
    }
    var candidates := AddLengths(charset, lo, hi - lo + 1, prefix, suffix, cap);
    r := Candidates(candidates);
  }

  // ---------------------------------------------------------------- what is generated

  /** The strings are those over the characters whose length is in the range. */
  lemma {:induction false} AllStringsIff(charset: string, lo: nat, n: nat, s: string)
    requires charset != ""
    ensures s in AllStrings(charset, lo, n) <==> lo <= |s| < lo + n && forall i :: 0 <= i < |s| ==> s[i] in charset
  {
    hide CartesianProduct;
    if n > 0 {
      AllStringsIff(charset, lo, n - 1, s);
      StringsIff(charset, lo + n - 1, s);
    }
  }

  lemma StringsIff(charset: string, len: nat, s: string)
    ensures s in Strings(charset, len) <==> |s| == len && forall i :: 0 <= i < |s| ==> s[i] in charset
  {
    ProductIff(Repeat(charset, len), s);
  }

  /** The place of a character in the set. */
  function PlaceIn(charset: string, c: char): (p: nat)
    ensures p <= |charset| && (p < |charset| ==> charset[p] == c) && forall k :: 0 <= k < p ==> charset[k] != c
  {
    if charset == "" || charset[0] == c then 0 else 1 + PlaceIn(charset[1..], c)
  }

  /** Shorter strings first; strings of one length by the places of their characters. */
  ghost predicate ShortLex(charset: string, a: string, b: string) {
    var place := (c: char) => PlaceIn(charset, c);
    |a| < |b| || (|a| == |b| && Less(RanksOf(place, a), RanksOf(place, b)))
  }

  ghost predicate InOrder(charset: string, ss: seq<string>) {
    forall i, j :: 0 <= i < j < |ss| ==> ShortLex(charset, ss[i], ss[j])
  }

  lemma StringsInOrder(charset: string, len: nat)
    requires Distinct(charset)
    ensures InOrder(charset, Strings(charset, len))
  {
    hide Less, RanksOf, CartesianProduct;
    var place := (c: char) => PlaceIn(charset, c);
    forall i, j | 0 <= i < j < |charset| ensures place(charset[i]) < place(charset[j]) {
      PlaceOf(charset, i);
      PlaceOf(charset, j);
    }
    ProductIncreasing(place, Repeat(charset, len));
    var ss := Strings(charset, len);
    forall i, j | 0 <= i < j < |ss| ensures ShortLex(charset, ss[i], ss[j]) {
      StringsIff(charset, len, ss[i]);
      StringsIff(charset, len, ss[j]);
    }
  }

  lemma PlaceOf(charset: string, i: nat)
    requires Distinct(charset) && i < |charset|
    ensures PlaceIn(charset, charset[i]) == i
  {
    var c := charset[i];
    assert PlaceIn(charset, c) <= i;
  }

  /** All the strings are generated in length-then-alphabet order. */
  lemma {:induction false} AllInOrder(charset: string, lo: nat, n: nat)
    requires Distinct(charset) && charset != ""
    ensures InOrder(charset, AllStrings(charset, lo, n))
  {
    hide Strings, ShortLex;
    if n > 0 {
      AllInOrder(charset, lo, n - 1);
      StringsInOrder(charset, lo + n - 1);
      var a, b := AllStrings(charset, lo, n - 1), Strings(charset, lo + n - 1);
      forall s, t | s in a && t in b ensures ShortLex(charset, s, t) {
        AllStringsIff(charset, lo, n - 1, s);
        StringsIff(charset, lo + n - 1, t);
        Shorter(charset, s, t);
      }
      var ab := a + b;
      forall i, j | 0 <= i < j < |ab| ensures ShortLex(charset, ab[i], ab[j]) {
        if i < |a| && j >= |a| {
          assert ab[i] in a && ab[j] in b;
        } else if i >= |a| {
          assert ab[i] == b[i - |a|] && ab[j] == b[j - |a|];
        }
      }
    }
  }

  lemma Shorter(charset: string, s: string, t: string)
    requires |s| < |t|
    ensures ShortLex(charset, s, t)
  {
  }

  lemma InOrderDistinct(charset: string, ss: seq<string>)
    requires InOrder(charset, ss)
    ensures Distinct(ss)
  {
    var place := (c: char) => PlaceIn(charset, c);
    forall i, j | 0 <= i < j < |ss| ensures ss[i] != ss[j] {
      LessIrreflexive(RanksOf(place, ss[i]));
      assert ShortLex(charset, ss[i], ss[j]);
    }
  }

  /** Every candidate is new, whatever the prefix and the suffix. */
  lemma CandidatesDistinct(names: seq<string>, lo: int, hi: int, prefix: string, suffix: string, cap: int)
    requires !Negative(Firsts(Chars(names)), lo, hi)
    ensures Distinct(Capped(Wrapped(prefix, Wanted(names, lo, hi), suffix), cap))
  {
    hide Chars;
    var charset, ss := Firsts(Chars(names)), Wanted(names, lo, hi);
    if charset != "" && lo >= 0 {
      AllInOrder(charset, lo, Lengths(lo, hi));
      InOrderDistinct(charset, ss);
    }
    var w := Wrapped(prefix, ss, suffix);
    forall i, j | 0 <= i < j < |w| ensures w[i] != w[j] {
      assert w[i][|prefix|..|w[i]| - |suffix|] == ss[i] && w[j][|prefix|..|w[j]| - |suffix|] == ss[j];
    }
  }

  // ---------------------------------------------------------------- how many

  function Power(b: nat, e: nat): nat {
    if e == 0 then 1 else Power(b, e - 1) * b
  }

  lemma {:induction false} StringsSize(charset: string, len: nat)
    ensures |Strings(charset, len)| == Power(|charset|, len)
  {
    ProductSize(Repeat(charset, len));
    SameSizes(charset, len);
  }

  lemma {:induction false} SameSizes(charset: string, len: nat)
    ensures SizeProduct(Repeat(charset, len)) == Power(|charset|, len)
  {
    if len > 0 {
      SameSizes(charset, len - 1);
      assert Repeat(charset, len)[..len - 1] == Repeat(charset, len - 1);
    }
  }

  /** len(set(...)) is the length of the charset. */
  lemma CharsetSize(names: seq<string>)
    ensures |set c | c in Chars(names)| == |Firsts(Chars(names))|
  {
    hide Chars;
    DistinctSize(Firsts(Chars(names)), set c | c in Chars(names));
  }

  /** An int, or a float as soon as a negative length comes in. */
  datatype Estimate = Whole(n: nat) | Float(x: real)

  /** b ** e in the reals. */
  function RealPower(b: nat, e: int): (p: real)
    requires b > 0
    ensures p > 0.0
    decreases if e < 0 then -e else e
  {
    if e == 0 then 1.0
    else if e > 0 then RealPower(b, e - 1) * b as real
    else RealPower(b, e + 1) / b as real
  }

  /** The sum of the powers of b for n lengths from lo on. */
  function PowerSum(b: nat, lo: int, n: nat): (s: real)
    requires b > 0
    ensures s >= 0.0
  {
    if n == 0 then 0.0 else PowerSum(b, lo, n - 1) + RealPower(b, lo + n - 1)
  }

  lemma {:induction false} PowerIsReal(b: nat, e: nat)
    requires b > 0
    ensures RealPower(b, e) == Power(b, e) as real
  {
    if e > 0 {
      PowerIsReal(b, e - 1);
    }
  }

  lemma {:induction false} PowerSumGrows(b: nat, lo: int, k: nat, n: nat)
    requires b > 0 && k <= n
    ensures PowerSum(b, lo, k) <= PowerSum(b, lo, n)
    decreases n
  {
    if k < n {
      PowerSumGrows(b, lo, k, n - 1);
    }
  }

  /** For lengths from zero on, the sum of the powers is the number of strings. */
  lemma {:induction false} PowerSumCounts(charset: string, lo: nat, n: nat)
    requires charset != ""
    ensures PowerSum(|charset|, lo, n) == |AllStrings(charset, lo, n)| as real
  {
    hide Strings;
    if n > 0 {
      PowerSumCounts(charset, lo, n - 1);
      StringsSize(charset, lo + n - 1);
      PowerIsReal(|charset|, lo + n - 1);
    }
  }

  /** A running total that stands for the sum v: exact until it passes the limit. */
  predicate Stands(total: real, v: real) {
    total <= v && (total == v || total > 1_000_000_000.0)
  }

  /**
   estimate_brute_force_count: exact unless it stops early, above the limit. It is a float
   exactly when the generator would fail on a negative length.
   */
  method EstimateBruteForce(names: seq<string>, lo: int, hi: int) returns (e: Estimate)
    ensures e.Float? <==> Negative(Firsts(Chars(names)), lo, hi)
    ensures e.Float? ==> Stands(e.x, PowerSum(|Firsts(Chars(names))|, lo, Lengths(lo, hi)))
    ensures e.Whole? ==> var n := |Wanted(names, lo, hi)|; e.n <= n && (e.n == n || e.n > 1_000_000_000)
  {
    hide Chars, Strings;
    var charsetLen := |set c | c in Chars(names)|;
    CharsetSize(names);
    if charsetLen == 0 {
      return Whole(0);
    }
    if lo < 0 && lo <= hi {
      var x := SumFloat(charsetLen, lo, hi);
      return Float(x);
    }
    ghost var charset := Firsts(Chars(names));
    var total, n := 0, Lengths(lo, hi);
    for k := 0 to n
      invariant n > 0 ==> total == |AllStrings(charset, lo, k)| && total <= ESTIMATE_LIMIT
      invariant n == 0 ==> total == 0
    {
      StringsSize(charset, lo + k);
      total := total + Power(charsetLen, lo + k);
      if total > ESTIMATE_LIMIT {
        AllStringsExtend(charset, lo, k + 1, n);
        return Whole(total);
      }
    }
    e := Whole(total);
  }

  /** The same loop when the first length is negative. */
  method SumFloat(b: nat, lo: int, hi: int) returns (total: real)
    requires b > 0 && lo <= hi
    ensures Stands(total, PowerSum(b, lo, Lengths(lo, hi)))
  {
    total := 0.0;
    var n := Lengths(lo, hi);
    for k := 0 to n
      invariant total == PowerSum(b, lo, k)
    {
      total := total + RealPower(b, lo + k);
      PowerSumGrows(b, lo, k + 1, n);
      if total > ESTIMATE_LIMIT as real {
        return;
      }
    }
  }

  lemma {:induction false} SomeStrings(charset: string, lo: nat, n: nat)
    requires charset != "" && n > 0
    ensures AllStrings(charset, lo, n) != []
  {
    var c := charset[0];
    var s := Repeat(c, lo);
    AllStringsIff(charset, lo, n, s);
  }

  /**
   The number of candidates is the estimate cut at the cap exactly when the cap is positive and,
   should the estimate have stopped early, no larger than the estimate; or when the cap is zero
   and there is nothing to generate.
   */
  lemma CountIff(names: seq<string>, lo: int, hi: int, prefix: string, suffix: string, cap: int, total: nat)
    requires !Negative(Firsts(Chars(names)), lo, hi)
    requires var n := |Wanted(names, lo, hi)|; total <= n && (total == n || total > 1_000_000_000)
    ensures var r := Capped(Wrapped(prefix, Wanted(names, lo, hi), suffix), cap);
      |r| == Min(total, cap)
      <==> (cap >= 1 && (cap <= total || total == |Wanted(names, lo, hi)|))
           || (cap == 0 && (Chars(names) == "" || hi < lo))
  {
    hide Chars;
    var charset := Firsts(Chars(names));
    assert Chars(names) == "" <==> charset == "" by {
      if Chars(names) != "" {
        assert Chars(names)[0] in charset;
      }
    }
    if charset != "" && lo <= hi {
      SomeStrings(charset, lo, Lengths(lo, hi));
    }
  }

  // ---------------------------------------------------------------- in terms of the arguments

  /** The character belongs to the set of that name. */
  predicate InSet(name: string, c: char) {
    || (name == "lowercase" && 'a' <= c <= 'z')
    || (name == "uppercase" && 'A' <= c <= 'Z')
    || (name == "digits" && '0' <= c <= '9')
    || (name == "symbols" && c in "!@#$%^&*()-_=+[]{}|;:,.<>?")
  }

  ghost predicate InSets(names: seq<string>, c: char) {
    exists k :: 0 <= k < |names| && InSet(names[k], c)
  }

  lemma SetIff(name: string, c: char)
    ensures InSet(name, c) <==> c in CharsOf(name)
  {
    RunIff("abcdefghijklmnopqrstuvwxyz", c);
    RunIff("ABCDEFGHIJKLMNOPQRSTUVWXYZ", c);
    RunIff("0123456789", c);
  }

  lemma {:induction false} CharsIff(names: seq<string>, c: char)
    ensures c in Chars(names) <==> InSets(names, c)
  {
    hide InSet, CharsOf;
    if names != [] {
      var init, last := names[..|names| - 1], names[|names| - 1];
      CharsIff(init, c);
      SetIff(last, c);
      if k :| 0 <= k < |names| && InSet(names[k], c) {
        assert k == |names| - 1 || init[k] == names[k];
      }
    }
  }

  /** The sets come in the order of their names. */
  lemma {:induction false} CharsConcat(a: seq<string>, b: seq<string>)
    ensures Chars(a + b) == Chars(a) + Chars(b)
    decreases b
  {
    hide CharsOf;
    if b == [] {
      assert a + b == a;
    } else {
      var ab, init, last := a + b, b[..|b| - 1], b[|b| - 1];
      CharsConcat(a, init);
      assert ab[..|ab| - 1] == a + init && ab[|ab| - 1] == last;
      var u, v, w := Chars(a), Chars(init), CharsOf(last);
      assert u + v + w == u + (v + w);
    }
  }

  /** A string that is asked for: a length in the range, characters of the named sets. */
  ghost predicate Allowed(names: seq<string>, lo: int, hi: int, s: string) {
    && lo <= |s| <= hi && (exists c :: InSets(names, c)) && forall i :: 0 <= i < |s| ==> InSets(names, s[i])
  }

  lemma WantedIff(names: seq<string>, lo: nat, hi: int, s: string)
    ensures s in Wanted(names, lo, hi) <==> Allowed(names, lo, hi, s)
  {
    hide Chars, InSets, Firsts;
    var charset := Firsts(Chars(names));
    forall c ensures c in charset <==> InSets(names, c) {
      CharsIff(names, c);
    }
    if charset != "" {
      assert charset[0] in charset;
      AllStringsIff(charset, lo, Lengths(lo, hi), s);
    }
  }

  /** Without a cap the candidates are the prefix, a string asked for, and the suffix. */
  lemma GeneratedIff(names: seq<string>, lo: nat, hi: int, prefix: string, suffix: string, c: string)
    ensures c in Wrapped(prefix, Wanted(names, lo, hi), suffix)
       <==> exists s :: Allowed(names, lo, hi, s) && c == prefix + s + suffix
  {
    hide Allowed, Wanted;
    var ss := Wanted(names, lo, hi);
    var w := Wrapped(prefix, ss, suffix);
    if c in w {
      var k :| 0 <= k < |w| && w[k] == c;
      assert ss[k] in ss;
      WantedIff(names, lo, hi, ss[k]);
      assert c == prefix + ss[k] + suffix;
    }
    if s :| Allowed(names, lo, hi, s) && c == prefix + s + suffix {
      WantedIff(names, lo, hi, s);
      var k :| 0 <= k < |ss| && ss[k] == s;
      assert w[k] == c;
    }
  }
}
