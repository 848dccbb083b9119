/** The text operations of Python's str that the tools use. */
module Text {

  /** The characters that str.strip removes. */
  predicate Space(c: char) {
    var n := c as int;
    || 9 <= n <= 13 || 28 <= n <= 32 || n == 0x85 || n == 0xA0 || n == 0x1680 || 0x2000 <= n <= 0x200A
    || n == 0x2028 || n == 0x2029 || n == 0x202F || n == 0x205F || n == 0x3000
  }

  function LeftStrip(s: string): string {
    if s == "" || !Space(s[0]) then s else LeftStrip(s[1..])
  }

  function RightStrip(s: string): string {
    if s == "" || !Space(s[|s| - 1]) then s else RightStrip(s[..|s| - 1])
  }

  /** str.strip. */
  function Strip(s: string): string {
    RightStrip(LeftStrip(s))
  }

  lemma {:induction false} LeftStripAt(s: string) returns (i: nat)
    ensures i <= |s| && LeftStrip(s) == s[i..] && forall k :: 0 <= k < i ==> Space(s[k])
    ensures i < |s| ==> !Space(s[i])
  {
    if s == "" || !Space(s[0]) {
      i := 0;
    } else {
      var j := LeftStripAt(s[1..]);
      i := j + 1;
      forall k | 0 <= k < i ensures Space(s[k]) {
        assert k == 0 || s[k] == s[1..][k - 1];
      }
    }
  }

  lemma {:induction false} RightStripKeeps(s: string)
    requires s != "" && !Space(s[0])
    ensures RightStrip(s) != "" && RightStrip(s)[0] == s[0]
  {
    if Space(s[|s| - 1]) {
      RightStripKeeps(s[..|s| - 1]);
    }
  }

  /** str.lower on the letters A to Z; other characters are left as they are. */
  function LowerChar(c: char): char {
    if 'A' <= c <= 'Z' then (c as int + 32) as char else c
  }

  function Lower(s: string): (r: string)
    ensures |r| == |s|
  {
    seq(|s|, i requires 0 <= i < |s| => LowerChar(s[i]))
  }

  // ---------------------------------------------------------------- what they mean

  ghost predicate AllSpace(s: string) {
    forall i :: 0 <= i < |s| ==> Space(s[i])
  }

  lemma {:induction false} LeftStripped(a: string, b: string)
    requires AllSpace(a) && (b == "" || !Space(b[0]))
    ensures LeftStrip(a + b) == b
  {
    if a == "" {
      assert a + b == b;
    } else {
      assert (a + b)[1..] == a[1..] + b;
      LeftStripped(a[1..], b);
    }
  }

  lemma {:induction false} RightStripped(a: string, b: string)
    requires AllSpace(b) && (a == "" || !Space(a[|a| - 1]))
    ensures RightStrip(a + b) == a
  {
    if b == "" {
      assert a + b == a;
    } else {
      assert (a + b)[..|a + b| - 1] == a + b[..|b| - 1];
      RightStripped(a, b[..|b| - 1]);
    }
  }

  /** Space on both sides is removed, and nothing else. */
  lemma Stripped(a: string, core: string, b: string)
    requires AllSpace(a) && AllSpace(b)
    requires core != "" && !Space(core[0]) && !Space(core[|core| - 1])
    ensures Strip(a + core + b) == core
  {
    assert a + core + b == a + (core + b);
    LeftStripped(a, core + b);
    RightStripped(core, b);
  }

  lemma BlankStripped(a: string)
    requires AllSpace(a)
    ensures Strip(a) == ""
  {
    assert a + "" == a;
    LeftStripped(a, "");
  }

  /** The capital letters become small ones; what is no capital letter stays. */
  lemma LetterLowered(c: char, k: nat)
    ensures k < 26 && c == "ABCDEFGHIJKLMNOPQRSTUVWXYZ"[k] ==> Lower([c]) == ["abcdefghijklmnopqrstuvwxyz"[k]]
    ensures !('A' <= c <= 'Z') ==> Lower([c]) == [c]
  {
  }

  /** A run of consecutive characters has all that lie between its ends. */
  lemma RunIff(run: string, c: char)
    requires run != "" && forall i :: 0 <= i < |run| ==> run[i] as int == run[0] as int + i
    ensures c in run <==> run[0] <= c <= run[|run| - 1]
  {
    if run[0] <= c <= run[|run| - 1] {
      assert run[c as int - run[0] as int] == c;
    }
  }
}
