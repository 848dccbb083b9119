/** A dict used as an ordered set with a cap: what it holds after a sequence of additions. */
module FirstSeen {
  import opened Arrangements

  /** One addition: ignored once the cap is reached or the value is there. */
  function Put<T(==)>(seen: seq<T>, x: T, cap: int): seq<T> {
    if |seen| >= cap || x in seen then seen else seen + [x]
  }

  /** The additions of v, in order. */
  function Keep<T(==)>(seen: seq<T>, v: seq<T>, cap: int): seq<T> {
    if v == [] then seen else Put(Keep(seen, v[..|v| - 1], cap), v[|v| - 1], cap)
  }

  lemma {:induction false} KeepConcat<T>(seen: seq<T>, a: seq<T>, b: seq<T>, cap: int)
    ensures Keep(seen, a + b, cap) == Keep(Keep(seen, a, cap), b, cap)
  {
    hide Put;
    if b == [] {
      assert a + b == a;
    } else {
      KeepConcat(seen, a, b[..|b| - 1], cap);
      assert (a + b)[..|a + b| - 1] == a + b[..|b| - 1];
    }
  }

  /** At the cap nothing changes any more. */
  lemma {:induction false} KeepFull<T>(seen: seq<T>, v: seq<T>, cap: int)
    requires |seen| >= cap
    ensures Keep(seen, v, cap) == seen
  {
    if v != [] {
      KeepFull(seen, v[..|v| - 1], cap);
    }
  }

  /** The values of v without repetition, in order of first occurrence. */
  function Firsts<T(==, !new)>(v: seq<T>): (r: seq<T>)
    ensures Distinct(r) && (forall x :: x in r <==> x in v) && |r| <= |v|
  {
    if v == [] then []
    else
      var init, last := v[..|v| - 1], v[|v| - 1];
      assert v == init + [last];
      if last in Firsts(init) then Firsts(init) else Firsts(init) + [last]
  }

  function AtMost<T>(s: seq<T>, cap: int): seq<T> {
    if cap <= 0 then [] else if |s| > cap then s[..cap] else s
  }

  /** The dict ends up with the first cap distinct values. */
  lemma {:induction false} KeepFirsts<T(!new)>(v: seq<T>, cap: int)
    ensures Keep([], v, cap) == AtMost(Firsts(v), cap)
  {
    if v != [] {
      var init, last := v[..|v| - 1], v[|v| - 1];
      KeepFirsts(init, cap);
      var f := Firsts(init);
      assert last !in f && |f| >= cap > 0 ==> (f + [last])[..cap] == f[..cap];
      assert |f| < cap ==> AtMost(f, cap) == f;
    }
  }
}
