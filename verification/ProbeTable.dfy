/**
 Linear probing over a circular table of slots, as a pure model.

 A slot holds only part of a key, so nothing in a slot tells where its probe started. What
 can be said of the table alone is which tails lie in the occupied run after a home slot.
 */
module ProbeTable {

  /** The slot d steps after home in a table of n slots. */
  function At(n: nat, home: nat, d: nat): (k: nat)
    requires home < n && d < n
    ensures k < n
  {
    if home + d < n then home + d else home + d - n
  }

  /** The first d slots from home are all occupied. */
  ghost predicate Occupied<T>(slots: seq<T>, empty: T, home: nat, d: nat)
    requires home < |slots| && d <= |slots|
  {
    forall e :: 0 <= e < d ==> slots[At(|slots|, home, e)] != empty
  }

  ghost predicate InRunAt<T>(slots: seq<T>, empty: T, home: nat, tail: T, d: nat)
    requires home < |slots|
  {
    d < |slots| && slots[At(|slots|, home, d)] == tail && Occupied(slots, empty, home, d + 1)
  }

  /** The tail lies in the cyclic run of occupied slots that starts at home. */
  ghost predicate InRun<T>(slots: seq<T>, empty: T, home: nat, tail: T)
    requires home < |slots|
  {
    exists d: nat :: InRunAt(slots, empty, home, tail, d)
  }

  /** Slot k is the first empty one from home on. */
  ghost predicate FirstFree<T>(slots: seq<T>, empty: T, home: nat, k: nat)
    requires home < |slots|
  {
    exists d: nat :: d < |slots| && k == At(|slots|, home, d) && slots[k] == empty && Occupied(slots, empty, home, d)
  }

  // ---------------------------------------------------------------- the same by position

  /** Slot j is passed on the way from home forward to slot k, around the end if need be. */
  predicate Passed(home: nat, k: nat, j: nat) {
    if home <= k then home <= j < k else home <= j || j < k
  }

  /** No empty slot lies on the way from home to slot k. */
  ghost predicate NoneEmpty<T>(slots: seq<T>, empty: T, home: nat, k: nat) {
    forall j :: 0 <= j < |slots| && Passed(home, k, j) ==> slots[j] != empty
  }

  lemma OccupiedIff<T>(slots: seq<T>, empty: T, home: nat, d: nat)
    requires home < |slots| && d < |slots|
    ensures Occupied(slots, empty, home, d) <==> NoneEmpty(slots, empty, home, At(|slots|, home, d))
  {
    var k := At(|slots|, home, d);
    if Occupied(slots, empty, home, d) {
      forall j | 0 <= j < |slots| && Passed(home, k, j) ensures slots[j] != empty {
        var e := if home <= j then j - home else j + |slots| - home;
        assert At(|slots|, home, e) == j;
      }
    }
  }

  lemma Distance(n: nat, home: nat, k: nat) returns (d: nat)
    requires home < n && k < n
    ensures d < n && At(n, home, d) == k
  {
    d := if home <= k then k - home else k + n - home;
  }

  /** The first free slot is the empty one with nothing empty on the way to it. */
  lemma FirstFreeIff<T>(slots: seq<T>, empty: T, home: nat, k: nat)
    requires home < |slots|
    ensures FirstFree(slots, empty, home, k)
       <==> k < |slots| && slots[k] == empty && NoneEmpty(slots, empty, home, k)
  {
    hide Occupied, NoneEmpty;
    if k < |slots| {
      var d := Distance(|slots|, home, k);
      OccupiedIff(slots, empty, home, d);
      assert FirstFree(slots, empty, home, k) ==> Occupied(slots, empty, home, d) by {
        if FirstFree(slots, empty, home, k) {
          var e: nat :| e < |slots| && k == At(|slots|, home, e) && slots[k] == empty && Occupied(slots, empty, home, e);
          assert e == d;
        }
      }
    }
  }

  /** A tail is in the run if some slot holds it and nothing on the way from home to it is empty. */
  lemma InRunIff<T>(slots: seq<T>, empty: T, home: nat, tail: T)
    requires home < |slots|
    ensures InRun(slots, empty, home, tail)
       <==> tail != empty && exists k: nat :: k < |slots| && slots[k] == tail && NoneEmpty(slots, empty, home, k)
  {
    if InRun(slots, empty, home, tail) {
      var d: nat :| InRunAt(slots, empty, home, tail, d);
      assert slots[At(|slots|, home, d)] != empty;
      assert Occupied(slots, empty, home, d);
      OccupiedIff(slots, empty, home, d);
    }
    if k: nat :| tail != empty && k < |slots| && slots[k] == tail && NoneEmpty(slots, empty, home, k) {
      var d := Distance(|slots|, home, k);
      OccupiedIff(slots, empty, home, d);
      assert InRunAt(slots, empty, home, tail, d);
    }
  }

  // ---------------------------------------------------------------- counting

  function Count<T(==)>(slots: seq<T>, empty: T): (c: nat)
    ensures c <= |slots|
  {
    if slots == [] then 0 else Count(slots[1..], empty) + (if slots[0] != empty then 1 else 0)
  }

  lemma {:induction false} CountFill<T>(slots: seq<T>, empty: T, k: nat, x: T)
    requires k < |slots| && slots[k] == empty && x != empty
    ensures Count(slots[k := x], empty) == Count(slots, empty) + 1
  {
    if k > 0 {
      CountFill(slots[1..], empty, k - 1, x);
      assert slots[k := x][1..] == slots[1..][k - 1 := x];
    }
  }

  lemma {:induction false} CountFull<T>(slots: seq<T>, empty: T) returns (k: nat)
    requires Count(slots, empty) < |slots|
    ensures k < |slots| && slots[k] == empty
  {
    if slots[0] == empty {
      k := 0;
    } else {
      k := CountFull(slots[1..], empty);
      k := k + 1;
    }
  }

  lemma {:induction false} CountEmpty<T>(empty: T, n: nat)
    ensures Count(seq(n, _ => empty), empty) == 0
  {
    if n > 0 {
      CountEmpty(empty, n - 1);
      assert seq(n, _ => empty)[1..] == seq(n - 1, _ => empty);
    }
  }

  /** The occupied slots in table order. */
  function Stored<T(==)>(slots: seq<T>, empty: T): (r: seq<T>)
    ensures |r| == Count(slots, empty)
  {
    if slots == [] then [] else (if slots[0] != empty then [slots[0]] else []) + Stored(slots[1..], empty)
  }

  lemma {:induction false} StoredConcat<T>(a: seq<T>, b: seq<T>, empty: T)
    ensures Stored(a + b, empty) == Stored(a, empty) + Stored(b, empty)
  {
    if a == [] {
      assert a + b == b;
    } else {
      assert (a + b)[1..] == a[1..] + b;
      StoredConcat(a[1..], b, empty);
    }
  }

  // ---------------------------------------------------------------- steps of a probe

  /** The tail is in none of the first d slots from home. */
  ghost predicate NotSeen<T>(slots: seq<T>, tail: T, home: nat, d: nat)
    requires home < |slots| && d <= |slots|
  {
    forall e :: 0 <= e < d ==> slots[At(|slots|, home, e)] != tail
  }

  lemma OccupiedNone<T>(slots: seq<T>, empty: T, home: nat)
    requires home < |slots|
    ensures Occupied(slots, empty, home, 0)
  {
  }

  lemma NotSeenNext<T>(slots: seq<T>, tail: T, home: nat, d: nat)
    requires home < |slots| && d < |slots|
    ensures NotSeen(slots, tail, home, 0)
    ensures NotSeen(slots, tail, home, d) && slots[At(|slots|, home, d)] != tail ==> NotSeen(slots, tail, home, d + 1)
  {
  }

  lemma SeenInRun<T>(slots: seq<T>, empty: T, home: nat, tail: T, d: nat)
    requires home < |slots| && d < |slots| && slots[At(|slots|, home, d)] == tail
    requires Occupied(slots, empty, home, d + 1)
    ensures InRun(slots, empty, home, tail)
  {
    assert InRunAt(slots, empty, home, tail, d);
  }

  lemma OccupiedNext<T>(slots: seq<T>, empty: T, home: nat, d: nat)
    requires home < |slots| && d < |slots| && Occupied(slots, empty, home, d)
    requires slots[At(|slots|, home, d)] != empty
    ensures Occupied(slots, empty, home, d + 1)
  {
  }

  /** An empty slot ends the run: a tail not met before it is not in the run. */
  lemma NotFound<T>(slots: seq<T>, empty: T, tail: T, home: nat, d: nat)
    requires home < |slots| && d < |slots| && slots[At(|slots|, home, d)] == empty
    requires Occupied(slots, empty, home, d) && NotSeen(slots, tail, home, d)
    ensures !InRun(slots, empty, home, tail) && FirstFree(slots, empty, home, At(|slots|, home, d))
  {
  }

  /** Occupied slots all come before a free one. */
  lemma BeforeFree<T>(slots: seq<T>, empty: T, home: nat, d: nat, free: nat)
    requires home < |slots| && free < |slots| && slots[At(|slots|, home, free)] == empty
    requires d <= |slots| && Occupied(slots, empty, home, d)
    ensures d <= free
  {
  }

  // ---------------------------------------------------------------- what filling a slot does

  /** A table that is not full has a first free slot from every home. */
  lemma {:induction false} FreeExists<T>(slots: seq<T>, empty: T, home: nat) returns (d: nat)
    requires home < |slots| && Count(slots, empty) < |slots|
    ensures d < |slots| && slots[At(|slots|, home, d)] == empty && Occupied(slots, empty, home, d)
  {
    var k := CountFull(slots, empty);
    var last := if k >= home then k - home else k + |slots| - home;
    assert At(|slots|, home, last) == k;
    d := 0;
    while slots[At(|slots|, home, d)] != empty
      invariant d <= last && Occupied(slots, empty, home, d)
      decreases last - d
    {
      d := d + 1;
    }
  }

  /** No run loses a member: filling an empty slot breaks nothing that was reachable. */
  lemma FillKeeps<T>(slots: seq<T>, empty: T, k: nat, x: T, home: nat, tail: T)
    requires home < |slots| && k < |slots| && slots[k] == empty && x != empty
    requires InRun(slots, empty, home, tail)
    ensures InRun(slots[k := x], empty, home, tail)
  {
    var d: nat :| InRunAt(slots, empty, home, tail, d);
    assert InRunAt(slots[k := x], empty, home, tail, d);
  }

  /** What is put in the first free slot from its home is reachable from that home. */
  lemma FillFinds<T>(slots: seq<T>, empty: T, k: nat, x: T, home: nat)
    requires home < |slots| && x != empty && FirstFree(slots, empty, home, k)
    ensures k < |slots| && InRun(slots[k := x], empty, home, x)
  {
    var d: nat :| d < |slots| && k == At(|slots|, home, d) && slots[k] == empty && Occupied(slots, empty, home, d);
    assert InRunAt(slots[k := x], empty, home, x, d);
  }

  // ---------------------------------------------------------------- the table and the keys put in it

  /** Every key is reachable from its home, and every occupied slot holds the tail of some key. */
  ghost predicate Tracks<T>(slots: seq<T>, empty: T, keys: seq<(nat, T)>) {
    && (forall i :: 0 <= i < |keys| ==> keys[i].0 < |slots| && InRun(slots, empty, keys[i].0, keys[i].1))
    && (forall k :: 0 <= k < |slots| && slots[k] != empty ==> HasTail(keys, slots[k]))
  }

  ghost predicate HasTail<T>(keys: seq<(nat, T)>, tail: T) {
    exists i :: 0 <= i < |keys| && keys[i].1 == tail
  }

  lemma HasTailGrows<T>(keys: seq<(nat, T)>, key: (nat, T), tail: T)
    requires HasTail(keys, tail) || key.1 == tail
    ensures HasTail(keys + [key], tail)
  {
    if key.1 == tail {
      assert (keys + [key])[|keys|] == key;
    } else {
      var i :| 0 <= i < |keys| && keys[i].1 == tail;
      assert (keys + [key])[i] == keys[i];
    }
  }

  lemma TracksSeen<T>(slots: seq<T>, empty: T, keys: seq<(nat, T)>, home: nat, tail: T)
    requires Tracks(slots, empty, keys) && home < |slots| && InRun(slots, empty, home, tail)
    ensures Tracks(slots, empty, keys + [(home, tail)])
  {
    hide InRun;
    forall k | 0 <= k < |slots| && slots[k] != empty ensures HasTail(keys + [(home, tail)], slots[k]) {
      HasTailGrows(keys, (home, tail), slots[k]);
    }
  }

  lemma TracksFill<T>(slots: seq<T>, empty: T, keys: seq<(nat, T)>, home: nat, tail: T, k: nat)
    requires Tracks(slots, empty, keys) && home < |slots| && tail != empty && FirstFree(slots, empty, home, k)
    ensures k < |slots| && Tracks(slots[k := tail], empty, keys + [(home, tail)])
  {
    FillFinds(slots, empty, k, tail, home);
    FirstFreeIsFree(slots, empty, home, k);
    hide InRun, FirstFree;
    var after, keys' := slots[k := tail], keys + [(home, tail)];
    forall i | 0 <= i < |keys'| ensures keys'[i].0 < |after| && InRun(after, empty, keys'[i].0, keys'[i].1) {
      if i < |keys| {
        FillKeeps(slots, empty, k, tail, keys[i].0, keys[i].1);
      }
    }
    forall j | 0 <= j < |after| && after[j] != empty ensures HasTail(keys', after[j]) {
      HasTailGrows(keys, (home, tail), after[j]);
    }
  }

  lemma FirstFreeIsFree<T>(slots: seq<T>, empty: T, home: nat, k: nat)
    requires home < |slots| && FirstFree(slots, empty, home, k)
    ensures k < |slots| && slots[k] == empty
  {
  }

  /** A member shares its tail with some key. */
  lemma MemberHasTail<T>(slots: seq<T>, empty: T, keys: seq<(nat, T)>, home: nat, tail: T)
    requires Tracks(slots, empty, keys) && home < |slots| && InRun(slots, empty, home, tail)
    ensures HasTail(keys, tail)
  {
    var d: nat :| InRunAt(slots, empty, home, tail, d);
    assert slots[At(|slots|, home, d)] != empty;
  }

  lemma {:induction false} CountPositive<T>(slots: seq<T>, empty: T, k: nat)
    requires k < |slots| && slots[k] != empty
    ensures Count(slots, empty) >= 1
  {
    if k > 0 {
      CountPositive(slots[1..], empty, k - 1);
    }
  }

  /** A table with a member is not empty. */
  lemma MemberCounts<T>(slots: seq<T>, empty: T, home: nat, tail: T)
    requires home < |slots| && InRun(slots, empty, home, tail)
    ensures Count(slots, empty) >= 1
  {
    var d: nat :| InRunAt(slots, empty, home, tail, d);
    assert slots[At(|slots|, home, d)] != empty;
    CountPositive(slots, empty, At(|slots|, home, d));
  }
}
