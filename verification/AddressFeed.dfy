/**
 Feeding the address table from blocks: what a well-formed block puts into it, and what a block
 with a script cut short does to it.
 */
module AddressFeed {
  import opened Bits
  import opened Bytes
  import opened Wrappers
  import opened BlockWalk
  import opened Serialization
  import opened StandardOutputs
  import opened AddressSet
  import opened ProbeTable

  /** One block: the slices that the walk adds, fed to the table in order. */
  method FeedBlock(db: AddressSet, data: seq<bv8>, inWindow: nat -> bool)
      returns (w: Walk, done: nat, ghost rs: seq<Added>)
    requires db.Valid()
    modifies db
    ensures w == Windowed(data, inWindow)
    ensures done == |rs| <= |w.adds|
    ensures db.Valid() <==> forall i :: 0 <= i < done ==> db.LongEnough(w.adds[i]) || !rs[i].Stored?
    ensures !db.Valid() ==> |db.data| < db.tableBytes && done > 0 && !db.LongEnough(w.adds[done - 1])
    ensures forall i :: 0 <= i < done ==> !rs[i].Full? && (rs[i].Ignored? ==> db.Tail(w.adds[i]) == db.empty)
    ensures done > 0 ==> (rs[0].AlreadyPresent? <==> old(db.Contains(w.adds[0])))
    ensures db.Valid() ==>
              && (forall i :: 0 <= i < done && db.Tail(w.adds[i]) != db.empty ==> db.Contains(w.adds[i]))
              && (forall b :: old(db.Contains(b)) ==> db.Contains(b))
              && db.len <= old(db.len) + done
              && (done < |w.adds| ==> db.len >= db.maxLen)
  {
    w := WalkBlock(data, inWindow);
    done, rs := db.AddAll(w.adds);
  }

  // ---------------------------------------------------------------- blocks without lookalikes

  lemma {:induction false} StandardLong(ts: seq<TxOut>, h: seq<bv8>)
    requires h in StandardByOuts(ts)
    ensures |h| >= 20
  {
    if h !in StandardHash(ts[0].script) {
      StandardLong(ts[1..], h);
    }
  }

  /** Hashes of standard outputs are long enough for every table. */
  lemma {:induction false} StandardTxsLong(ts: seq<Tx>, h: seq<bv8>)
    requires h in StandardByTxs(ts)
    ensures |h| >= 20
  {
    if h in StandardByOuts(ts[0].outs) {
      StandardLong(ts[0].outs, h);
    } else {
      StandardTxsLong(ts[1..], h);
    }
  }

  lemma {:induction false} SubsequenceMember<T>(a: seq<T>, b: seq<T>, x: T)
    requires Subsequence(a, b) && x in a
    ensures x in b
  {
    if a[0] == b[0] && Subsequence(a[1..], b[1..]) {
      if x != a[0] {
        SubsequenceMember(a[1..], b[1..], x);
      }
    } else {
      SubsequenceMember(a, b[1..], x);
    }
  }

  /**
   After a well-formed block has been fed to a valid table with room, the hash of every standard
   output is a member, unless its tail is all zero, and so is every earlier member: provided that
   every slice added is long enough, as it is when no output is a lookalike.
   */
  method FeedWellFormed(db: AddressSet, header: seq<bv8>, ts: seq<Tx>)
    requires db.Valid()
    requires |header| == 80 && |ts| < LIMIT && forall i :: 0 <= i < |ts| ==> ts[i].Valid()
    requires Lookalikes(ts, []) == 0 || forall a :: a in AddedByTxs(ts, []) ==> db.LongEnough(a)
    requires db.len + |AddedByTxs(ts, [])| <= db.maxLen
    modifies db
    ensures db.Valid()
    ensures forall h :: h in StandardByTxs(ts) && db.Tail(h) != db.empty ==> db.Contains(h)
    ensures forall b :: old(db.Contains(b)) ==> db.Contains(b)
  {
    hide AddressSet.Contains, AddressSet.Tail, Subsequence, Lookalikes, AddedByTxs, StandardByTxs, WriteBlock, ParseBlock;
    ReadBlock(header, ts);
    BlockAdded(header, ts);
    forall a | a in AddedByTxs(ts, []) ensures db.LongEnough(a) {
      if Lookalikes(ts, []) == 0 {
        StandardTxsLong(ts, a);
      }
    }
    var w, done, rs := FeedBlock(db, WriteBlock(header, ts), (t: nat) => true);
    forall h | h in StandardByTxs(ts) ensures h in w.adds {
      SubsequenceMember(StandardByTxs(ts), w.adds, h);
    }
  }

  // ---------------------------------------------------------------- a block that breaks the table

  /**
   Fed to a table that stores and hashes more than four bytes, such a block shortens the table:
   its one slice, the locktime, is spliced in at the first free slot from its home.
   */
  method FeedCutShort(db: AddressSet, header: seq<bv8>, t: Tx)
    requires db.Valid() && db.len < db.maxLen && db.bytesPerAddr + db.hashBytes > 4
    requires |header| == 80 && CutShort(t) && !db.Contains(t.locktime)
    modifies db
    ensures !db.Valid() && |db.data| < db.tableBytes && db.added == old(db.added)
    ensures exists k: nat ::
              FirstFree(old(db.Slots()), db.empty, db.Home(t.locktime), k)
              && Off(k, db.bytesPerAddr) + db.bytesPerAddr <= |old(db.data)|
              && db.data == Splice(old(db.data), Off(k, db.bytesPerAddr), db.bytesPerAddr, db.Tail(t.locktime))
  {
    hide AddressSet.Contains, AddressSet.Tail, AddressSet.Home, WriteBlock, ParseBlock, Splice, Off, FirstFree, SlotsOf;
    CutShortBlock(header, t);
    var w := WalkBlock(WriteBlock(header, [t]), (time: nat) => true);
    assert w.adds == [t.locktime];
    var r := db.Add(w.adds[0]);
  }

  // ---------------------------------------------------------------- a member that is lost

  /** The loop of _find on a table of any length, for at most `steps` slots. */
  function Probe(data: seq<bv8>, b: nat, tableBytes: nat, sought: seq<bv8>, pos: nat, steps: nat): Option<Found>
    decreases steps
  {
    if steps == 0 then None
    else
      var cur := Slice(data, pos, pos + b);
      if cur == Repeat(0, b) then Some(Free(pos))
      else if cur == sought then Some(Present)
      else Probe(data, b, tableBytes, sought, if pos + b >= tableBytes then 0 else pos + b, steps - 1)
  }

  /** A fresh table of four slots of four bytes. */
  method FourSlots() returns (db: AddressSet)
    ensures db.Valid() && fresh(db) && Small(db) && db.len == 0 && db.added == []
    ensures db.data == Repeat(0, 16) && db.Slots() == Repeat(db.empty, 4)
  {
    assert BitLength(4) == 3 && BitLength(2) == 2 && BitLength(1) == 1;
    assert Pow2(2) == 4 && (4 as real * 0.75).Floor == 3;
    db := new AddressSet(4, 4, 0.75);
  }

  predicate Small(db: AddressSet) {
    db.tableLen == 4 && db.bytesPerAddr == 4 && db.tableBytes == 16 && db.hashBytes == 1 && db.maxLen == 3
  }

  /** From an empty slot the first free slot is that slot. */
  lemma FreeHere(slots: seq<seq<bv8>>, empty: seq<bv8>, home: nat, k: nat)
    requires home < |slots| && slots[home] == empty && FirstFree(slots, empty, home, k)
    ensures k == home
  {
    assert ProbeTable.At(|slots|, home, 0) == home;
  }

  lemma NotInEmpty(slots: seq<seq<bv8>>, empty: seq<bv8>, home: nat, tail: seq<bv8>)
    requires home < |slots| && slots[home] == empty
    ensures !InRun(slots, empty, home, tail)
  {
    assert ProbeTable.At(|slots|, home, 0) == home;
  }

  /** A hash of twenty bytes whose home is slot 1, and a locktime of zero. */
  const ADDRESS: seq<bv8> := Repeat(9, 19) + [1]
  const ZERO_TIME: seq<bv8> := [0, 0, 0, 0]

  lemma ByteValues()
    ensures Horner(Ints([1]), 256) == 1 && Horner(Ints([0]), 256) == 0
  {
    assert Ints([1]) == [1] by { SmallByte(1, 1); }
    assert Ints([0]) == [0] by { SmallByte(0, 0); }
    assert [1][..0] == [] && [0][..0] == [];
    assert Horner([], 256) == 0;
  }

  lemma SmallByte(b: bv8, v: nat)
    requires (b == 0 && v == 0) || (b == 1 && v == 1)
    ensures IntOfByte(b) == v
  {
    IntOfByteOfInt(v);
    ByteOfIntOfByte(b);
  }

  /** What the small table makes of the two of them. */
  lemma ExampleKeys(db: AddressSet)
    requires Small(db)
    ensures db.Home(ADDRESS) == 1 && db.Tail(ADDRESS) == [9, 9, 9, 9] == db.Sought(ADDRESS) && db.LongEnough(ADDRESS)
    ensures db.Home(ZERO_TIME) == 0 && db.Tail(ZERO_TIME) == [0, 0, 0] && !db.LongEnough(ZERO_TIME)
    ensures db.empty == [0, 0, 0, 0]
  {
    ByteValues();
    assert |ADDRESS| == 20 && ADDRESS[19..] == [1] && ADDRESS[15..19] == [9, 9, 9, 9];
    assert ZERO_TIME[3..] == [0] && ZERO_TIME[..3] == [0, 0, 0];
  }

  const WITH_ADDRESS: seq<bv8> := Repeat(0, 4) + [9, 9, 9, 9] + Repeat(0, 8)
  const SHORTENED: seq<bv8> := [0, 0, 0] + [9, 9, 9, 9] + Repeat(0, 8)

  lemma SpliceExample()
    ensures Off(0, 4) == 0 && Off(1, 4) == 4
    ensures Splice(Repeat(0, 16), 4, 4, [9, 9, 9, 9]) == WITH_ADDRESS
    ensures Splice(WITH_ADDRESS, 0, 4, [0, 0, 0]) == SHORTENED
  {
    assert Off(0, 4) == 0;
    assert Repeat<bv8>(0, 16)[..4] == Repeat<bv8>(0, 4) && Repeat<bv8>(0, 16)[8..] == Repeat<bv8>(0, 8);
    assert WITH_ADDRESS[4..] == [9, 9, 9, 9] + Repeat<bv8>(0, 8);
    assert WITH_ADDRESS[..0] == [];
  }

  /** The small table after the address was added. */
  method OneStored() returns (db: AddressSet)
    ensures db.Valid() && fresh(db) && Small(db) && db.len == 1 && db.added == [ADDRESS]
    ensures db.data == WITH_ADDRESS && db.Slots()[0] == db.empty
  {
    hide FirstFree, InRun, SlotsOf, Splice, Off, AddressSet.Home, AddressSet.Tail, Tracks, ProbeTable.Count;
    db := FourSlots();
    ExampleKeys(db);
    ghost var slots := db.Slots();
    NotInEmpty(slots, db.empty, 1, db.Sought(ADDRESS));
    var r := db.Add(ADDRESS);
    ghost var k: nat :| FirstFree(slots, db.empty, 1, k) && k < 4 && db.Slots() == slots[k := db.Tail(ADDRESS)]
      && Off(k, 4) + 4 <= 16 && db.data == Splice(Repeat(0, 16), Off(k, 4), 4, db.Tail(ADDRESS));
    FreeHere(slots, db.empty, 1, k);
    SpliceExample();
  }

  /**
   A stored address is lost: the address is added, then the block of a transaction that is cut
   short and has locktime zero is fed. The table loses a byte, and probing for the address from
   its home passes the slot that no longer holds it and ends at an empty one.
   */
  method LosesMember(header: seq<bv8>, t: Tx) returns (db: AddressSet)
    requires |header| == 80 && CutShort(t) && t.locktime == ZERO_TIME
    ensures fresh(db) && Small(db) && db.added == [ADDRESS] && db.data == SHORTENED
    ensures db.bytesPerAddr * db.Home(ADDRESS) == 4
    ensures Probe(WITH_ADDRESS, db.bytesPerAddr, db.tableBytes, db.Sought(ADDRESS), 4, 2) == Some(Present)
    ensures Probe(db.data, db.bytesPerAddr, db.tableBytes, db.Sought(ADDRESS), 4, 2) == Some(Free(8))
  {
    hide FirstFree, InRun, SlotsOf, Splice, Off, AddressSet.Home, AddressSet.Tail, Tracks, ProbeTable.Count, Probe;
    db := OneStored();
    ExampleKeys(db);
    ghost var slots := db.Slots();
    NotInEmpty(slots, db.empty, 0, db.Sought(ZERO_TIME));
    FeedCutShort(db, header, t);
    ghost var k: nat :| FirstFree(slots, db.empty, 0, k) && Off(k, 4) + 4 <= |WITH_ADDRESS|
      && db.data == Splice(WITH_ADDRESS, Off(k, 4), 4, db.Tail(ZERO_TIME));
    FreeHere(slots, db.empty, 0, k);
    SpliceExample();
    ProbeExample();
  }

  lemma ProbeExample()
    ensures Probe(WITH_ADDRESS, 4, 16, [9, 9, 9, 9], 4, 2) == Some(Present)
    ensures Probe(SHORTENED, 4, 16, [9, 9, 9, 9], 4, 2) == Some(Free(8))
  {
    var zero, nines := Repeat<bv8>(0, 4), [9 as bv8, 9, 9, 9];
    assert zero[0] == 0 && nines[0] == 9;
    assert Slice(WITH_ADDRESS, 4, 8) == nines;
    assert Slice(SHORTENED, 4, 8) == [9, 9, 9, 0];
    assert Slice(SHORTENED, 4, 8)[3] == 0 && Slice(SHORTENED, 4, 8)[0] == 9;
    assert Slice(SHORTENED, 8, 12) == zero;
    assert Probe(SHORTENED, 4, 16, nines, 8, 1) == Some(Free(8));
  }
}
