/** The open-addressed address table of addressset.py, over one flat byte array. */
module AddressSet {
  import opened Bits
  import opened Bytes
  import opened Wrappers
  import opened ProbeTable
  import Digits

  /** `True`, or the byte position where the address could be put. */
  datatype Found = Present | Free(pos: nat)

  /** Outcomes of add; Full stands for the exit that ends the program. */
  datatype Added = AlreadyPresent | Ignored | Stored | Full

  // ---------------------------------------------------------------- slots of a flat table

  /** The byte offset of slot k: k times the slot width, built up by addition. */
  function Off(k: nat, b: nat): nat {
    if k == 0 then 0 else Off(k - 1, b) + b
  }

  lemma {:induction false} OffTimes(k: nat, b: nat)
    ensures Off(k, b) == k * b
  {
    if k > 0 {
      OffTimes(k - 1, b);
      assert k * b == (k - 1) * b + b;
    }
  }

  lemma {:induction false} SlotBounds(n: nat, b: nat, k: nat)
    requires k < n
    ensures Off(k, b) + b == Off(k + 1, b) <= Off(n, b)
  {
    if k + 1 < n {
      SlotBounds(n - 1, b, k);
    }
  }

  function Slot(data: seq<bv8>, n: nat, b: nat, k: nat): (s: seq<bv8>)
    requires |data| == Off(n, b) && k < n
    ensures |s| == b
  {
    SlotBounds(n, b, k);
    data[Off(k, b)..Off(k, b) + b]
  }

  function SlotsOf(data: seq<bv8>, n: nat, b: nat): (s: seq<seq<bv8>>)
    requires |data| == Off(n, b)
    ensures |s| == n
  {
    seq(n, k requires 0 <= k < n => Slot(data, n, b, k))
  }

  lemma SlotAt(data: seq<bv8>, n: nat, b: nat, k: nat)
    requires |data| == Off(n, b) && k < n
    ensures Off(k, b) + b == Off(k + 1, b) <= |data|
    ensures SlotsOf(data, n, b)[k] == data[Off(k, b)..Off(k, b) + b]
  {
    SlotBounds(n, b, k);
  }

  lemma WriteSlot(data: seq<bv8>, data': seq<bv8>, n: nat, b: nat, k: nat, x: seq<bv8>)
    requires |data| == |data'| == Off(n, b) && k < n && |x| == b && Off(k, b) + b <= Off(n, b)
    requires data' == Splice(data, Off(k, b), b, x)
    ensures SlotsOf(data', n, b) == SlotsOf(data, n, b)[k := x]
  {
    hide Off;
    forall j | 0 <= j < n ensures SlotsOf(data', n, b)[j] == SlotsOf(data, n, b)[k := x][j] {
      SlotAt(data, n, b, j);
      SlotAt(data', n, b, j);
      if j < k {
        SlotBounds(k, b, j);
        assert data'[Off(j, b)..Off(j, b) + b] == data[Off(j, b)..Off(j, b) + b];
      } else if k < j {
        SlotBounds(j, b, k);
        assert data'[Off(j, b)..Off(j, b) + b] == data[Off(j, b)..Off(j, b) + b];
      } else {
        assert data'[Off(j, b)..Off(j, b) + b] == x;
      }
    }
  }

  /** Python's data[pos : pos + b] = x: the length changes when x is not b bytes long. */
  function Splice(data: seq<bv8>, pos: nat, b: nat, x: seq<bv8>): (r: seq<bv8>)
    requires pos + b <= |data|
    ensures |r| == |data| - b + |x|
  {
    data[..pos] + x + data[pos + b..]
  }

  // ---------------------------------------------------------------- the class

  class AddressSet {
    const tableLen: nat
    const bytesPerAddr: nat
    const hashBytes: nat
    const maxLen: nat
    const tableBytes: nat
    /** The bytearray; a slice assignment can change its length. */
    var data: seq<bv8>
    var len: nat
    /** Every address of full length that add has stored or reported present, in order. */
    ghost var added: seq<seq<bv8>>

    const empty: seq<bv8> := Repeat(0, bytesPerAddr)

    ghost function Slots(): (s: seq<seq<bv8>>)
      requires |data| == Off(tableLen, bytesPerAddr)
      reads this
      ensures |s| == tableLen
    {
      SlotsOf(data, tableLen, bytesPerAddr)
    }

    /** Long enough for the hash and the stored tail. */
    predicate LongEnough(address: seq<bv8>) {
      |address| >= bytesPerAddr + hashBytes
    }

    /**
     The part of the address that is stored, address[-(bytesPerAddr + hashBytes) : -hashBytes].
     It is empty when the hash takes no bytes, and too short when the address is.
     */
    function Tail(address: seq<bv8>): (t: seq<bv8>)
      ensures |t| <= bytesPerAddr
      ensures hashBytes != 0 && LongEnough(address) ==> |t| == bytesPerAddr
      ensures bytesPerAddr >= 1 && !LongEnough(address) ==> |t| < bytesPerAddr
    {
      if hashBytes == 0 || |address| <= hashBytes then []
      else
        var end := |address| - hashBytes;
        address[if end < bytesPerAddr then 0 else end - bytesPerAddr..end]
    }

    /** What _find compares slots with: an address no longer than a slot is compared as it is. */
    function Sought(address: seq<bv8>): (t: seq<bv8>)
      ensures |t| <= bytesPerAddr
    {
      if |address| > bytesPerAddr then Tail(address) else address
    }

    /** The home slot: the last hash bytes, masked to the table length. */
    function Home(address: seq<bv8>): (h: nat)
      requires tableLen > 0
      ensures h < tableLen
    {
      var hashed := if hashBytes == 0 || |address| <= hashBytes then address else address[|address| - hashBytes..];
      Horner(Ints(hashed), 256) % tableLen
    }

    /** Membership: what is sought is in the occupied run from the home slot. */
    ghost predicate Contains(address: seq<bv8>)
      requires |data| == Off(tableLen, bytesPerAddr) && tableLen > 0
      reads this
    {
      InRun(Slots(), empty, Home(address), Sought(address))
    }

    /** The number of slots is a power of two below 256 to the number of hash bytes, or equal to it. */
    static predicate PowerOfTwo(tableLen: nat, hashBytes: nat) {
      tableLen >= 1 && Pow2(BitLength(tableLen) - 1) == tableLen && hashBytes == (BitLength(tableLen) + 6) / 8
    }

    /** The table still has its length. */
    ghost predicate Shape()
      reads this
    {
      && 1 <= bytesPerAddr <= 19
      && bytesPerAddr + hashBytes <= 20
      && |data| == tableBytes == Off(tableLen, bytesPerAddr)
      && maxLen < tableLen
      && (hashBytes == 0 ==> maxLen == 0)
      && PowerOfTwo(tableLen, hashBytes)
    }

    ghost predicate AllLong(addresses: seq<seq<bv8>>) {
      forall i :: 0 <= i < |addresses| ==> LongEnough(addresses[i])
    }

    /** Home slot and tail of each address. */
    ghost function Keys(addresses: seq<seq<bv8>>): (k: seq<(nat, seq<bv8>)>)
      requires tableLen > 0
      ensures |k| == |addresses|
    {
      seq(|addresses|, i requires 0 <= i < |addresses| => (Home(addresses[i]), Sought(addresses[i])))
    }

    /** The table holds exactly what was added: all of it reachable, and nothing else stored. */
    ghost predicate Valid()
      reads this
    {
      && Shape()
      && len == Count(Slots(), empty) <= maxLen
      && AllLong(added)
      && Tracks(Slots(), empty, Keys(added))
    }

    /** Every address added is a member. */
    lemma AddedAreMembers(a: seq<bv8>)
      requires Valid() && a in added
      ensures LongEnough(a) && Contains(a)
    {
      var i :| 0 <= i < |added| && added[i] == a;
      assert Keys(added)[i] == (Home(a), Sought(a));
    }

    /** A member has the stored tail of some address that was added. */
    lemma MemberSharesTail(a: seq<bv8>)
      requires Valid() && Contains(a)
      ensures exists b :: b in added && LongEnough(b) && Tail(b) == Sought(a)
      ensures LongEnough(a) ==> Sought(a) == Tail(a)
    {
      MemberCounts(Slots(), empty, Home(a), Sought(a));
      assert hashBytes != 0;
      MemberHasTail(Slots(), empty, Keys(added), Home(a), Sought(a));
      var i :| 0 <= i < |added| && Keys(added)[i].1 == Sought(a);
      var b := added[i];
      assert b in added && LongEnough(b) && Sought(b) == Tail(b);
    }

    /** The home slot is given by the low bits of the whole address, read as one big-endian number. */
    lemma HomeIsLowBits(a: seq<bv8>)
      requires Shape()
      ensures Home(a) == Horner(Ints(a), 256) % tableLen
    {
      if 0 < hashBytes < |a| {
        LowBytesDecide(a[..|a| - hashBytes], a[|a| - hashBytes..], tableLen);
        assert a == a[..|a| - hashBytes] + a[|a| - hashBytes..];
      }
    }

    /** What is stored of an address of full length stands right in front of its hash bytes. */
    lemma TailStands(a: seq<bv8>, front: seq<bv8>, tail: seq<bv8>, hashed: seq<bv8>)
      requires a == front + tail + hashed && |tail| == bytesPerAddr && |hashed| == hashBytes > 0
      ensures Tail(a) == tail
    {
      var n := |a| - hashBytes;
      assert a[n - bytesPerAddr..n] == tail;
    }

    static predicate GoodArguments(tableLen: int, bytesPerAddr: int, maxLoad: real) {
      && tableLen >= 1 && Pow2(BitLength(tableLen) - 1) == tableLen
      && 1 <= bytesPerAddr <= 19
      && 0.0 < maxLoad < 1.0
      && bytesPerAddr + (BitLength(tableLen) + 6) / 8 <= 20
    }

    constructor (tableLen: nat, bytesPerAddr: nat, maxLoad: real)
      requires GoodArguments(tableLen, bytesPerAddr, maxLoad)
      ensures Valid() && len == 0 && added == []
      ensures this.tableLen == tableLen && this.bytesPerAddr == bytesPerAddr && tableBytes == tableLen * bytesPerAddr
      ensures hashBytes == (BitLength(tableLen) + 6) / 8 && maxLen == (tableLen as real * maxLoad).Floor
      ensures data == Repeat(0, tableLen * bytesPerAddr) && Slots() == Repeat(empty, tableLen)
    {
      LoadBelowOne(tableLen, maxLoad);
      this.tableLen, this.bytesPerAddr := tableLen, bytesPerAddr;
      hashBytes := (BitLength(tableLen) + 6) / 8;
      maxLen := (tableLen as real * maxLoad).Floor;
      OffTimes(tableLen, bytesPerAddr);
      tableBytes := tableLen * bytesPerAddr;
      data := Repeat(0, tableLen * bytesPerAddr);
      len, added := 0, [];
      new;
      NoHashBytes(tableLen);
      assert Slots() == Repeat(empty, tableLen) by {
        forall k | 0 <= k < tableLen ensures Slots()[k] == empty {
          SlotBounds(tableLen, bytesPerAddr, k);
        }
      }
      CountEmpty(empty, tableLen);
      assert Repeat(empty, tableLen) == seq(tableLen, _ => empty);
    }

    /** __init__, with its ValueErrors as None. */
    static method Create(tableLen: int, bytesPerAddr: int, maxLoad: real) returns (r: Option<AddressSet>)
      ensures r.Some? <==> GoodArguments(tableLen, bytesPerAddr, maxLoad)
      ensures r.Some? ==> r.value.Valid() && fresh(r.value) && r.value.added == []
    {
      if !GoodArguments(tableLen, bytesPerAddr, maxLoad) {
        return None;
      }
      var s := new AddressSet(tableLen, bytesPerAddr, maxLoad);
      return Some(s);
    }

    /** _find: stops at the tail or at the first empty slot, whichever comes first. */
    method Find(address: seq<bv8>) returns (r: Found)
      requires Valid()
      ensures r == Present <==> Contains(address)
      ensures r.Free? ==> exists k: nat :: r.pos == Off(k, bytesPerAddr) && FirstFree(Slots(), empty, Home(address), k)
    {
      hide Home, Tail, Off, Occupied, NotSeen, Count, SlotsOf, InRun, FirstFree, Tracks;
      var home := Home(address);
      ghost var slots, tail := Slots(), Sought(address);
      ghost var free := FreeExists(slots, empty, home);
      OffTimes(home, bytesPerAddr);
      var pos := bytesPerAddr * home;
      var sought := address;
      ghost var d, k := 0, home;
      OccupiedNone(slots, empty, home);
      NotSeenNext(slots, tail, home, 0);
      while true
        invariant d <= free && k == At(tableLen, home, d) && pos == Off(k, bytesPerAddr)
        invariant sought == address || sought == tail
        invariant Occupied(slots, empty, home, d) && NotSeen(slots, tail, home, d)
        decreases free - d
      {
        SlotAt(data, tableLen, bytesPerAddr, k);
        var cur := data[pos..pos + bytesPerAddr];
        assert cur == slots[k];
        if cur == empty {
          NotFound(slots, empty, tail, home, d);
          return Free(pos);
        }
        OccupiedNext(slots, empty, home, d);
        if |sought| > bytesPerAddr {
          sought := Tail(sought);
        }
        if cur == sought {
          SeenInRun(slots, empty, home, tail, d);
          return Present;
        }
        pos := pos + bytesPerAddr;
        NextSlot(tableLen, bytesPerAddr, k);
        if pos >= tableBytes {
          pos := 0;
        }
        NotSeenNext(slots, tail, home, d);
        d := d + 1;
        BeforeFree(slots, empty, home, d, free);
        k := At(tableLen, home, d);
      }
    }

    /** What an address of the given outcome adds to the record of added addresses. */
    ghost function Recorded(address: seq<bv8>, r: Added): seq<seq<bv8>> {
      if LongEnough(address) && (r.Stored? || r.AlreadyPresent?) then [address] else []
    }

    /**
     add, for any address. The table keeps its shape, and with it every member, if and only if
     the address is long enough or nothing is written: the slice assignment of a shorter address
     shortens the table.
     */
    method Add(address: seq<bv8>) returns (r: Added)
      requires Valid()
      modifies this
      ensures r == if old(Contains(address)) then AlreadyPresent
                   else if Tail(address) == empty then Ignored
                   else if old(len) >= maxLen then Full
                   else Stored
      ensures Valid() <==> LongEnough(address) || !r.Stored?
      ensures |data| == tableBytes <==> Valid()
      ensures added == old(added) + Recorded(address, r)
      ensures len == old(len) + (if r.Stored? then 1 else 0)
      ensures !r.Stored? ==> data == old(data)
      ensures r.Stored? ==> exists k: nat ::
                FirstFree(old(Slots()), empty, Home(address), k) && Off(k, bytesPerAddr) + bytesPerAddr <= |old(data)|
                && data == Splice(old(data), Off(k, bytesPerAddr), bytesPerAddr, Tail(address))
                && (LongEnough(address) ==> k < tableLen && Slots() == old(Slots())[k := Tail(address)])
      ensures Valid() && (r.Stored? || r.AlreadyPresent?) ==> Contains(address)
      ensures Valid() ==> forall b :: old(Contains(b)) ==> Contains(b)
    {
      hide Off, SlotsOf, InRun, FirstFree, Count, Home, Tail, Tracks, Splice;
      var found := Find(address);
      if found.Present? {
        if LongEnough(address) {
          TracksSeen(Slots(), empty, Keys(added), Home(address), Sought(address));
          Remember(address);
        }
        return AlreadyPresent;
      }
      var tail := Tail(address);
      if tail == empty {
        return Ignored;
      }
      if len >= maxLen {
        return Full;
      }
      if LongEnough(address) {
        Store(address, found.pos);
      } else {
        StoreShort(address, found.pos);
      }
      return Stored;
    }

    /** Records an address whose key the table already tracks. */
    ghost method Remember(address: seq<bv8>)
      requires Shape() && AllLong(added) && LongEnough(address)
      requires len == Count(Slots(), empty) <= maxLen
      requires Tracks(Slots(), empty, Keys(added) + [(Home(address), Sought(address))])
      modifies this`added
      ensures Valid() && added == old(added) + [address]
    {
      hide Home, Tail, Sought, Tracks, Count, SlotsOf;
      ghost var keys := Keys(added);
      added := added + [address];
      assert Keys(added) == keys + [(Home(address), Sought(address))];
    }

    /** The assignment of add for an address of full length, at a free position found for it. */
    method Store(address: seq<bv8>, pos: nat)
      requires Valid() && LongEnough(address) && Tail(address) != empty && len < maxLen
      requires exists k: nat :: pos == Off(k, bytesPerAddr) && FirstFree(Slots(), empty, Home(address), k)
      modifies this
      ensures Valid() && len == old(len) + 1 && added == old(added) + [address] && Contains(address)
      ensures exists k: nat ::
                FirstFree(old(Slots()), empty, Home(address), k) && Off(k, bytesPerAddr) + bytesPerAddr <= |old(data)|
                && data == Splice(old(data), Off(k, bytesPerAddr), bytesPerAddr, Tail(address))
                && k < tableLen && Slots() == old(Slots())[k := Tail(address)]
      ensures forall b :: old(Contains(b)) ==> Contains(b)
    {
      hide Off, SlotsOf, InRun, Count, Home, Tail, FirstFree, Tracks;
      ghost var k: nat :| pos == Off(k, bytesPerAddr) && FirstFree(Slots(), empty, Home(address), k);
      ghost var slots := Slots();
      var tail := Tail(address);
      assert Sought(address) == tail;
      FillFinds(slots, empty, k, tail, Home(address));
      FirstFreeIsFree(slots, empty, Home(address), k);
      TracksFill(slots, empty, Keys(added), Home(address), tail, k);
      CountFill(slots, empty, k, tail);
      SlotAt(data, tableLen, bytesPerAddr, k);
      data := Splice(data, pos, bytesPerAddr, tail);
      WriteSlot(old(data), data, tableLen, bytesPerAddr, k, tail);
      forall b | old(Contains(b)) ensures Contains(b) {
        FillKeeps(slots, empty, k, tail, Home(b), Sought(b));
      }
      len := len + 1;
      Remember(address);
    }

    /** The same assignment for a shorter address: the table loses bytes. */
    method StoreShort(address: seq<bv8>, pos: nat)
      requires Valid() && !LongEnough(address)
      requires exists k: nat :: pos == Off(k, bytesPerAddr) && FirstFree(Slots(), empty, Home(address), k)
      modifies this
      ensures |data| < tableBytes && !Valid() && len == old(len) + 1 && added == old(added)
      ensures exists k: nat ::
                FirstFree(old(Slots()), empty, Home(address), k) && Off(k, bytesPerAddr) + bytesPerAddr <= |old(data)|
                && data == Splice(old(data), Off(k, bytesPerAddr), bytesPerAddr, Tail(address))
    {
      hide Off, SlotsOf, InRun, Count, Home, FirstFree, Tracks;
      ghost var k: nat :| pos == Off(k, bytesPerAddr) && FirstFree(Slots(), empty, Home(address), k);
      FirstFreeIsFree(Slots(), empty, Home(address), k);
      SlotAt(data, tableLen, bytesPerAddr, k);
      data := Splice(data, pos, bytesPerAddr, Tail(address));
      len := len + 1;
    }

    /**
     A run of adds, as the block walk performs them, up to the first address that finds the
     table full and to the first one that shortens it; `rs` are the outcomes.
     */
    method AddAll(addresses: seq<seq<bv8>>) returns (done: nat, ghost rs: seq<Added>)
      requires Valid()
      modifies this
      ensures done == |rs| <= |addresses|
      ensures Valid() <==> forall i :: 0 <= i < done ==> LongEnough(addresses[i]) || !rs[i].Stored?
      ensures forall i :: 0 <= i < done ==> !rs[i].Full? && (rs[i].Ignored? ==> Tail(addresses[i]) == empty)
      ensures done > 0 ==> (rs[0].AlreadyPresent? <==> old(Contains(addresses[0])))
      ensures Valid() ==>
                && (forall i :: 0 <= i < done && Tail(addresses[i]) != empty ==> Contains(addresses[i]))
                && (forall b :: old(Contains(b)) ==> Contains(b))
                && len <= old(len) + done
                && (done < |addresses| ==> len >= maxLen && !Contains(addresses[done]) && Tail(addresses[done]) != empty)
      ensures !Valid() ==> done > 0 && !LongEnough(addresses[done - 1]) && |data| < tableBytes
      ensures old(added) <= added && forall a :: a in added[|old(added)|..] ==> a in addresses
    {
      hide Home, Tail, InRun, Tracks, Count, SlotsOf, FirstFree, Off, Splice;
      done, rs := 0, [];
      while done < |addresses|
        invariant Valid() && done == |rs| <= |addresses| && len <= old(len) + done
        invariant forall i :: 0 <= i < done ==> LongEnough(addresses[i]) || !rs[i].Stored?
        invariant forall i :: 0 <= i < done ==> !rs[i].Full? && (rs[i].Ignored? ==> Tail(addresses[i]) == empty)
        invariant done > 0 ==> (rs[0].AlreadyPresent? <==> old(Contains(addresses[0])))
        invariant done == 0 ==> data == old(data)
        invariant forall i :: 0 <= i < done && Tail(addresses[i]) != empty ==> Contains(addresses[i])
        invariant forall b :: old(Contains(b)) ==> Contains(b)
        invariant old(added) <= added && forall a :: a in added[|old(added)|..] ==> a in addresses
      {
        var r := Add(addresses[done]);
        if r.Full? {
          return;
        }
        rs := rs + [r];
        done := done + 1;
        if |data| != tableBytes {
          return;
        }
      }
    }

    /** __contains__. */
    method ContainsAddress(address: seq<bv8>) returns (b: bool)
      requires Valid()
      ensures b <==> Contains(address)
    {
      var found := Find(address);
      b := found.Present?;
    }

    /** __iter__: the stored tails in table order. */
    method Iterate() returns (out: seq<seq<bv8>>)
      requires Valid()
      ensures out == ProbeTable.Stored(Slots(), empty) && |out| == len
    {
      hide Off, SlotsOf, InRun, Tracks, Count;
      ghost var slots := Slots();
      out := [];
      var pos := 0;
      ghost var k := 0;
      SlotAt(data, tableLen, bytesPerAddr, 0);
      NextSlot(tableLen, bytesPerAddr, 0);
      assert slots[..0] == [];
      while pos < tableBytes
        invariant k <= tableLen && pos == Off(k, bytesPerAddr)
        invariant out == ProbeTable.Stored(slots[..k], empty)
        decreases tableLen - k
      {
        assert k != tableLen;
        SlotAt(data, tableLen, bytesPerAddr, k);
        var cur := data[pos..pos + bytesPerAddr];
        assert slots[..k + 1] == slots[..k] + [cur];
        StoredConcat(slots[..k], [cur], empty);
        if cur != empty {
          out := out + [cur];
        }
        pos := pos + bytesPerAddr;
        k := k + 1;
      }
      if k < tableLen {
        SlotAt(data, tableLen, bytesPerAddr, k);
      }
      assert slots[..k] == slots;
    }

    /** __reversed__: the same tails in the opposite order. */
    method Reversed() returns (out: seq<seq<bv8>>)
      requires Valid()
      ensures Bytes.Reversed(out) == ProbeTable.Stored(Slots(), empty) && |out| == len
    {
      hide Off, SlotsOf, InRun, Tracks, Count;
      ghost var slots := Slots();
      out := [];
      SlotAt(data, tableLen, bytesPerAddr, tableLen - 1);
      var pos: int := tableBytes - bytesPerAddr;
      ghost var k: nat := tableLen;
      NextSlot(tableLen, bytesPerAddr, 0);
      assert slots[tableLen..] == [];
      while pos >= 0
        invariant k <= tableLen && pos == Off(k, bytesPerAddr) - bytesPerAddr
        invariant Bytes.Reversed(out) == ProbeTable.Stored(slots[k..], empty)
        decreases k
      {
        assert k != 0;
        k := k - 1;
        SlotAt(data, tableLen, bytesPerAddr, k);
        var cur := data[pos..pos + bytesPerAddr];
        assert slots[k..] == [cur] + slots[k + 1..];
        StoredConcat([cur], slots[k + 1..], empty);
        if cur != empty {
          ReverseAppend(out, cur);
          out := out + [cur];
        }
        pos := pos - bytesPerAddr;
      }
      if k > 0 {
        SlotAt(data, tableLen, bytesPerAddr, k - 1);
      }
      assert slots[k..] == slots;
    }
  }

  lemma ReverseAppend<T>(s: seq<T>, x: T)
    ensures Bytes.Reversed(s + [x]) == [x] + Bytes.Reversed(s)
  {
  }

  lemma NextSlot(n: nat, b: nat, k: nat)
    requires k < n && b >= 1
    ensures Off(k, b) + b == Off(k + 1, b) && Off(0, b) == 0
    ensures k + 1 < n <==> Off(k, b) + b < Off(n, b)
  {
    if k + 1 < n {
      SlotBounds(n, b, k + 1);
    }
  }

  lemma LoadBelowOne(n: nat, load: real)
    requires n >= 1 && 0.0 < load < 1.0
    ensures 0 <= (n as real * load).Floor < n
  {
    assert 0.0 < n as real * load < n as real;
  }

  /** The hash takes no bytes only in a table of one slot, which can hold nothing. */
  lemma NoHashBytes(n: nat)
    requires n >= 1
    ensures (BitLength(n) + 6) / 8 == 0 ==> n == 1
  {
    if n > 1 {
      assert n / 2 >= 1;
      assert BitLength(n / 2) >= 1;
    }
  }

  // ---------------------------------------------------------------- hashes

  lemma {:induction false} BytesBitsConcat(a: seq<bv8>, b: seq<bv8>)
    ensures BytesBits(a + b) == BytesBits(a) + BytesBits(b)
  {
    hide Bools;
    if b == [] {
      assert a + b == a;
    } else {
      var ab, init, last := a + b, b[..|b| - 1], b[|b| - 1];
      BytesBitsConcat(a, init);
      assert ab[..|ab| - 1] == a + init && ab[|ab| - 1] == last;
      assert BytesBits(a) + BytesBits(init) + Bools(last) == BytesBits(a) + (BytesBits(init) + Bools(last));
    }
  }

  /** For a table of at most 256^|b| slots, a power of two, the bytes in front of b make no difference. */
  lemma LowBytesDecide(a: seq<bv8>, b: seq<bv8>, n: nat)
    requires AddressSet.PowerOfTwo(n, |b|)
    ensures Horner(Ints(a + b), 256) % n == Horner(Ints(b), 256) % n
  {
    hide Horner, Pow2, BytesBits, Value;
    var e: nat := BitLength(n) - 1;
    var x, y := Value(BytesBits(a)), Value(BytesBits(b));
    ValueBytes(a + b);
    ValueBytes(b);
    BytesBitsConcat(a, b);
    ValueJoined(BytesBits(a), BytesBits(b));
    Pow2Add(8 * |b| - e, e);
    Multiple(x, Pow2(8 * |b| - e), n, y);
  }

  lemma Multiple(x: nat, q: nat, n: nat, y: nat)
    requires n >= 1
    ensures (Times(x, q * n) + y) % n == y % n
  {
    Digits.DivModSum(y, n);
    assert x * (q * n) + y == (x * q + y / n) * n + y % n by {
      assert x * (q * n) == (x * q) * n;
      assert (x * q + y / n) * n == (x * q) * n + y / n * n;
    }
    Digits.DivMod(x * q + y / n, y % n, n);
  }
}
