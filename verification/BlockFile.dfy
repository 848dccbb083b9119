/**
 A block file as create_address_db reads it: blocks in frames of magic and length, all of it
 possibly obfuscated with a key, fed to the address table one after the other.
 */
module BlockFile {
  import opened Bytes
  import opened Wrappers
  import opened BlockWalk
  import opened Serialization
  import opened StandardOutputs
  import opened AddressSet
  import opened AddressFeed
  import opened ProbeTable
  import opened XorKey

  datatype Frame = Frame(magic: seq<bv8>, block: seq<bv8>)

  const ZERO_LENGTH: seq<bv8> := [0, 0, 0, 0]

  /** The frames from off on: they end at a header that is cut short or has length zero. */
  function Frames(plain: seq<bv8>, off: nat): seq<Frame>
    decreases |plain| - off
  {
    var header := Slice(plain, off, off + 8);
    if |header| != 8 || header[4..] == ZERO_LENGTH then []
    else
      var block := Slice(plain, off + 8, off + 8 + LittleEndian(header[4..]));
      [Frame(header[..4], block)] + Frames(plain, off + 8 + |block|)
  }

  lemma NextFrame(plain: seq<bv8>, off: nat)
    ensures var header := Slice(plain, off, off + 8);
      if |header| != 8 || header[4..] == ZERO_LENGTH then Frames(plain, off) == []
      else var block := Slice(plain, off + 8, off + 8 + LittleEndian(header[4..]));
        && off + 8 + |block| <= |plain|
        && Frames(plain, off) == [Frame(header[..4], block)] + Frames(plain, off + 8 + |block|)
  {
    hide Slice;
    SliceEnd(plain, off, off + 8);
    if |Slice(plain, off, off + 8)| == 8 {
      SliceEnd(plain, off + 8, off + 8 + LittleEndian(Slice(plain, off, off + 8)[4..]));
    }
  }

  lemma SliceEnd(s: seq<bv8>, lo: nat, hi: nat)
    requires lo <= hi
    ensures |Slice(s, lo, hi)| > 0 ==> lo + |Slice(s, lo, hi)| <= |s|
    ensures |Slice(s, lo, hi)| == hi - lo ==> |s| >= hi || lo == hi
  {
  }

  /** The key in xor.dat counts when it has eight bytes that are not all zero. */
  function KeyOf(xorDat: seq<bv8>): seq<bv8> {
    var key := Slice(xorDat, 0, 8);
    if |key| == 8 && key != Repeat(0, 8) then key else []
  }

  const CHAINS: set<seq<bv8>> :=
    {[0xf9, 0xbe, 0xb4, 0xd9], [0xfb, 0xc0, 0xb6, 0xdb], [0xfa, 0xbf, 0xb5, 0xda], [0xfa, 0xc3, 0xb6, 0xda],
     [0xf9, 0xbe, 0xb4, 0xd4]}

  /** Which chains are read; the option --dbyolo reads all. */
  predicate Supported(magic: seq<bv8>, yolo: bool) {
    magic in CHAINS || yolo
  }

  /** Bitcoin's main network is read, Dogecoin only with the option. */
  lemma ChainsRead()
    ensures Supported([0xf9, 0xbe, 0xb4, 0xd9], false) && !Supported([0xc0, 0xc0, 0xc0, 0xc0], false)
  {
    assert [0xc0 as bv8, 0xc0, 0xc0, 0xc0][0] == 0xc0;
  }

  // ---------------------------------------------------------------- writing

  function WriteFrame(magic: seq<bv8>, block: seq<bv8>): seq<bv8> {
    (magic + LittleBytes(|block|, 4)) + block
  }

  function WriteFrames(magic: seq<bv8>, blocks: seq<seq<bv8>>): seq<bv8> {
    if blocks == [] then [] else WriteFrame(magic, blocks[0]) + WriteFrames(magic, blocks[1..])
  }

  ghost predicate Framable(blocks: seq<seq<bv8>>) {
    forall i :: 0 <= i < |blocks| ==> 0 < |blocks[i]| < 0x1_0000_0000
  }

  lemma SliceHere(data: seq<bv8>, off: nat, b: seq<bv8>)
    requires Here(data, off, b)
    ensures Slice(data, off, off + |b|) == b
  {
  }

  lemma LengthRead(n: nat)
    requires 0 < n < 0x1_0000_0000
    ensures LittleEndian(LittleBytes(n, 4)) == n && LittleBytes(n, 4) != ZERO_LENGTH
  {
    Powers256();
    LittleRoundTrip(n, 4);
    LittleRoundTrip(0, 4);
    assert LittleBytes(0, 4) == LittleBytes(0, 1) + LittleBytes(0, 1) + LittleBytes(0, 1) + LittleBytes(0, 1);
  }

  /** One written frame is read, and reading goes on behind it. */
  lemma ReadFrame(plain: seq<bv8>, off: nat, magic: seq<bv8>, block: seq<bv8>)
    requires |magic| == 4 && 0 < |block| < 0x1_0000_0000 && Here(plain, off, WriteFrame(magic, block))
    ensures Frames(plain, off) == [Frame(magic, block)] + Frames(plain, off + |WriteFrame(magic, block)|)
  {
    hide Slice, LittleBytes, LittleEndian, Here;
    var length := LittleBytes(|block|, 4);
    HereSplit(plain, off, magic + length, block);
    SliceHere(plain, off, magic + length);
    SliceHere(plain, off + 8, block);
    LengthRead(|block|);
    assert (magic + length)[4..] == length && (magic + length)[..4] == magic;
  }

  /** From off on there are zero bytes alone, as in a file the node has reserved space for. */
  predicate ZerosFrom(plain: seq<bv8>, off: nat) {
    off <= |plain| && plain[off..] == Repeat(0, |plain| - off)
  }

  lemma NoFrames(plain: seq<bv8>, off: nat)
    requires ZerosFrom(plain, off)
    ensures Frames(plain, off) == []
  {
    var header := Slice(plain, off, off + 8);
    assert forall i :: 0 <= i < |header| ==> header[i] == plain[off..][i];
  }

  ghost predicate FramesOf(fs: seq<Frame>, magic: seq<bv8>, blocks: seq<seq<bv8>>) {
    |fs| == |blocks| && forall i :: 0 <= i < |blocks| ==> fs[i] == Frame(magic, blocks[i])
  }

  /** Written blocks are read back. */
  lemma {:induction false} ReadFrames(plain: seq<bv8>, off: nat, magic: seq<bv8>, blocks: seq<seq<bv8>>)
    requires |magic| == 4 && Framable(blocks) && Here(plain, off, WriteFrames(magic, blocks))
    requires ZerosFrom(plain, off + |WriteFrames(magic, blocks)|)
    ensures FramesOf(Frames(plain, off), magic, blocks)
    decreases blocks
  {
    hide Here, Frames, WriteFrame, ZerosFrom;
    if blocks == [] {
      NoFrames(plain, off);
    } else {
      HereSplit(plain, off, WriteFrame(magic, blocks[0]), WriteFrames(magic, blocks[1..]));
      ReadFrame(plain, off, magic, blocks[0]);
      ReadFrames(plain, off + |WriteFrame(magic, blocks[0])|, magic, blocks[1..]);
    }
  }

  // ---------------------------------------------------------------- feeding

  /** How the run over a file ends; all but the first two are exceptions or exits. */
  datatype End = EndOfFile | PastEndDate | BadMagic | WalkError(error: Error) | TableFull | Shortened

  /** Each of these addresses is a member, unless its tail is all zero. */
  ghost predicate AllIn(db: AddressSet, addresses: seq<seq<bv8>>)
    requires db.Valid()
    reads db
  {
    forall a :: a in addresses && db.Tail(a) != db.empty ==> db.Contains(a)
  }

  /** How many addresses the walks of the first n blocks add. */
  function Total(fs: seq<Frame>, inWindow: nat -> bool, n: nat): nat
    requires n <= |fs|
  {
    if n == 0 then 0 else Total(fs, inWindow, n - 1) + |Windowed(fs[n - 1].block, inWindow).adds|
  }

  /** Block i was walked to its end, on a supported chain. */
  predicate Walked(fs: seq<Frame>, inWindow: nat -> bool, yolo: bool, i: nat)
    requires i < |fs|
  {
    Supported(fs[i].magic, yolo) && Windowed(fs[i].block, inWindow).Walking?
  }

  /** Why the run ended after n blocks. */
  ghost predicate EndedBy(end: End, db: AddressSet, len: nat, fs: seq<Frame>, inWindow: nat -> bool,
                          past: nat -> bool, yolo: bool, n: nat)
    requires n <= |fs|
  {
    match end
    case EndOfFile => n == |fs|
    case PastEndDate => n > 0 && past(BlockTime(fs[n - 1].block))
    case BadMagic => n < |fs| && !Supported(fs[n].magic, yolo)
    case WalkError(e) => n < |fs| && Windowed(fs[n].block, inWindow).Failed? && Windowed(fs[n].block, inWindow).error == e
    case TableFull => n < |fs| && len + Total(fs, inWindow, n + 1) > db.maxLen
    case Shortened => n < |fs| && exists a :: a in Windowed(fs[n].block, inWindow).adds && !db.LongEnough(a)
  }

  /** The first n blocks were walked to their end and what they add is in the table. */
  ghost predicate Fed(db: AddressSet, fs: seq<Frame>, inWindow: nat -> bool, yolo: bool, n: nat)
    requires n <= |fs| && db.Valid()
    reads db
  {
    forall i :: 0 <= i < n ==> Walked(fs, inWindow, yolo, i) && AllIn(db, Windowed(fs[i].block, inWindow).adds)
  }

  /** The body of the loop from the walk on: block n is fed, `len` is the length at the start. */
  method FeedNext(db: AddressSet, block: seq<bv8>, inWindow: nat -> bool,
                  ghost fs: seq<Frame>, ghost yolo: bool, ghost n: nat, ghost len: nat)
      returns (failure: Option<End>)
    requires db.Valid() && n < |fs| && fs[n].block == block && Supported(fs[n].magic, yolo)
    requires db.len <= len + Total(fs, inWindow, n)
    modifies db
    ensures db.Valid() ==> forall b :: old(db.Contains(b)) ==> db.Contains(b)
    ensures failure.None? ==> Windowed(block, inWindow).Walking?
    ensures db.Valid() && old(Fed(db, fs, inWindow, yolo, n)) ==>
              Fed(db, fs, inWindow, yolo, if failure.None? then n + 1 else n)
    ensures failure.None? ==> db.Valid() && db.len <= len + Total(fs, inWindow, n + 1)
    ensures failure.Some? ==>
              && EndedBy(failure.value, db, len, fs, inWindow, _ => false, yolo, n)
              && (db.Valid() <==> !failure.value.Shortened?)
  {
    hide Windowed, Supported, AddressSet.Contains, AddressSet.Home, AddressSet.Tail, InRun, Tracks, ProbeTable.Count,
      SlotsOf, FirstFree, Off;
    ghost var rs;
    var w, done;
    w, done, rs := FeedBlock(db, block, inWindow);
    if |db.data| < db.tableBytes {
      failure := Some(Shortened);
    } else if done < |w.adds| {
      failure := Some(TableFull);
    } else if w.Failed? {
      failure := Some(WalkError(w.error));
    } else {
      failure := None;
    }
  }

  /**
   One file: every header and every block is read and de-obfuscated at its own offset, and the
   blocks are fed to the table in order. `n` blocks are fed to their end.
   */
  method FeedFile(db: AddressSet, file: seq<bv8>, xorDat: seq<bv8>, inWindow: nat -> bool, past: nat -> bool, yolo: bool)
      returns (end: End, n: nat)
    requires db.Valid()
    modifies db
    ensures var fs := Frames(XorAt(file, KeyOf(xorDat), 0), 0);
      && n <= |fs|
      && EndedBy(end, db, old(db.len), fs, inWindow, past, yolo, n)
      && (forall i :: 0 <= i < n && past(BlockTime(fs[i].block)) ==> end.PastEndDate? && i == n - 1)
      && (db.Valid() <==> !end.Shortened?)
      && (db.Valid() ==> Fed(db, fs, inWindow, yolo, n))
    ensures db.Valid() ==> forall b :: old(db.Contains(b)) ==> db.Contains(b)
  {
    hide Frames, Slice, Windowed, XorAt, KeyOf, BlockTime, LittleEndian, Supported, Fed, Total;
    hide AddressSet.Contains, AddressSet.Home, AddressSet.Tail, InRun, Tracks, ProbeTable.Count, SlotsOf, FirstFree, Off;
    var key := KeyOf(xorDat);
    ghost var plain := XorAt(file, key, 0);
    ghost var fs := Frames(plain, 0);
    n := 0;
    var off := 0;
    var header := XorAt(Slice(file, off, off + 8), key, off);
    XorPiece(file, key, off, off + 8);
    NoneFed(db, fs, inWindow, yolo);
    while |header| == 8 && header[4..] != ZERO_LENGTH
      invariant n <= |fs| && fs[n..] == Frames(plain, off)
      invariant off <= |file| && header == Slice(plain, off, off + 8)
      invariant db.Valid() && db.len <= old(db.len) + Total(fs, inWindow, n) && Fed(db, fs, inWindow, yolo, n)
      invariant forall i :: 0 <= i < n ==> !past(BlockTime(fs[i].block))
      invariant forall b :: old(db.Contains(b)) ==> db.Contains(b)
      decreases |file| - off
    {
      NextFrame(plain, off);
      assert fs[n..][0] == fs[n] && fs[n + 1..] == fs[n..][1..];
      if !Supported(header[..4], yolo) {
        return BadMagic, n;
      }
      var size := LittleEndian(header[4..]);
      off := off + 8;
      XorPiece(file, key, off, off + size);
      var block := XorAt(Slice(file, off, off + size), key, off);
      off := off + |block|;
      var failure := FeedNext(db, block, inWindow, fs, yolo, n, old(db.len));
      if failure.Some? {
        return failure.value, n;
      }
      n := n + 1;
      header := XorAt(Slice(file, off, off + 8), key, off);
      XorPiece(file, key, off, off + 8);
      if past(BlockTime(block)) {
        return PastEndDate, n;
      }
    }
    NextFrame(plain, off);
    end := EndOfFile;
  }

  lemma NoneFed(db: AddressSet, fs: seq<Frame>, inWindow: nat -> bool, yolo: bool)
    requires db.Valid()
    ensures Fed(db, fs, inWindow, yolo, 0) && Total(fs, inWindow, 0) == 0
  {
  }

  // ---------------------------------------------------------------- files of well-formed blocks

  datatype Content = Content(header: seq<bv8>, ts: seq<Tx>) {
    ghost predicate Valid() {
      && |header| == 80 && |ts| < LIMIT && (forall i :: 0 <= i < |ts| ==> ts[i].Valid())
      && |WriteBlock(header, ts)| < 0x1_0000_0000
    }

    function Time(): nat {
      LittleEndian(Slice(header, 68, 72))
    }

    /** What the walk of this block adds. */
    function Adds(inWindow: nat -> bool): seq<seq<bv8>> {
      if inWindow(Time()) then AddedByTxs(ts, []) else []
    }
  }

  function Written(cs: seq<Content>): (bs: seq<seq<bv8>>)
    ensures |bs| == |cs| && forall i :: 0 <= i < |cs| ==> bs[i] == WriteBlock(cs[i].header, cs[i].ts)
  {
    seq(|cs|, i requires 0 <= i < |cs| => WriteBlock(cs[i].header, cs[i].ts))
  }

  function AddsOf(cs: seq<Content>, inWindow: nat -> bool, n: nat): nat
    requires n <= |cs|
  {
    if n == 0 then 0 else AddsOf(cs, inWindow, n - 1) + |cs[n - 1].Adds(inWindow)|
  }

  lemma WindowedWritten(c: Content, inWindow: nat -> bool)
    requires c.Valid()
    ensures Windowed(WriteBlock(c.header, c.ts), inWindow).Walking?
    ensures Windowed(WriteBlock(c.header, c.ts), inWindow).adds == c.Adds(inWindow)
    ensures BlockTime(WriteBlock(c.header, c.ts)) == c.Time()
  {
    hide Varint, WriteVarint, Transactions, WriteTxs, LittleEndian, AddedByTxs;
    ReadBlock(c.header, c.ts);
    assert Slice(WriteBlock(c.header, c.ts), 68, 72) == Slice(c.header, 68, 72);
  }

  /** The walks of the frames end well, inside the dates, and add what the contents say. */
  ghost predicate Agree(fs: seq<Frame>, magic: seq<bv8>, cs: seq<Content>, inWindow: nat -> bool, past: nat -> bool) {
    |fs| == |cs| && forall i :: 0 <= i < |fs| ==>
      && fs[i].magic == magic && Windowed(fs[i].block, inWindow).Walking? && !past(BlockTime(fs[i].block))
      && Windowed(fs[i].block, inWindow).adds == cs[i].Adds(inWindow)
  }

  lemma FramesAgree(fs: seq<Frame>, magic: seq<bv8>, cs: seq<Content>, inWindow: nat -> bool, past: nat -> bool)
    requires FramesOf(fs, magic, Written(cs)) && forall i :: 0 <= i < |cs| ==> cs[i].Valid() && !past(cs[i].Time())
    ensures Agree(fs, magic, cs, inWindow, past) && |fs| == |cs|
  {
    hide Windowed, WriteBlock, BlockTime, Content.Adds, Content.Time;
    forall i | 0 <= i < |fs|
      ensures fs[i].magic == magic && Windowed(fs[i].block, inWindow).Walking? && !past(BlockTime(fs[i].block))
      ensures Windowed(fs[i].block, inWindow).adds == cs[i].Adds(inWindow)
    {
      WindowedWritten(cs[i], inWindow);
    }
  }

  lemma {:induction false} TotalWritten(fs: seq<Frame>, magic: seq<bv8>, cs: seq<Content>, inWindow: nat -> bool,
                                       past: nat -> bool, n: nat)
    requires Agree(fs, magic, cs, inWindow, past) && n <= |fs|
    ensures Total(fs, inWindow, n) == AddsOf(cs, inWindow, n)
  {
    hide Windowed, BlockTime, Content.Adds;
    if n > 0 {
      TotalWritten(fs, magic, cs, inWindow, past, n - 1);
    }
  }

  lemma {:induction false} AddsGrow(cs: seq<Content>, inWindow: nat -> bool, n: nat, m: nat)
    requires n <= m <= |cs|
    ensures AddsOf(cs, inWindow, n) <= AddsOf(cs, inWindow, m)
  {
    hide Content.Adds;
    if n < m {
      AddsGrow(cs, inWindow, n, m - 1);
    }
  }

  /** Everything the block adds is long enough for the table, as it is when no output is a lookalike. */
  ghost predicate AllLong(db: AddressSet, c: Content, inWindow: nat -> bool) {
    inWindow(c.Time()) ==> Lookalikes(c.ts, []) == 0 || forall a :: a in c.Adds(inWindow) ==> db.LongEnough(a)
  }

  lemma LongAdds(db: AddressSet, c: Content, inWindow: nat -> bool, a: seq<bv8>)
    requires db.bytesPerAddr + db.hashBytes <= 20 && c.Valid() && AllLong(db, c, inWindow) && a in c.Adds(inWindow)
    ensures db.LongEnough(a)
  {
    hide Lookalikes, AddedByTxs, StandardByTxs;
    if Lookalikes(c.ts, []) == 0 {
      TxsAdded(c.ts, []);
      StandardTxsLong(c.ts, a);
    }
  }

  lemma StandardAdded(c: Content, inWindow: nat -> bool, h: seq<bv8>)
    requires inWindow(c.Time()) && h in StandardByTxs(c.ts)
    ensures h in c.Adds(inWindow)
  {
    TxsAdded(c.ts, []);
    SubsequenceMember(StandardByTxs(c.ts), c.Adds(inWindow), h);
  }

  /** With room and long addresses nothing ends the run before the last block. */
  lemma NothingEnds(end: End, db: AddressSet, len: nat, fs: seq<Frame>, magic: seq<bv8>, cs: seq<Content>,
                    inWindow: nat -> bool, past: nat -> bool, yolo: bool, n: nat)
    requires db.bytesPerAddr + db.hashBytes <= 20
    requires Agree(fs, magic, cs, inWindow, past) && Supported(magic, yolo) && n <= |fs|
    requires EndedBy(end, db, len, fs, inWindow, past, yolo, n)
    requires forall i :: 0 <= i < |cs| ==> cs[i].Valid() && AllLong(db, cs[i], inWindow)
    requires len + AddsOf(cs, inWindow, |cs|) <= db.maxLen
    ensures end.EndOfFile? && n == |fs|
  {
    hide Windowed, BlockTime, Supported, AllLong, Content.Adds, Content.Valid, AddressSet.LongEnough, Total, AddsOf;
    if n < |fs| {
      TotalWritten(fs, magic, cs, inWindow, past, n + 1);
      AddsGrow(cs, inWindow, n + 1, |cs|);
      forall a | a in cs[n].Adds(inWindow) ensures db.LongEnough(a) {
        LongAdds(db, cs[n], inWindow, a);
      }
    }
  }

  /** The standard outputs of the blocks inside the dates are members, unless the tail is zero. */
  ghost predicate AllMembers(db: AddressSet, cs: seq<Content>, inWindow: nat -> bool)
    requires db.Valid()
    reads db
  {
    forall i, h :: 0 <= i < |cs| && inWindow(cs[i].Time()) && h in StandardByTxs(cs[i].ts) && db.Tail(h) != db.empty
      ==> db.Contains(h)
  }

  lemma FedAll(db: AddressSet, fs: seq<Frame>, magic: seq<bv8>, cs: seq<Content>,
               inWindow: nat -> bool, past: nat -> bool, yolo: bool)
    requires db.Valid() && Agree(fs, magic, cs, inWindow, past) && Fed(db, fs, inWindow, yolo, |fs|)
    ensures AllMembers(db, cs, inWindow)
  {
    hide Windowed, BlockTime, StandardByTxs, Content.Adds, Content.Time, Supported;
    hide AddressSet.Contains, AddressSet.Tail, InRun, Tracks, ProbeTable.Count, SlotsOf, Off;
    forall i, h | 0 <= i < |cs| && inWindow(cs[i].Time()) && h in StandardByTxs(cs[i].ts) && db.Tail(h) != db.empty
      ensures db.Contains(h)
    {
      StandardAdded(cs[i], inWindow, h);
    }
  }

  /**
   A file of well-formed blocks, as the node writes and obfuscates it, is fed whole to a valid
   table with room: every standard output of a block inside the dates is a member then, unless
   its tail is all zero, and so is every earlier member.
   */
  method FeedWritten(db: AddressSet, file: seq<bv8>, xorDat: seq<bv8>, inWindow: nat -> bool, past: nat -> bool, yolo: bool,
                     ghost magic: seq<bv8>, ghost cs: seq<Content>, ghost reserved: nat)
      returns (end: End, n: nat)
    requires db.Valid() && |magic| == 4 && Supported(magic, yolo)
    requires file == XorAt(WriteFrames(magic, Written(cs)) + Repeat(0, reserved), KeyOf(xorDat), 0)
    requires forall i :: 0 <= i < |cs| ==> cs[i].Valid() && !past(cs[i].Time()) && AllLong(db, cs[i], inWindow)
    requires db.len + AddsOf(cs, inWindow, |cs|) <= db.maxLen
    modifies db
    ensures end.EndOfFile? && n == |cs| && db.Valid()
    ensures AllMembers(db, cs, inWindow)
    ensures forall b :: old(db.Contains(b)) ==> db.Contains(b)
  {
    hide Frames, XorAt, KeyOf, WriteFrames, Written, FramesOf, AddsOf, Supported, AllLong, Agree, Fed, AllMembers;
    hide AddressSet.Contains, Content.Valid, Content.Time, EndedBy;
    hide InRun, Tracks, ProbeTable.Count, SlotsOf, Off;
    ghost var plain := WriteFrames(magic, Written(cs)) + Repeat(0, reserved);
    ghost var fs := Frames(plain, 0);
    XorTwice(plain, KeyOf(xorDat), 0);
    WrittenFrames(magic, cs, reserved);
    FramesAgree(fs, magic, cs, inWindow, past);
    end, n := FeedFile(db, file, xorDat, inWindow, past, yolo);
    NothingEnds(end, db, old(db.len), fs, magic, cs, inWindow, past, yolo, n);
    FedAll(db, fs, magic, cs, inWindow, past, yolo);
  }

  lemma WrittenFrames(magic: seq<bv8>, cs: seq<Content>, reserved: nat)
    requires |magic| == 4 && forall i :: 0 <= i < |cs| ==> cs[i].Valid()
    ensures FramesOf(Frames(WriteFrames(magic, Written(cs)) + Repeat(0, reserved), 0), magic, Written(cs))
  {
    hide Frames, WriteFrames;
    var bs := Written(cs);
    var w := WriteFrames(magic, bs);
    var plain := w + Repeat(0, reserved);
    assert plain[0..|w|] == w && plain[|w|..] == Repeat(0, |plain| - |w|);
    assert Framable(bs);
    ReadFrames(plain, 0, magic, bs);
  }

  /** xor.dat with fewer than eight bytes changes nothing; otherwise its first eight are repeated over the file. */
  lemma KeyBytes(data: seq<bv8>, xorDat: seq<bv8>, i: nat)
    requires i < |data|
    ensures |xorDat| < 8 ==> XorAt(data, KeyOf(xorDat), 0)[i] == data[i]
    ensures |xorDat| >= 8 ==> XorAt(data, KeyOf(xorDat), 0)[i] == data[i] ^ xorDat[i % 8]
  {
    var key := Slice(xorDat, 0, 8);
    if |xorDat| >= 8 {
      assert key[i % 8] == xorDat[i % 8];
      if key == Repeat(0, 8) {
        assert data[i] ^ 0 == data[i];
      }
    }
  }
}
