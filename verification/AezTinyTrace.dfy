/**
 What aez_tiny hands to the AES rounds, written out byte by byte: how many blocks, from which
 half, with which padding and number, and what is done with the results.
 */
module AezTinyTrace {
  import opened Bytes
  import opened AezTinySpec
  import AezTiny

  /** Nibble k of a byte string. */
  function NibbleOf(b: seq<bv8>, k: nat): bv4
    requires k < 2 * |b|
  {
    if k % 2 == 0 then (b[k / 2] >> 4) as bv4 else (b[k / 2] & 0xF) as bv4
  }

  /** Byte i of a half followed by a one bit and zeros. */
  function PaddedAt(half: Half, i: nat): bv8 {
    if 2 * i + 1 < |half| then ((half[2 * i] as bv8) << 4) | (half[2 * i + 1] as bv8)
    else if 2 * i + 1 == |half| then ((half[2 * i] as bv8) << 4) | 0x08
    else if 2 * i == |half| then 0x80
    else 0x00
  }

  /** The block is the padded half, masked with delta and, in its last byte, with the number j. */
  ghost predicate BlockFor(block: Block, delta: Block, half: Half, j: bv8) {
    && (forall i :: 0 <= i < 15 ==> block[i] == PaddedAt(half, i) ^ delta[i])
    && block[15] == PaddedAt(half, 15) ^ delta[15] ^ j
  }

  /** One half becomes its exclusive-or with the leading nibbles of the block's encryption. */
  ghost predicate Masked(before: Half, after: Half, key: Block) {
    |after| == |before| && forall k :: 0 <= k < |before| ==> after[k] == before[k] ^ NibbleOf(key, k)
  }

  /** One round: an even one masks the left half with a block from the right one, an odd one the right half. */
  ghost predicate Step(f: Block -> Block, delta: Block, h: Halves, h': Halves, k: nat, j: bv8, block: Block) {
    if k % 2 == 0 then BlockFor(block, delta, h.r, j) && Masked(h.l, h'.l, f(block)) && h'.r == h.r
    else BlockFor(block, delta, h.l, j) && Masked(h.r, h'.r, f(block)) && h'.l == h.l
  }

  /** The number of round k among `rounds`. */
  function Number(rounds: nat, up: bool, k: nat): (j: bv8)
    requires k < rounds <= 24
  {
    (if up then k else rounds - 1 - k) as bv8
  }

  /** The states and blocks of all the rounds. */
  ghost predicate Trace(f: Block -> Block, delta: Block, hs: seq<Halves>, blocks: seq<Block>, up: bool) {
    && |hs| == |blocks| + 1 && |blocks| <= 24
    && forall k :: 0 <= k < |blocks| ==> Step(f, delta, hs[k], hs[k + 1], k, Number(|blocks|, up, k), blocks[k])
  }

  /** The two halves together are the message. */
  ghost predicate HalvesOf(h: Halves, b: seq<bv8>) {
    |h.l| == |h.r| == |b| && forall k :: 0 <= k < |b| ==> h.l[k] == NibbleOf(b, k) && h.r[k] == NibbleOf(b, |b| + k)
  }

  /** How many blocks a message of n bytes takes. */
  ghost predicate Blocks(n: nat, count: nat) {
    && (n == 1 ==> count == 24)
    && (n == 2 ==> count == 16)
    && (3 <= n <= 15 ==> count == 10)
    && (16 <= n <= 31 ==> count == 8)
  }

  /** The block for the top bit: the message with that bit set, then zeros, masked with delta. */
  ghost predicate TopBlock(block: Block, delta: Block, b: seq<bv8>) {
    && 0 < |b| < 16
    && block[0] == (b[0] | 0x80) ^ delta[0]
    && (forall i :: 1 <= i < |b| ==> block[i] == b[i] ^ delta[i])
    && (forall i :: |b| <= i < 16 ==> block[i] == delta[i])
  }

  /** Messages under 16 bytes have their top bit masked with that of one more block, the others are kept. */
  ghost predicate TopMasked(g: Block -> Block, delta: Block, b: seq<bv8>, b': seq<bv8>) {
    if |b| >= 16 then b' == b
    else exists block: Block :: TopBlock(block, delta, b) && b' == b[0 := b[0] ^ (g(block)[0] & 0x80)]
  }

  // ---------------------------------------------------------------- one round

  lemma NibblesAt(b: seq<bv8>, k: nat)
    requires k < 2 * |b|
    ensures Nibbles(b)[k] == NibbleOf(b, k)
  {
    AezTiny.NibbleGet(b, k);
  }

  lemma InputBlock(delta: Block, half: Half, j: int)
    ensures BlockFor(RoundInput(delta, half, j), delta, half, (j % 256) as bv8)
  {
    hide Pack;
    var ns := half + [8] + Repeat(0, 31 - |half|);
    forall i | 0 <= i < 16 ensures Pack(ns)[i] == PaddedAt(half, i) {
      AezTiny.PackGet(ns, i);
      JoinedAt(half, i);
    }
    hide PaddedAt;
    var masked := Xor(Pack(ns), delta);
    assert RoundInput(delta, half, j) == masked[15 := masked[15] ^ ((j % 256) as bv8)];
  }

  lemma JoinedAt(half: Half, i: nat)
    requires i < 16
    ensures var ns := half + [8] + Repeat(0, 31 - |half|); Join(ns[2 * i], ns[2 * i + 1]) == PaddedAt(half, i)
  {
    EightJoined(if 2 * i < |half| then half[2 * i] else 0);
  }

  lemma EightJoined(n: bv4)
    ensures Join(n, 8) == ((n as bv8) << 4) | 0x08 && Join(8, 0) == 0x80 && Join(0, 0) == 0
  {
  }

  lemma RoundMasks(f: Block -> Block, delta: Block, t: Half, o: Half, j: int)
    ensures Masked(t, Round(f, delta, t, o, j), f(RoundInput(delta, o, j)))
  {
    hide RoundInput;
    var key := f(RoundInput(delta, o, j));
    forall k | 0 <= k < |t| ensures Round(f, delta, t, o, j)[k] == t[k] ^ NibbleOf(key, k) {
      MixAt(t, Nibbles(key), k);
      NibblesAt(key, k);
    }
  }

  // ---------------------------------------------------------------- all the rounds

  function ByteNumber(first: int, up: bool, k: nat): bv8 {
    (RoundNo(first, up, k) % 256) as bv8
  }

  ghost predicate Numbered(f: Block -> Block, delta: Block, hs: seq<Halves>, blocks: seq<Block>, first: int, up: bool) {
    && |hs| == |blocks| + 1
    && forall k :: 0 <= k < |blocks| ==> Step(f, delta, hs[k], hs[k + 1], k, ByteNumber(first, up, k), blocks[k])
  }

  /** The trace of the rounds, grown by one pair. */
  lemma {:induction false} RoundsTrace(f: Block -> Block, delta: Block, h: Halves, first: int, up: bool, pairs: nat)
      returns (hs: seq<Halves>, blocks: seq<Block>)
    ensures |blocks| == 2 * pairs && Numbered(f, delta, hs, blocks, first, up)
    ensures |hs| == 2 * pairs + 1 && hs[0] == h && hs[2 * pairs] == Rounds(RoundOf(f, delta), h, first, up, pairs)
  {
    hide Step, ByteNumber, Numbered, RoundPair, RoundOf;
    if pairs == 0 {
      hs, blocks := [h], [];
      NoRounds(f, delta, h, first, up);
    } else {
      var hs0, blocks0 := RoundsTrace(f, delta, h, first, up, pairs - 1);
      var h0, h1, h2, b1, b2 := PairSteps(f, delta, hs0[2 * (pairs - 1)], first, up, 2 * (pairs - 1));
      Extend(f, delta, hs0, blocks0, first, up, h1, b1);
      Extend(f, delta, hs0 + [h1], blocks0 + [b1], first, up, h2, b2);
      hs, blocks := hs0 + [h1] + [h2], blocks0 + [b1] + [b2];
    }
  }

  lemma NoRounds(f: Block -> Block, delta: Block, h: Halves, first: int, up: bool)
    ensures Numbered(f, delta, [h], [], first, up)
  {
  }

  lemma Extend(f: Block -> Block, delta: Block, hs: seq<Halves>, blocks: seq<Block>, first: int, up: bool,
               h: Halves, block: Block)
    requires Numbered(f, delta, hs, blocks, first, up)
    requires Step(f, delta, hs[|blocks|], h, |blocks|, ByteNumber(first, up, |blocks|), block)
    ensures Numbered(f, delta, hs + [h], blocks + [block], first, up)
  {
    hide Step, ByteNumber;
    var hs', blocks' := hs + [h], blocks + [block];
    forall k | 0 <= k < |blocks'|
      ensures Step(f, delta, hs'[k], hs'[k + 1], k, ByteNumber(first, up, k), blocks'[k])
    {
    }
  }

  lemma PairSteps(f: Block -> Block, delta: Block, h: Halves, first: int, up: bool, k: nat)
      returns (h0: Halves, h1: Halves, h2: Halves, b1: Block, b2: Block)
    requires k % 2 == 0
    ensures h0 == h && h2 == RoundPair(RoundOf(f, delta), h, RoundNo(first, up, k), up)
    ensures Step(f, delta, h, h1, k, ByteNumber(first, up, k), b1)
    ensures Step(f, delta, h1, h2, k + 1, ByteNumber(first, up, k + 1), b2)
  {
    hide BlockFor, Masked, Round, RoundInput;
    var j := RoundNo(first, up, k);
    var l := Round(f, delta, h.l, h.r, j);
    var j' := RoundNo(j, up, 1);
    h0, h1, h2 := h, Halves(l, h.r), Halves(l, Round(f, delta, h.r, l, j'));
    b1, b2 := RoundInput(delta, h.r, j), RoundInput(delta, l, j');
    InputBlock(delta, h.r, j);
    InputBlock(delta, l, j');
    RoundMasks(f, delta, h.l, h.r, j);
    RoundMasks(f, delta, h.r, l, j');
  }

  /** With at most 24 rounds the numbers fit a byte. */
  lemma PlainNumbers(f: Block -> Block, delta: Block, hs: seq<Halves>, blocks: seq<Block>, up: bool)
    requires |blocks| <= 24 && Numbered(f, delta, hs, blocks, if up then 0 else |blocks| - 1, up)
    ensures Trace(f, delta, hs, blocks, up)
  {
    hide Step;
    forall k | 0 <= k < |blocks|
      ensures Step(f, delta, hs[k], hs[k + 1], k, Number(|blocks|, up, k), blocks[k])
    {
      assert ByteNumber(if up then 0 else |blocks| - 1, up, k) == Number(|blocks|, up, k);
    }
  }

  lemma SplitHalves(b: seq<bv8>)
    requires |b| <= 31
    ensures HalvesOf(Split(b), b)
  {
    forall k | 0 <= k < |b|
      ensures Split(b).l[k] == NibbleOf(b, k) && Split(b).r[k] == NibbleOf(b, |b| + k)
    {
      NibblesAt(b, k);
      NibblesAt(b, |b| + k);
    }
  }

  /** The network, from the halves of its input to the swapped halves of its output. */
  lemma NetworkTrace(f: Block -> Block, delta: Block, b: seq<bv8>, up: bool)
      returns (hs: seq<Halves>, blocks: seq<Block>)
    requires Involutive(RoundOf(f, delta)) && 1 <= |b| <= 31
    ensures Blocks(|b|, |blocks|) && Trace(f, delta, hs, blocks, up)
    ensures HalvesOf(hs[0], b)
    ensures HalvesOf(hs[|blocks|].Swap(), Network(RoundOf(f, delta), b, if up then 0 else RoundCount(|b|) - 1, up))
  {
    hide Split, Merge, Rounds, Trace, HalvesOf, RoundOf;
    var count := RoundCount(|b|);
    var first := if up then 0 else count - 1;
    hs, blocks := RoundsTrace(f, delta, Split(b), first, up, count / 2);
    PlainNumbers(f, delta, hs, blocks, up);
    var last := Rounds(RoundOf(f, delta), Split(b), first, up, count / 2);
    RoundsLengths(RoundOf(f, delta), Split(b), first, up, count / 2);
    SplitMerge(last.Swap());
    SplitHalves(b);
    SplitHalves(Merge(last.Swap()));
  }

  lemma FlipMasks(g: Block -> Block, delta: Block, b: seq<bv8>)
    requires 1 <= |b| <= 31
    ensures TopMasked(g, delta, b, Flip(g, delta, b))
  {
    if |b| < 16 {
      var padded := b + Repeat(0, 16 - |b|);
      var block: Block := Xor(delta, padded[0 := padded[0] | 0x80]);
      assert TopBlock(block, delta, b) by {
        Commutes(delta, padded[0 := padded[0] | 0x80]);
      }
      hide TopBlock, Xor;
    }
  }

  lemma Commutes(a: Block, b: Block)
    ensures Xor(a, b) == Xor(b, a)
  {
    forall i | 0 <= i < 16 ensures a[i] ^ b[i] == b[i] ^ a[i] {
    }
  }

  // ---------------------------------------------------------------- both directions

  /**
   Enciphering: eight blocks for 16 to 31 bytes, 10, 16 or 24 for shorter messages, numbered from
   zero upward, taken alternately from the right and the left half; the result has the halves
   swapped, and its top bit masked when it is short.
   */
  lemma EncipherTrace(f: Block -> Block, g: Block -> Block, delta: Block, p: seq<bv8>)
      returns (hs: seq<Halves>, blocks: seq<Block>, net: seq<bv8>)
    requires Involutive(RoundOf(f, delta)) && 1 <= |p| <= 31
    ensures Blocks(|p|, |blocks|) && Trace(f, delta, hs, blocks, true)
    ensures HalvesOf(hs[0], p) && HalvesOf(hs[|blocks|].Swap(), net)
    ensures TopMasked(g, delta, net, Encipher(RoundOf(f, delta), g, delta, p))
  {
    hide Network, Trace, HalvesOf, TopMasked, RoundOf, Flip;
    net := Network(RoundOf(f, delta), p, 0, true);
    hs, blocks := NetworkTrace(f, delta, p, true);
    FlipMasks(g, delta, net);
  }

  /** Deciphering: the same number of blocks, numbered downward to zero, after the top bit was masked. */
  lemma DecipherTrace(f: Block -> Block, g: Block -> Block, delta: Block, c: seq<bv8>)
      returns (hs: seq<Halves>, blocks: seq<Block>, net: seq<bv8>)
    requires Involutive(RoundOf(f, delta)) && 1 <= |c| <= 31
    ensures TopMasked(g, delta, c, net)
    ensures Blocks(|c|, |blocks|) && Trace(f, delta, hs, blocks, false)
    ensures HalvesOf(hs[0], net) && HalvesOf(hs[|blocks|].Swap(), Decipher(RoundOf(f, delta), g, delta, c))
  {
    hide Network, Trace, HalvesOf, TopMasked, RoundOf, Flip;
    net := Flip(g, delta, c);
    hs, blocks := NetworkTrace(f, delta, net, false);
    FlipMasks(g, delta, c);
  }
}
