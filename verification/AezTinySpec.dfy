/**
 The short-message branch of AEZ, stated on nibbles.

 A message of n bytes is 2n nibbles, so its two halves are n nibbles each whatever the
 parity of n. On nibbles the cipher is a plain balanced Feistel network; the byte-level
 shifting and masking of the code is proved to compute it in AezTiny.dfy.
 */
module AezTinySpec {
  import opened Bytes

  // ---------------------------------------------------------------- nibbles

  /** Bytes split into nibbles, high nibble first. */
  function Nibbles(b: seq<bv8>): (r: seq<bv4>)
    ensures |r| == 2 * |b|
  {
    if b == [] then [] else [High(b[0]), Low(b[0])] + Nibbles(b[1..])
  }

  function Pack(ns: seq<bv4>): (b: seq<bv8>)
    ensures |b| == |ns| / 2
  {
    if |ns| < 2 then [] else [Join(ns[0], ns[1])] + Pack(ns[2..])
  }

  function High(b: bv8): bv4 {
    (b >> 4) as bv4
  }

  function Low(b: bv8): bv4 {
    (b & 0xF) as bv4
  }

  function Join(hi: bv4, lo: bv4): bv8 {
    ((hi as bv8) << 4) | (lo as bv8)
  }

  lemma {:induction false} NibbleAt(b: seq<bv8>, i: nat)
    requires i < |b|
    ensures Nibbles(b)[2 * i] == High(b[i]) && Nibbles(b)[2 * i + 1] == Low(b[i])
  {
    if i > 0 {
      NibbleAt(b[1..], i - 1);
    }
  }

  lemma {:induction false} PackNibbles(b: seq<bv8>)
    ensures Pack(Nibbles(b)) == b
  {
    if b != [] {
      PackNibbles(b[1..]);
      assert Nibbles(b)[2..] == Nibbles(b[1..]);
    }
  }

  lemma {:induction false} NibblesPack(ns: seq<bv4>)
    requires |ns| % 2 == 0
    ensures Nibbles(Pack(ns)) == ns
  {
    if ns != [] {
      NibblesPack(ns[2..]);
      assert Pack(ns)[1..] == Pack(ns[2..]);
      assert ns == [ns[0], ns[1]] + ns[2..];
    }
  }

  // ---------------------------------------------------------------- the Feistel network

  /** Half a message: at most 31 nibbles. */
  type Half = s: seq<bv4> | |s| <= 31 witness []

  /** One round: the half to change, the other half, the round number. */
  type RoundFn = (Half, Half, int) -> Half

  datatype Halves = Halves(l: Half, r: Half) {
    function Swap(): Halves {
      Halves(r, l)
    }
  }

  /** Every round keeps the length of the half it changes and is its own inverse. */
  ghost predicate Involutive(round: RoundFn) {
    forall t, o, j :: |round(t, o, j)| == |t| && round(round(t, o, j), o, j) == t
  }

  /** The round number k rounds after j, counting up or down. */
  function RoundNo(j: int, up: bool, k: int): int {
    if up then j + k else j - k
  }

  /** Two consecutive rounds, the first of them numbered j. */
  function RoundPair(round: RoundFn, h: Halves, j: int, up: bool): Halves {
    var l := round(h.l, h.r, j);
    Halves(l, round(h.r, l, RoundNo(j, up, 1)))
  }

  /** `pairs` round pairs from round j, upward or downward. */
  function Rounds(round: RoundFn, h: Halves, j: int, up: bool, pairs: nat): Halves {
    if pairs == 0 then h
    else RoundPair(round, Rounds(round, h, j, up, pairs - 1), RoundNo(j, up, 2 * (pairs - 1)), up)
  }

  lemma {:induction false} RoundsLengths(round: RoundFn, h: Halves, j: int, up: bool, pairs: nat)
    requires Involutive(round)
    ensures |Rounds(round, h, j, up, pairs).l| == |h.l| && |Rounds(round, h, j, up, pairs).r| == |h.r|
  {
    if pairs > 0 {
      RoundsLengths(round, h, j, up, pairs - 1);
    }
  }

  lemma {:induction false} FirstPair(round: RoundFn, h: Halves, j: int, up: bool, pairs: nat)
    ensures Rounds(round, h, j, up, pairs + 1)
         == Rounds(round, RoundPair(round, h, j, up), RoundNo(j, up, 2), up, pairs)
  {
    if pairs == 0 {
      assert Rounds(round, h, j, up, 0) == h;
    } else {
      FirstPair(round, h, j, up, pairs - 1);
    }
  }

  /** Running the rounds backwards from the swapped result gives back the swapped start. */
  lemma {:induction false} RoundsUndone(round: RoundFn, h: Halves, j: int, up: bool, pairs: nat)
    requires Involutive(round)
    ensures Rounds(round, Rounds(round, h, j, up, pairs).Swap(), RoundNo(j, up, 2 * pairs - 1), !up, pairs) == h.Swap()
  {
    if pairs > 0 {
      var h' := Rounds(round, h, j, up, pairs - 1);
      var last := RoundNo(j, up, 2 * (pairs - 1));
      FirstPair(round, RoundPair(round, h', last, up).Swap(), RoundNo(j, up, 2 * pairs - 1), !up, pairs - 1);
      RoundsUndone(round, h, j, up, pairs - 1);
    }
  }

  // ---------------------------------------------------------------- the whole cipher

  /** What is fed to the round function: the half, a one bit, zeros; masked by delta and the round number. */
  function RoundInput(delta: Block, half: Half, j: int): Block {
    var masked := Xor(Pack(half + [8] + Repeat(0, 31 - |half|)), delta);
    masked[15 := masked[15] ^ ((j % 256) as bv8)]
  }

  /** Exclusive-or of a half with the leading nibbles of a key. */
  function Mix(half: seq<bv4>, k: seq<bv4>): (r: seq<bv4>)
    requires |half| <= |k|
    ensures |r| == |half|
  {
    if half == [] then [] else [half[0] ^ k[0]] + Mix(half[1..], k[1..])
  }

  lemma {:induction false} MixCancels(half: seq<bv4>, k: seq<bv4>)
    requires |half| <= |k|
    ensures Mix(Mix(half, k), k) == half
  {
    if half != [] {
      MixCancels(half[1..], k[1..]);
      assert Mix(half, k)[1..] == Mix(half[1..], k[1..]);
    }
  }

  lemma {:induction false} MixAt(half: seq<bv4>, k: seq<bv4>, i: nat)
    requires i < |half| <= |k|
    ensures Mix(half, k)[i] == half[i] ^ k[i]
  {
    if i > 0 {
      MixAt(half[1..], k[1..], i - 1);
    }
  }

  /** One AEZ-tiny round for the block function f. */
  function RoundOf(f: Block -> Block, delta: Block): RoundFn {
    (t: Half, o: Half, j: int) => Round(f, delta, t, o, j)
  }

  function Round(f: Block -> Block, delta: Block, t: Half, o: Half, j: int): Half {
    Mix(t, Nibbles(f(RoundInput(delta, o, j))))
  }

  lemma RoundOfInvolutive(f: Block -> Block, delta: Block)
    ensures Involutive(RoundOf(f, delta))
  {
    forall t: Half, o: Half, j: int
      ensures Round(f, delta, Round(f, delta, t, o, j), o, j) == t
    {
      MixCancels(t, Nibbles(f(RoundInput(delta, o, j))));
    }
  }

  /** The bit flipped in the first byte of messages under 16 bytes; it does not depend on that bit. */
  function FlipBit(g: Block -> Block, delta: Block, b: seq<bv8>): bv8
    requires 0 < |b| < 16
  {
    var padded := b + Repeat(0, 16 - |b|);
    g(Xor(delta, padded[0 := padded[0] | 0x80]))[0] & 0x80
  }

  function Flip(g: Block -> Block, delta: Block, b: seq<bv8>): (r: seq<bv8>)
    requires 0 < |b|
    ensures |r| == |b|
  {
    if |b| < 16 then b[0 := b[0] ^ FlipBit(g, delta, b)] else b
  }

  function Split(b: seq<bv8>): (h: Halves)
    requires |b| <= 31
    ensures |h.l| == |h.r| == |b|
  {
    Halves(Nibbles(b)[..|b|], Nibbles(b)[|b|..])
  }

  function Merge(h: Halves): (b: seq<bv8>)
    ensures |b| == (|h.l| + |h.r|) / 2
  {
    Pack(h.l + h.r)
  }

  /** Number of rounds by message length. */
  function RoundCount(n: nat): nat {
    if n == 1 then 24 else if n == 2 then 16 else if n < 16 then 10 else 8
  }

  /** The network on bytes: split, run all the rounds from number j, put the halves back in swapped order. */
  function Network(round: RoundFn, b: seq<bv8>, j: int, up: bool): (r: seq<bv8>)
    requires Involutive(round) && 1 <= |b| <= 31
    ensures |r| == |b|
  {
    RoundsLengths(round, Split(b), j, up, RoundCount(|b|) / 2);
    Merge(Rounds(round, Split(b), j, up, RoundCount(|b|) / 2).Swap())
  }

  function Encipher(round: RoundFn, g: Block -> Block, delta: Block, p: seq<bv8>): (c: seq<bv8>)
    requires Involutive(round) && 1 <= |p| <= 31
    ensures |c| == |p|
  {
    Flip(g, delta, Network(round, p, 0, true))
  }

  function Decipher(round: RoundFn, g: Block -> Block, delta: Block, c: seq<bv8>): (p: seq<bv8>)
    requires Involutive(round) && 1 <= |c| <= 31
    ensures |p| == |c|
  {
    Network(round, Flip(g, delta, c), RoundCount(|c|) - 1, false)
  }

  // ---------------------------------------------------------------- inverses

  lemma SplitMerge(h: Halves)
    requires |h.l| == |h.r|
    ensures Split(Merge(h)) == h
  {
    NibblesPack(h.l + h.r);
  }

  lemma MergeSplit(b: seq<bv8>)
    requires |b| <= 31
    ensures Merge(Split(b)) == b
  {
    PackNibbles(b);
    assert Split(b).l + Split(b).r == Nibbles(b);
  }

  lemma FlipFlip(g: Block -> Block, delta: Block, b: seq<bv8>)
    requires 0 < |b|
    ensures Flip(g, delta, Flip(g, delta, b)) == b
  {
    if |b| < 16 {
      var x := FlipBit(g, delta, b);
      var c := Flip(g, delta, b);
      OnlyTopBit(b[0], x);
      assert (b + Repeat(0, 16 - |b|))[0 := b[0] | 0x80] == (c + Repeat(0, 16 - |b|))[0 := c[0] | 0x80];
      assert Flip(g, delta, c) == c[0 := c[0] ^ x];
    }
  }

  lemma OnlyTopBit(b: bv8, x: bv8)
    requires x & 0x7F == 0
    ensures (b ^ x) | 0x80 == b | 0x80 && (b ^ x) ^ x == b
  {
  }

  lemma NetworkUndone(round: RoundFn, b: seq<bv8>, j: int, up: bool)
    requires Involutive(round) && 1 <= |b| <= 31
    ensures Network(round, Network(round, b, j, up), RoundNo(j, up, RoundCount(|b|) - 1), !up) == b
  {
    var pairs := RoundCount(|b|) / 2;
    RoundsLengths(round, Split(b), j, up, pairs);
    SplitMerge(Rounds(round, Split(b), j, up, pairs).Swap());
    RoundsUndone(round, Split(b), j, up, pairs);
    MergeSplit(b);
  }

  /** Deciphering undoes enciphering: every length 1..31, every delta, every round. */
  lemma DecipherEncipher(round: RoundFn, g: Block -> Block, delta: Block, p: seq<bv8>)
    requires Involutive(round) && 1 <= |p| <= 31
    ensures Decipher(round, g, delta, Encipher(round, g, delta, p)) == p
  {
    FlipFlip(g, delta, Network(round, p, 0, true));
    NetworkUndone(round, p, 0, true);
  }

  /** Enciphering undoes deciphering. */
  lemma EncipherDecipher(round: RoundFn, g: Block -> Block, delta: Block, c: seq<bv8>)
    requires Involutive(round) && 1 <= |c| <= 31
    ensures Encipher(round, g, delta, Decipher(round, g, delta, c)) == c
  {
    NetworkUndone(round, Flip(g, delta, c), RoundCount(|c|) - 1, false);
    FlipFlip(g, delta, c);
  }
}
