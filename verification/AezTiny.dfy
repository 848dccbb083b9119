/**
 aez_tiny at byte level: the halves live in 16-byte buffers whose unused low nibbles hold
 garbage, odd lengths are shifted by a nibble in place, and one body runs both directions.
 Every step is proved against the nibble-level network of AezTinySpec.dfy.
 */
module AezTiny {
  import opened Bytes
  import opened AezTinySpec

  // ---------------------------------------------------------------- nibble views of buffers

  /** The half of an n-byte message held in a 16-byte buffer. */
  function HalfOf(b: Block, n: nat): (h: Half)
    requires n <= 31
    ensures |h| == n
  {
    Nibbles(b)[..n]
  }

  lemma NibbleGet(b: seq<bv8>, k: nat)
    requires k < 2 * |b|
    ensures Nibbles(b)[k] == if k % 2 == 0 then High(b[k / 2]) else Low(b[k / 2])
  {
    NibbleAt(b, k / 2);
    assert k == 2 * (k / 2) || k == 2 * (k / 2) + 1;
  }

  lemma {:induction false} PackGet(ns: seq<bv4>, i: nat)
    requires 2 * i + 1 < |ns|
    ensures Pack(ns)[i] == Join(ns[2 * i], ns[2 * i + 1])
  {
    if i > 0 {
      PackGet(ns[2..], i - 1);
    }
  }

  lemma LeftHalf(data: seq<bv8>, left: Block)
    requires 1 <= |data| <= 31
    requires forall i :: 0 <= i < (|data| + 1) / 2 ==> left[i] == data[i]
    ensures HalfOf(left, |data|) == Split(data).l
  {
    forall k | 0 <= k < |data| ensures HalfOf(left, |data|)[k] == Split(data).l[k] {
      NibbleGet(left, k);
      NibbleGet(data, k);
    }
  }

  /** Byte i of the right half: for odd lengths every byte is assembled from two neighbours. */
  function RightByte(data: seq<bv8>, i: nat): bv8
    requires i < (|data| + 1) / 2
  {
    var half := |data| / 2;
    if |data| % 2 == 0 then data[half + i]
    else if i < half then (data[half + i] << 4) | (data[half + i + 1] >> 4)
    else data[half + i] << 4
  }

  lemma ShiftedNibbles(a: bv8, b: bv8)
    ensures High((a << 4) | (b >> 4)) == Low(a) && Low((a << 4) | (b >> 4)) == High(b)
    ensures High(a << 4) == Low(a)
  {
  }

  lemma RightHalf(data: seq<bv8>, right: Block)
    requires 1 <= |data| <= 31
    requires forall i :: 0 <= i < (|data| + 1) / 2 ==> right[i] == RightByte(data, i)
    ensures HalfOf(right, |data|) == Split(data).r
  {
    hide Nibbles, High, Low;
    var n := |data|;
    forall k | 0 <= k < n ensures HalfOf(right, n)[k] == Split(data).r[k] {
      NibbleGet(right, k);
      NibbleGet(data, n + k);
      assert n % 2 == 0 ==> (n + k) / 2 == n / 2 + k / 2 && (n + k) % 2 == k % 2;
      assert n % 2 == 1 && k % 2 == 0 ==> (n + k) / 2 == n / 2 + k / 2 && (n + k) % 2 == 1;
      assert n % 2 == 1 && k % 2 == 1 ==> (n + k) / 2 == n / 2 + k / 2 + 1 && (n + k) % 2 == 0;
      var i := k / 2;
      if n % 2 == 1 {
        ShiftedNibbles(data[n / 2 + i], if i < n / 2 then data[n / 2 + i + 1] else 0);
      }
    }
  }

  lemma JoinParts(b: bv8)
    ensures Join(High(b), Low(b)) == b
    ensures Join(High(b), 8) == (b & 0xF0) | 0x08
    ensures Join(8, 0) == 0x80 && Join(0, 0) == 0
  {
  }

  /** Byte i of a half padded for the round function. */
  function PaddedByte(half: Block, n: nat, i: nat): bv8
    requires n <= 31 && i < 16
  {
    if i < n / 2 then half[i]
    else if i > n / 2 then 0
    else if n % 2 == 1 then (half[i] & 0xF0) | 0x08
    else 0x80
  }

  lemma PaddedHalf(half: Block, n: nat, b: Block)
    requires n <= 31 && forall i :: 0 <= i < 16 ==> b[i] == PaddedByte(half, n, i)
    ensures b == Pack(HalfOf(half, n) + [8] + Repeat(0, 31 - n))
  {
    var ns := HalfOf(half, n) + [8] + Repeat(0, 31 - n);
    forall i | 0 <= i < 16 ensures b[i] == Pack(ns)[i] {
      PackGet(ns, i);
      NibbleAt(half, i);
      JoinParts(half[i]);
    }
  }

  lemma XorHalf(b: Block, k: Block, n: nat)
    requires n <= 31
    ensures HalfOf(Xor(b, k), n) == Mix(HalfOf(b, n), Nibbles(k))
  {
    forall i | 0 <= i < n ensures HalfOf(Xor(b, k), n)[i] == Mix(HalfOf(b, n), Nibbles(k))[i] {
      NibbleGet(Xor(b, k), i);
      NibbleGet(b, i);
      NibbleGet(k, i);
      MixAt(HalfOf(b, n), Nibbles(k), i);
      assert High(b[i / 2] ^ k[i / 2]) == High(b[i / 2]) ^ High(k[i / 2]);
      assert Low(b[i / 2] ^ k[i / 2]) == Low(b[i / 2]) ^ Low(k[i / 2]);
    }
  }

  /** Byte i of the output: the right half, then the left half, joined mid-byte for odd lengths. */
  function OutputByte(left: Block, right: Block, n: nat, i: nat): bv8
    requires n <= 31 && i < n
  {
    var half := n / 2;
    if i < half then right[i]
    else if n % 2 == 0 then left[i - half]
    else if i == half then ((left[0] >> 4) & 0x0F) | (right[half] & 0xF0)
    else (left[i - half] >> 4) | (left[i - half - 1] << 4)
  }

  lemma JoinedNibbles(a: bv8, b: bv8)
    ensures Join(High(a), High(b)) == ((b >> 4) & 0x0F) | (a & 0xF0)
    ensures Join(Low(a), High(b)) == (b >> 4) | (a << 4)
  {
  }

  lemma MergedHalves(left: Block, right: Block, n: nat, out: seq<bv8>)
    requires n <= 31 && |out| == n && forall i :: 0 <= i < n ==> out[i] == OutputByte(left, right, n, i)
    ensures out == Merge(Halves(HalfOf(left, n), HalfOf(right, n)).Swap())
  {
    hide Pack, Nibbles, High, Low, Join;
    var ns := HalfOf(right, n) + HalfOf(left, n);
    forall i | 0 <= i < n ensures out[i] == Pack(ns)[i] {
      var half := n / 2;
      PackGet(ns, i);
      if i <= half {
        NibbleAt(right, i);
        JoinParts(right[i]);
      }
      if i >= half {
        NibbleAt(left, i - half);
        JoinParts(left[i - half]);
        JoinedNibbles(right[half], left[0]);
        if n % 2 == 1 && i > half {
          NibbleAt(left, i - half - 1);
          JoinedNibbles(left[i - half - 1], left[i - half]);
        }
      }
    }
  }

  // ---------------------------------------------------------------- the steps of aez_tiny

  method XorBytes1x16(a: Block, b: Block, dst: array<bv8>)
    requires dst.Length >= 16
    modifies dst
    ensures dst[..16] == Xor(a, b) && dst[16..] == old(dst[16..])
  {
    forall i | 0 <= i < 16 {
      dst[i] := a[i] ^ b[i];
    }
  }

  /** Loads the two halves; for odd lengths the right one is shifted left by a nibble in place. */
  method LoadHalves(data: seq<bv8>, left: array<bv8>, right: array<bv8>)
    requires 1 <= |data| <= 31 && left.Length == right.Length == 16 && left != right
    modifies left, right
    ensures HalfOf(left[..], |data|) == Split(data).l && HalfOf(right[..], |data|) == Split(data).r
    ensures forall i :: 0 <= i < (|data| + 1) / 2 ==> left[i] == data[i]
  {
    hide HalfOf, Split;
    var leftLen, rightStart := (|data| + 1) / 2, |data| / 2;
    forall i | 0 <= i < leftLen {
      left[i] := data[i];
    }
    forall i | 0 <= i < leftLen {
      right[i] := data[rightStart + i];
    }
    if |data| % 2 == 1 {
      var half := |data| / 2;
      for k := 0 to half
        invariant forall i :: 0 <= i < k ==> right[i] == RightByte(data, i)
        invariant forall i :: k <= i < leftLen ==> right[i] == data[rightStart + i]
        invariant forall i :: 0 <= i < leftLen ==> left[i] == data[i]
      {
        right[k] := (right[k] << 4) | (right[k + 1] >> 4);
      }
      right[half] := right[half] << 4;
    }
    LeftHalf(data, left[..]);
    RightHalf(data, right[..]);
  }

  /** Fills the first block of buf with the input of round j for the half held in `half`. */
  method PrepareRound(buf: array<bv8>, half: Block, n: nat, delta: Block, j: int)
    requires buf.Length == 32 && 1 <= n <= 31
    modifies buf
    ensures buf[..16] == RoundInput(delta, HalfOf(half, n), j)
  {
    hide Pack, HalfOf;
    var leftLen, mid := (n + 1) / 2, n / 2;
    var mask: bv8, pad: bv8 := 0x00, 0x80;
    if n % 2 == 1 {
      pad := 0x08;
      mask := 0xF0;
    }
    forall i | 0 <= i < 16 {
      buf[i] := 0;
    }
    forall i | 0 <= i < leftLen {
      buf[i] := half[i];
    }
    buf[mid] := (buf[mid] & mask) | pad;
    PaddedHalf(half, n, buf[..16]);
    XorBytes1x16(buf[..16], delta, buf);
    buf[15] := buf[15] ^ ((j % 256) as bv8);
  }

  /** Writes the swapped halves to the front of buf, moving the left one down a nibble for odd lengths. */
  method StoreHalves(buf: array<bv8>, left: Block, right: Block, n: nat)
    requires buf.Length == 32 && 1 <= n <= 31
    modifies buf
    ensures buf[..n] == Merge(Halves(HalfOf(left, n), HalfOf(right, n)).Swap())
  {
    var leftLen, half := (n + 1) / 2, n / 2;
    forall i | 0 <= i < half {
      buf[i] := right[i];
    }
    forall i | half <= i < half + leftLen {
      buf[i] := left[i - half];
    }
    if n % 2 == 1 {
      var k := n - 1;
      while k > half
        invariant half <= k < n
        invariant forall i :: 0 <= i < half ==> buf[i] == right[i]
        invariant forall i :: half <= i <= k ==> buf[i] == left[i - half]
        invariant forall i :: k < i < n ==> buf[i] == OutputByte(left, right, n, i)
      {
        buf[k] := (buf[k] >> 4) | (buf[k - 1] << 4);
        k := k - 1;
      }
      buf[half] := ((left[0] >> 4) & 0x0F) | (right[half] & 0xF0);
    }
    MergedHalves(left, right, n, buf[..n]);
  }

  /** The top bit that short messages have flipped, computed in the first block of buf. */
  method TopBit(g: Block -> Block, buf: array<bv8>, data: seq<bv8>, delta: Block) returns (bit: bv8)
    requires buf.Length == 32 && 1 <= |data| < 16
    modifies buf
    ensures bit == FlipBit(g, delta, data)
  {
    forall i | 0 <= i < 16 {
      buf[i] := 0;
    }
    forall i | 0 <= i < |data| {
      buf[i] := data[i];
    }
    buf[0] := buf[0] | 0x80;
    ghost var padded := data + Repeat(0, 16 - |data|);
    assert buf[..16] == padded[0 := padded[0] | 0x80];
    XorBytes1x16(delta, buf[..16], buf);
    var tmp := g(buf[..16]);
    bit := tmp[0] & 0x80;
  }

  lemma LowKept(g: Block -> Block, delta: Block, data: seq<bv8>)
    requires 1 <= |data| < 16
    ensures Low(data[0] ^ FlipBit(g, delta, data)) == Low(data[0])
  {
  }

  lemma FlippedRight(g: Block -> Block, delta: Block, data: seq<bv8>)
    requires 1 <= |data| < 16
    ensures Split(Flip(g, delta, data)).r == Split(data).r
  {
    hide FlipBit, Low, High;
    var flipped, n := Flip(g, delta, data), |data|;
    forall k | n <= k < 2 * n ensures Nibbles(flipped)[k] == Nibbles(data)[k] {
      NibbleGet(flipped, k);
      NibbleGet(data, k);
      LowKept(g, delta, data);
    }
  }

  /** Loads the halves and, when deciphering a short message, flips the top bit of the left one. */
  method LoadInput(g: Block -> Block, buf: array<bv8>, delta: Block, data: seq<bv8>, direction: int,
                   left: array<bv8>, right: array<bv8>)
    requires 1 <= |data| <= 31 && buf.Length == 32 && left.Length == right.Length == 16 && left != right
    modifies buf, left, right
    ensures Halves(HalfOf(left[..], |data|), HalfOf(right[..], |data|))
         == Split(if direction == 0 then data else Flip(g, delta, data))
  {
    LoadHalves(data, left, right);
    if direction != 0 && |data| < 16 {
      var bit := TopBit(g, buf, data, delta);
      left[0] := left[0] ^ bit;
      FlippedRight(g, delta, data);
      LeftHalf(Flip(g, delta, data), left[..]);
    }
  }

  /** One round: `target` is masked with the block computed from the other half. */
  method RunRound(f: Block -> Block, delta: Block, n: nat, buf: array<bv8>, other: Block, target: array<bv8>, j: int)
    requires 1 <= n <= 31 && buf.Length == 32 && target.Length == 16 && buf != target
    modifies buf, target
    ensures HalfOf(target[..], n) == Round(f, delta, old(HalfOf(target[..], n)), HalfOf(other, n), j)
  {
    ghost var before := target[..];
    PrepareRound(buf, other, n, delta, j);
    var tmp := f(buf[..16]);
    assert target[..] == before;
    XorHalf(before, tmp, n);
    XorBytes1x16(target[..], tmp, target);
    assert target[..] == Xor(before, tmp);
  }

  /** The main loop: two rounds a pass, numbered upward or downward. */
  method RunRounds(f: Block -> Block, delta: Block, n: nat, buf: array<bv8>, left: array<bv8>, right: array<bv8>,
                   first: int, up: bool, rounds: nat)
    requires 1 <= n <= 31 && buf.Length == 32 && left.Length == right.Length == 16
    requires left != right && buf != left && buf != right
    modifies buf, left, right
    ensures Halves(HalfOf(left[..], n), HalfOf(right[..], n))
         == Rounds(RoundOf(f, delta), old(Halves(HalfOf(left[..], n), HalfOf(right[..], n))), first, up, rounds / 2)
  {
    hide HalfOf, Round;
    var j, step := first, if up then 1 else -1;
    ghost var start := Halves(HalfOf(left[..], n), HalfOf(right[..], n));
    for i := 0 to rounds / 2
      invariant j == RoundNo(first, up, 2 * i)
      invariant Halves(HalfOf(left[..], n), HalfOf(right[..], n)) == Rounds(RoundOf(f, delta), start, first, up, i)
    {
      RunRound(f, delta, n, buf, right[..], left, j);
      RunRound(f, delta, n, buf, left[..], right, j + step);
      j := j + step * 2;
    }
  }

  /** Everything between loading the message and storing the swapped halves in buf. */
  method RunNetwork(f: Block -> Block, g: Block -> Block, delta: Block, data: seq<bv8>, direction: int, buf: array<bv8>)
    requires 1 <= |data| <= 31 && buf.Length == 32
    modifies buf
    ensures Involutive(RoundOf(f, delta))
    ensures buf[..|data|] == if direction == 0 then Network(RoundOf(f, delta), data, 0, true)
                             else Decipher(RoundOf(f, delta), g, delta, data)
  {
    hide HalfOf, Split, Rounds, Flip, RoundOf;
    RoundOfInvolutive(f, delta);
    var n := |data|;
    var left, right := new bv8[16](_ => 0), new bv8[16](_ => 0);
    var rounds;
    if n == 1 {
      rounds := 24;
    } else if n == 2 {
      rounds := 16;
    } else if n < 16 {
      rounds := 10;
    } else {
      rounds := 8;
    }
    LoadInput(g, buf, delta, data, direction, left, right);
    RunRounds(f, delta, n, buf, left, right, if direction == 0 then 0 else rounds - 1, direction == 0, rounds);
    StoreHalves(buf, left[..], right[..], n);
  }

  /** Copies the n result bytes out of buf, then flips the top bit of a short enciphered message. */
  method Emit(g: Block -> Block, delta: Block, n: nat, direction: int, buf: array<bv8>, dst: array<bv8>)
    requires 1 <= n <= 31 && n <= dst.Length && buf.Length == 32 && buf != dst
    modifies buf, dst
    ensures dst[..n] == if direction == 0 then Flip(g, delta, old(buf[..n])) else old(buf[..n])
    ensures dst[n..] == old(dst[n..])
  {
    forall i | 0 <= i < n {
      dst[i] := buf[i];
    }
    assert dst[..n] == buf[..n] == old(buf[..n]);
    if n < 16 && direction == 0 {
      var bit := TopBit(g, buf, buf[..n], delta);
      dst[0] := dst[0] ^ bit;
      assert dst[..n] == old(buf[..n])[0 := old(buf[..n])[0] ^ bit];
    }
  }

  /** aez_tiny: enciphers for direction 0, deciphers otherwise; bytes past the message stay as they were. */
  method Tiny(f: Block -> Block, g: Block -> Block, delta: Block, data: seq<bv8>, direction: int, dst: array<bv8>)
    requires 1 <= |data| <= 31 && dst.Length >= |data|
    modifies dst
    ensures Involutive(RoundOf(f, delta))
    ensures dst[..|data|] == if direction == 0 then Encipher(RoundOf(f, delta), g, delta, data)
                             else Decipher(RoundOf(f, delta), g, delta, data)
    ensures dst[|data|..] == old(dst[|data|..])
  {
    hide Network, Decipher, Flip, RoundOf;
    var buf := new bv8[32](_ => 0);
    RunNetwork(f, g, delta, data, direction, buf);
    Emit(g, delta, |data|, direction, buf, dst);
  }
}
