/** _bip39_fast_checksum_valid: the BIP-39 checksum by integer arithmetic, for any hash. */
module Bip39 {
  import opened Bits
  import opened Digits

  /** First byte of the hash of an entropy string. */
  type Hash = seq<bv8> -> bv8

  /** The phrase lengths of BIP-39. */
  predicate GoodLength(n: nat) {
    n == 12 || n == 15 || n == 18 || n == 21 || n == 24
  }

  function ChecksumBits(n: nat): nat {
    n * 11 / 33
  }

  function EntropyBits(n: nat): nat
    requires GoodLength(n)
  {
    n * 11 - ChecksumBits(n)
  }

  predicate WordIndices(idx: seq<nat>, n: nat) {
    |idx| == n && InBase(idx, 2048)
  }

  /** The test on the number with the word indices as base-2048 digits. */
  predicate ValidNumber(sha: Hash, value: nat, n: nat)
    requires GoodLength(n)
  {
    var p := Pow2(ChecksumBits(n));
    var entropy := ToBytes(value / p, EntropyBits(n) / 8);
    value % p == IntOfByte(sha(entropy)) / Pow2(8 - ChecksumBits(n))
  }

  predicate Valid(sha: Hash, idx: seq<nat>, n: nat)
    requires GoodLength(n)
  {
    ValidNumber(sha, Horner(idx, 2048), n)
  }

  method ChecksumValid(sha: Hash, idx: seq<nat>, n: nat) returns (ok: bool)
    requires GoodLength(n) && WordIndices(idx, n)
    ensures ok <==> Valid(sha, idx, n)
  {
    hide Horner, ToBytes, Pow2, IntOfByte;
    EmptyNumber();
    assert idx[..0] == [];
    var csBits := n * 11 / 33;
    var entBits := n * 11 - csBits;
    var value := 0;
    for i := 0 to |idx|
      invariant value == Horner(idx[..i], 2048)
    {
      NextIndex(idx, i);
      value := value * 2048 + idx[i];
    }
    assert idx[..|idx|] == idx;
    var checksum := value % Pow2(csBits);
    var entropy := ToBytes(value / Pow2(csBits), entBits / 8);
    var expected := IntOfByte(sha(entropy)) / Pow2(8 - csBits);
    return checksum == expected;
  }

  lemma EmptyNumber()
    ensures Horner([], 2048) == 0
  {
  }

  lemma NextIndex(idx: seq<nat>, i: nat)
    requires i < |idx|
    ensures Horner(idx[..i + 1], 2048) == Horner(idx[..i], 2048) * 2048 + idx[i]
  {
    assert idx[..i + 1][..i] == idx[..i];
  }

  // ---------------------------------------------------------------- the entropy fits its bytes

  lemma {:induction false} HornerBound(idx: seq<nat>)
    requires InBase(idx, 2048)
    ensures Horner(idx, 2048) < Pow2(11 * |idx|)
  {
    if idx != [] {
      var init := idx[..|idx| - 1];
      HornerBound(init);
      Pow2Add(11 * |init|, 11);
      assert Pow2(11) == 2048;
      assert 11 * |idx| == 11 * |init| + 11;
    }
  }

  /** to_bytes never overflows: the entropy is a whole number of bytes and below 2 to its bits. */
  lemma EntropyFits(idx: seq<nat>, n: nat)
    requires GoodLength(n) && WordIndices(idx, n)
    ensures EntropyBits(n) % 8 == 0
    ensures Horner(idx, 2048) / Pow2(ChecksumBits(n)) < Pow2(EntropyBits(n))
  {
    hide Horner, Pow2;
    HornerBound(idx);
    assert EntropyBits(n) + ChecksumBits(n) == 11 * |idx|;
    Pow2Add(EntropyBits(n), ChecksumBits(n));
    QuotientBound(Horner(idx, 2048), Pow2(EntropyBits(n)), Pow2(ChecksumBits(n)));
  }

  // ---------------------------------------------------------------- how many last words pass

  /** The number with quotient e by p and remainder g(e). */
  function Nth(p: nat, g: nat -> nat, e: nat): nat {
    e * p + g(e)
  }

  /** The numbers below e * p whose remainder by p is what g gives for the quotient. */
  function Passing(p: nat, g: nat -> nat, e: nat): set<nat> {
    if e == 0 then {} else Passing(p, g, e - 1) + {Nth(p, g, e - 1)}
  }

  predicate Matches(p: nat, g: nat -> nat, w: nat)
    requires p >= 2
  {
    w % p == g(w / p)
  }

  lemma NthIff(p: nat, g: nat -> nat, e: nat, w: nat)
    requires p >= 2 && g(e) < p
    ensures w == Nth(p, g, e) <==> w / p == e && Matches(p, g, w)
  {
    DivMod(e, g(e), p);
    DivModSum(w, p);
  }

  lemma {:induction false} PassingIff(p: nat, g: nat -> nat, e: nat, w: nat)
    requires p >= 2 && forall x :: g(x) < p
    ensures w in Passing(p, g, e) <==> w / p < e && Matches(p, g, w)
  {
    hide Nth, Matches;
    if e > 0 {
      PassingIff(p, g, e - 1, w);
      NthIff(p, g, e - 1, w);
    }
  }

  lemma {:induction false} PassingSize(p: nat, g: nat -> nat, e: nat)
    requires p >= 2 && forall x :: g(x) < p
    ensures |Passing(p, g, e)| == e
  {
    hide Nth, Matches;
    if e > 0 {
      var x := Nth(p, g, e - 1);
      PassingSize(p, g, e - 1);
      PassingIff(p, g, e - 1, x);
      NthIff(p, g, e - 1, x);
    }
  }

  /** The last words that complete the prefix to a phrase with a valid checksum. */
  function LastWords(sha: Hash, prefix: seq<nat>, n: nat): set<nat>
    requires GoodLength(n)
  {
    set w: nat | w < 2048 && Valid(sha, prefix + [w], n)
  }

  /** Two to the number of checksum bits. */
  function Checks(n: nat): (p: nat)
    requires GoodLength(n)
    ensures p >= 1
  {
    Pow2(ChecksumBits(n))
  }

  /** Two to the number of entropy bits in the last word. */
  function LastEntropies(n: nat): (q: nat)
    requires GoodLength(n)
  {
    Pow2(11 - ChecksumBits(n))
  }

  /** Two to the number of bits of the hash byte that are dropped. */
  function Dropped(n: nat): (r: nat)
    requires GoodLength(n)
    ensures r >= 1
  {
    Pow2(8 - ChecksumBits(n))
  }

  lemma Scales(n: nat)
    requires GoodLength(n)
    ensures Checks(n) >= 2 && LastEntropies(n) * Checks(n) == 2048 && Checks(n) * Dropped(n) == 256
    ensures LastEntropies(n) == Pow2(11 - n / 3)
  {
    hide Pow2;
    PowersSplit(ChecksumBits(n));
  }

  lemma PowersSplit(c: nat)
    requires 1 <= c <= 8
    ensures Pow2(c) >= 2 && Pow2(11 - c) * Pow2(c) == 2048 && Pow2(c) * Pow2(8 - c) == 256
  {
    Pow2Add(11 - c, c);
    Pow2Add(c, 8 - c);
    assert Pow2(11) == 2048 && Pow2(8) == 256;
  }

  /** The checksum that goes with the prefix number v and the last word's entropy bits e. */
  function ExpectedFor(sha: Hash, v: nat, e: nat, q: nat, r: nat, len: nat): nat
    requires r >= 1
  {
    IntOfByte(sha(ToBytes(v * q + e, len))) / r
  }

  lemma ExpectedBound(sha: Hash, v: nat, e: nat, q: nat, r: nat, len: nat, p: nat)
    requires r >= 1 && p * r == 256
    ensures ExpectedFor(sha, v, e, q, r, len) < p
  {
    QuotientBound(IntOfByte(sha(ToBytes(v * q + e, len))), p, r);
  }

  /** A last word passes exactly when its checksum bits are those expected for its entropy bits. */
  lemma PassesIff(sha: Hash, prefix: seq<nat>, n: nat, w: nat)
    requires GoodLength(n) && w < 2048
    ensures var p, q, r := Checks(n), LastEntropies(n), Dropped(n);
      Valid(sha, prefix + [w], n)
      <==> w % p == ExpectedFor(sha, Horner(prefix, 2048), w / p, q, r, EntropyBits(n) / 8)
  {
    hide Horner, ToBytes, IntOfByte, Pow2;
    Scales(n);
    LastDigit(prefix, w);
    SplitValue(Horner(prefix, 2048), w, Checks(n), LastEntropies(n));
  }

  lemma LastDigit(prefix: seq<nat>, w: nat)
    ensures Horner(prefix + [w], 2048) == Horner(prefix, 2048) * 2048 + w
  {
    assert (prefix + [w])[..|prefix|] == prefix;
  }

  lemma SplitValue(v: nat, w: nat, p: nat, q: nat)
    requires p >= 2 && q * p == 2048
    ensures (v * 2048 + w) / p == v * q + w / p && (v * 2048 + w) % p == w % p
  {
    DivModSum(w, p);
    assert v * 2048 == v * (q * p) == (v * q) * p;
    assert v * 2048 + w == (v * q + w / p) * p + w % p;
    DivMod(v * q + w / p, w % p, p);
  }

  /** For every prefix and every hash, exactly 2^(11 - n/3) last words pass. */
  lemma LastWordCount(sha: Hash, prefix: seq<nat>, n: nat)
    requires GoodLength(n) && |prefix| == n - 1 && InBase(prefix, 2048)
    ensures |LastWords(sha, prefix, n)| == Pow2(11 - n / 3)
  {
    hide Valid, ExpectedFor, Checks, LastEntropies, Horner;
    Scales(n);
    var v, p, q, r, len := Horner(prefix, 2048), Checks(n), LastEntropies(n), Dropped(n), EntropyBits(n) / 8;
    var g: nat -> nat := e => ExpectedFor(sha, v, e, q, r, len);
    forall e: nat ensures g(e) < p {
      ExpectedBound(sha, v, e, q, r, len, p);
    }
    PassingSize(p, g, q);
    forall w: nat ensures w in LastWords(sha, prefix, n) <==> w in Passing(p, g, q) {
      PassingIff(p, g, q, w);
      if w < 2048 {
        PassesIff(sha, prefix, n, w);
        QuotientBound(w, q, p);
      } else {
        DivModSum(w, p);
        QuotientAtLeast(w, q, p);
      }
    }
    assert LastWords(sha, prefix, n) == Passing(p, g, q);
  }

  lemma QuotientAtLeast(v: nat, a: nat, p: nat)
    requires p >= 2 && v >= a * p
    ensures v / p >= a
  {
    DivModSum(v, p);
    TimesMono(a, v / p + 1, p);
    assert (v / p + 1) * p == v / p * p + p;
  }

  // ---------------------------------------------------------------- the encoder

  /**
   BIP-39: the word indices, read in base 2048, are the entropy followed by the first n / 3 bits
   of its hash.
   */
  ghost predicate Encodes(sha: Hash, e: seq<bv8>, idx: seq<nat>, n: nat)
    requires GoodLength(n)
  {
    && |e| == 4 * (n / 3) && |idx| == n
    && Horner(idx, 2048) == Horner(Ints(e), 256) * Pow2(n / 3) + IntOfByte(sha(e)) / Pow2(8 - n / 3)
  }

  lemma {:induction false} ToBytesBack(v: nat, len: nat)
    requires v < Pow2(8 * len)
    ensures Horner(Ints(ToBytes(v, len)), 256) == v
    decreases len
  {
    if len > 0 {
      hide ByteOfInt, IntOfByte;
      EightMore(len - 1);
      QuotientBound(v, Pow2(8 * (len - 1)), 256);
      ToBytesBack(v / 256, len - 1);
      IntOfByteOfInt(v % 256);
      assert Ints(ToBytes(v, len))[..len - 1] == Ints(ToBytes(v / 256, len - 1));
      DivModSum(v, 256);
    } else {
      assert Pow2(0) == 1;
    }
  }

  lemma EightMore(len: nat)
    ensures Pow2(8 * (len + 1)) == Pow2(8 * len) * 256
  {
    Pow2Add(8 * len, 8);
    assert Pow2(8) == 256;
    assert 8 * (len + 1) == 8 * len + 8;
  }

  /** A number with one more byte behind it. */
  function Append(h: nat, d: nat): nat {
    h * 256 + d
  }

  lemma HornerBytes(init: seq<bv8>, last: bv8)
    ensures Horner(Ints(init + [last]), 256) == Append(Horner(Ints(init), 256), IntOfByte(last))
  {
    hide IntOfByte;
    assert Ints(init + [last])[..|init|] == Ints(init);
  }

  lemma NoBytes()
    ensures ToBytes(Horner(Ints([]), 256), 0) == []
  {
  }

  lemma {:induction false} BytesFromNumber(e: seq<bv8>)
    ensures ToBytes(Horner(Ints(e), 256), |e|) == e
  {
    hide Horner, Ints, ToBytes, ByteOfInt, IntOfByte, Append;
    if e == [] {
      NoBytes();
    } else {
      var init, last := e[..|e| - 1], e[|e| - 1];
      assert e == init + [last];
      BytesFromNumber(init);
      HornerBytes(init, last);
      ToBytesNext(Horner(Ints(init), 256), IntOfByte(last), |init|);
      ByteOfIntOfByte(last);
    }
  }

  lemma ToBytesNext(h: nat, d: nat, len: nat)
    requires d < 256
    ensures ToBytes(Append(h, d), len + 1) == ToBytes(h, len) + [ByteOfInt(d)]
  {
    hide ByteOfInt;
    DivMod(h, d, 256);
  }

  lemma BytesBelow(e: seq<bv8>)
    ensures Horner(Ints(e), 256) < Pow2(8 * |e|)
  {
    hide Horner, Ints, Pow2, BytesBits, Value;
    ValueBytes(e);
    BitsOfValue(BytesBits(e));
  }

  lemma Lengths(n: nat)
    requires GoodLength(n)
    ensures ChecksumBits(n) == n / 3 && EntropyBits(n) / 8 == 4 * (n / 3) && EntropyBits(n) == 8 * (4 * (n / 3))
    ensures 4 <= n / 3 <= 8
  {
  }

  /** Quotient and remainder of the number are the entropy's number and the checksum. */
  lemma EncodesParts(sha: Hash, e: seq<bv8>, idx: seq<nat>, n: nat)
    requires GoodLength(n) && |e| == 4 * (n / 3) && |idx| == n
    ensures Encodes(sha, e, idx, n) <==>
      && Horner(idx, 2048) / Pow2(n / 3) == Horner(Ints(e), 256)
      && Horner(idx, 2048) % Pow2(n / 3) == IntOfByte(sha(e)) / Pow2(8 - n / 3)
  {
    hide Horner, Pow2, Ints, IntOfByte;
    var p, r, v := Pow2(n / 3), Pow2(8 - n / 3), Horner(idx, 2048);
    Lengths(n);
    PowersSplit(n / 3);
    QuotientBound(IntOfByte(sha(e)), p, r);
    DivMod(Horner(Ints(e), 256), IntOfByte(sha(e)) / r, p);
    DivModSum(v, p);
  }

  /** A phrase has a valid checksum if and only if it encodes some entropy. */
  lemma ValidIffEncoded(sha: Hash, idx: seq<nat>, n: nat)
    requires GoodLength(n) && WordIndices(idx, n)
    ensures Valid(sha, idx, n) <==> exists e: seq<bv8> :: Encodes(sha, e, idx, n)
  {
    hide Horner, Pow2, Ints, IntOfByte, ToBytes, Encodes;
    Lengths(n);
    EntropyFits(idx, n);
    var v := Horner(idx, 2048);
    var e := ToBytes(v / Pow2(n / 3), 4 * (n / 3));
    ToBytesBack(v / Pow2(n / 3), 4 * (n / 3));
    EncodesParts(sha, e, idx, n);
    if e': seq<bv8> :| Encodes(sha, e', idx, n) {
      EncodesLength(sha, e', idx, n);
      EncodesParts(sha, e', idx, n);
      BytesFromNumber(e');
    }
  }

  lemma EncodesLength(sha: Hash, e: seq<bv8>, idx: seq<nat>, n: nat)
    requires GoodLength(n) && Encodes(sha, e, idx, n)
    ensures |e| == 4 * (n / 3) && |idx| == n
  {
  }

  /** The base-2048 digits of a number, a fixed count of them. */
  function IndicesOf(v: nat, n: nat): (idx: seq<nat>)
    ensures |idx| == n && InBase(idx, 2048)
    decreases n
  {
    if n == 0 then [] else IndicesOf(v / 2048, n - 1) + [v % 2048]
  }

  lemma {:induction false} IndicesBack(v: nat, n: nat)
    requires v < Pow2(11 * n)
    ensures Horner(IndicesOf(v, n), 2048) == v
    decreases n
  {
    if n > 0 {
      ElevenMore(n - 1);
      QuotientBound(v, Pow2(11 * (n - 1)), 2048);
      IndicesBack(v / 2048, n - 1);
      assert IndicesOf(v, n)[..n - 1] == IndicesOf(v / 2048, n - 1);
      DivModSum(v, 2048);
    } else {
      assert Pow2(0) == 1;
    }
  }

  lemma ElevenMore(n: nat)
    ensures Pow2(11 * (n + 1)) == Pow2(11 * n) * 2048
  {
    Pow2Add(11 * n, 11);
    assert Pow2(11) == 2048;
    assert 11 * (n + 1) == 11 * n + 11;
  }

  lemma {:induction false} IndicesDetermined(a: seq<nat>, b: seq<nat>)
    requires |a| == |b| && InBase(a, 2048) && InBase(b, 2048) && Horner(a, 2048) == Horner(b, 2048)
    ensures a == b
  {
    if a != [] {
      var i, j := a[..|a| - 1], b[..|b| - 1];
      DivMod(Horner(i, 2048), a[|a| - 1], 2048);
      DivMod(Horner(j, 2048), b[|b| - 1], 2048);
      IndicesDetermined(i, j);
      assert a == i + [a[|a| - 1]] && b == j + [b[|b| - 1]];
    }
  }

  lemma BelowPower(h: nat, c: nat, a: nat, b: nat)
    requires h < Pow2(a) && c < Pow2(b)
    ensures h * Pow2(b) + c < Pow2(a + b)
  {
    hide Pow2;
    Pow2Add(a, b);
    TimesMono(Pow2(a), h + 1, Pow2(b));
    assert (h + 1) * Pow2(b) == h * Pow2(b) + Pow2(b);
  }

  /** The number that the phrase for an entropy stands for. */
  function EncodedNumber(sha: Hash, e: seq<bv8>, n: nat): nat
    requires GoodLength(n)
  {
    hide Horner, Ints, Pow2, IntOfByte;
    Times(Horner(Ints(e), 256), Pow2(n / 3)) + Over(IntOfByte(sha(e)), Pow2(8 - n / 3))
  }

  /** Division, named so that quotients stay symbolic. */
  function Over(v: nat, p: nat): nat
    requires p >= 1
  {
    v / p
  }

  lemma EncodedBelow(sha: Hash, e: seq<bv8>, n: nat)
    requires GoodLength(n) && |e| == 4 * (n / 3)
    ensures EncodedNumber(sha, e, n) < Pow2(11 * n)
  {
    hide Horner, Pow2, Ints, IntOfByte;
    Lengths(n);
    PowersSplit(n / 3);
    QuotientBound(IntOfByte(sha(e)), Pow2(n / 3), Pow2(8 - n / 3));
    BytesBelow(e);
    BelowPower(Horner(Ints(e), 256), Over(IntOfByte(sha(e)), Pow2(8 - n / 3)), 8 * |e|, n / 3);
    assert 8 * |e| + n / 3 == 11 * n;
  }

  lemma EncodesNumber(sha: Hash, e: seq<bv8>, idx: seq<nat>, n: nat)
    requires GoodLength(n) && |e| == 4 * (n / 3) && |idx| == n
    ensures Encodes(sha, e, idx, n) <==> Horner(idx, 2048) == EncodedNumber(sha, e, n)
  {
    hide Horner, Ints, Pow2;
  }

  /** Every entropy of the right size is encoded by exactly one phrase, and that phrase is valid. */
  lemma EntropyEncoded(sha: Hash, e: seq<bv8>, n: nat) returns (idx: seq<nat>)
    requires GoodLength(n) && |e| == 4 * (n / 3)
    ensures WordIndices(idx, n) && Encodes(sha, e, idx, n) && Valid(sha, idx, n)
    ensures forall other :: WordIndices(other, n) && Encodes(sha, e, other, n) ==> other == idx
  {
    hide Horner, EncodedNumber, Pow2, Valid, Encodes, IndicesOf;
    var v := EncodedNumber(sha, e, n);
    EncodedBelow(sha, e, n);
    idx := IndicesOf(v, n);
    IndicesBack(v, n);
    EncodesNumber(sha, e, idx, n);
    ValidIffEncoded(sha, idx, n);
    forall other | WordIndices(other, n) && Encodes(sha, e, other, n) ensures other == idx {
      EncodesNumber(sha, e, other, n);
      IndicesDetermined(other, idx);
    }
  }
}
