/**
 Packing 24 aezeed words into the 33-byte cipher seed, and what its version byte and CRC32C
 guarantee about mistyped words.
 */
module AezeedMnemonic {
  import opened Bits
  import opened Digits
  import Crc = Crc32c

  /** Both errors are the code's InvalidMnemonicError, with different messages. */
  datatype Result<+T> = Ok(value: T) | WrongCount | UnknownWord(word: string)

  const WORDS := 24
  const BYTES := 33
  const PAYLOAD := 29

  /** A word list numbers its words below 2048. */
  ghost predicate Wordlist(index: map<string, nat>) {
    forall w :: w in index ==> index[w] < 2048
  }

  predicate Known(words: seq<string>, index: map<string, nat>) {
    |words| == WORDS && forall i :: 0 <= i < |words| ==> words[i] in index
  }

  function Indices(words: seq<string>, index: map<string, nat>): (r: seq<nat>)
    requires Known(words, index)
    ensures |r| == |words|
  {
    seq(|words|, i requires 0 <= i < |words| => index[words[i]])
  }

  ghost predicate InRange(idx: seq<nat>) {
    |idx| == WORDS && forall i :: 0 <= i < |idx| ==> idx[i] < 2048
  }

  // ---------------------------------------------------------------- packing

  /** The cipher seed: the 264 bits of the word indices, cut into bytes. */
  function CipherBytes(idx: seq<nat>): (c: seq<bv8>)
    requires |idx| == WORDS
    ensures |c| == BYTES
  {
    seq(BYTES, k requires 0 <= k < BYTES => OfBools(Flat(idx, 11)[8 * k..8 * k + 8]))
  }

  /** Byte k of c holds the eight bits of b from 8 * k on. */
  ghost predicate HoldsBits(c: seq<bv8>, b: seq<bool>) {
    |b| == 8 * |c| && forall k :: 0 <= k < |c| ==> Bools(c[k]) == b[8 * k..8 * k + 8]
  }

  lemma HoldsInit(c: seq<bv8>, b: seq<bool>)
    requires HoldsBits(c, b) && c != []
    ensures var n := |c| - 1;
      HoldsBits(c[..n], b[..8 * n]) && Bools(c[n]) == b[8 * n..] && b == b[..8 * n] + b[8 * n..]
  {
    hide Bools;
    var n := |c| - 1;
    var init := b[..8 * n];
    forall k | 0 <= k < n ensures Bools(c[..n][k]) == init[8 * k..8 * k + 8] {
      assert init[8 * k..8 * k + 8] == b[8 * k..8 * k + 8];
    }
    assert b[8 * n..8 * n + 8] == b[8 * n..];
  }

  lemma {:induction false} BytesOfBits(c: seq<bv8>, b: seq<bool>)
    requires HoldsBits(c, b)
    ensures BytesBits(c) == b
  {
    if c != [] {
      HoldsInit(c, b);
      hide Bools, HoldsBits;
      BytesOfBits(c[..|c| - 1], b[..8 * (|c| - 1)]);
    }
  }

  lemma CipherBits(idx: seq<nat>)
    requires |idx| == WORDS
    ensures BytesBits(CipherBytes(idx)) == Flat(idx, 11)
  {
    hide OfBools, Bools, Flat;
    forall k | 0 <= k < BYTES ensures Bools(CipherBytes(idx)[k]) == Flat(idx, 11)[8 * k..8 * k + 8] {
      BoolsOfBools(Flat(idx, 11)[8 * k..8 * k + 8]);
    }
    BytesOfBits(CipherBytes(idx), Flat(idx, 11));
  }

  lemma CipherUnique(idx: seq<nat>, c: seq<bv8>)
    requires |idx| == WORDS && |c| == BYTES && BytesBits(c) == Flat(idx, 11)
    ensures c == CipherBytes(idx)
  {
    hide OfBools, Bools, Flat;
    forall k | 0 <= k < BYTES ensures c[k] == CipherBytes(idx)[k] {
      BytesBitsAt(c, k);
      BoolsOfBools(Flat(idx, 11)[8 * k..8 * k + 8]);
      BoolsInjective(c[k], CipherBytes(idx)[k]);
    }
  }

  /** Read as big-endian numbers, the bytes in base 256 and the word indices in base 2048 agree. */
  lemma CipherNumber(idx: seq<nat>)
    requires InRange(idx)
    ensures Horner(Ints(CipherBytes(idx)), 256) == Horner(idx, 2048)
  {
    CipherBits(idx);
    ValueBytes(CipherBytes(idx));
    assert Pow2(11) == 2048;
    assert forall x :: x in idx ==> x < Pow2(11);
    ValueFlat(idx, 11);
  }

  lemma CipherInjective(a: seq<nat>, b: seq<nat>)
    requires InRange(a) && InRange(b) && CipherBytes(a) == CipherBytes(b)
    ensures a == b
  {
    CipherBits(a);
    CipherBits(b);
    assert Pow2(11) == 2048;
    forall i | 0 <= i < WORDS ensures a[i] == b[i] {
      FlatAt(a, 11, i);
      FlatAt(b, 11, i);
      BitsOfInjective(a[i], b[i], 11);
    }
  }

  lemma EightBits()
    ensures Pow2(8) == 256
  {
  }

  /** Removing the top byte of the pending bits. */
  lemma TakeByte(bits: nat, len: nat)
    requires bits < Pow2(len + 8)
    ensures bits / Pow2(len) % 256 == bits / Pow2(len) && bits % Pow2(len) < Pow2(len)
    ensures BitsOf(bits, len + 8) == BitsOf(bits / Pow2(len), 8) + BitsOf(bits % Pow2(len), len)
  {
    hide BitsOf, Pow2;
    var p, v := Pow2(len), bits / Pow2(len);
    Pow2Add(len, 8);
    EightBits();
    DivModSum(bits, p);
    QuotientBound(bits, 256, p);
    BitsOfJoined(v, bits % p, 8, len);
  }

  predicate FirstUnknown(words: seq<string>, index: map<string, nat>, i: nat)
    requires i < |words|
  {
    words[i] !in index && forall k :: 0 <= k < i ==> words[k] in index
  }

  /** mnemonic_to_bytes: fewer than eight bits are pending between words. */
  method MnemonicToBytes(words: seq<string>, index: map<string, nat>) returns (r: Result<seq<bv8>>)
    requires Wordlist(index)
    ensures r.Ok? <==> Known(words, index)
    ensures r.Ok? ==> r.value == CipherBytes(Indices(words, index))
    ensures r.WrongCount? <==> |words| != WORDS
    ensures r.UnknownWord? ==> exists i :: 0 <= i < |words| && FirstUnknown(words, index, i) && r.word == words[i]
  {
    hide OfBools, Bools, BitsOf, CipherBytes, Pow2, Flat, BytesBits;
    if |words| != WORDS {
      return WrongCount;
    }
    NothingPending();
    var bits: nat, bitLen: nat, pos: nat := 0, 0, 0;
    var out := new bv8[BYTES](_ => 0);
    assert out[..0] == [];
    ghost var idx: seq<nat> := [];
    for i := 0 to |words|
      invariant |idx| == i && forall k :: 0 <= k < i ==> words[k] in index && idx[k] == index[words[k]]
      invariant bitLen < 8 && bits < Pow2(bitLen) && 8 * pos + bitLen == 11 * i
      invariant BytesBits(out[..pos]) + BitsOf(bits, bitLen) == Flat(idx, 11)
    {
      if words[i] !in index {
        assert FirstUnknown(words, index, i);
        return UnknownWord(words[i]);
      }
      bits, bitLen, pos := AddWord(index[words[i]], bits, bitLen, out, pos);
      FlatSnoc(idx, index[words[i]]);
      idx := idx + [index[words[i]]];
    }
    assert idx == Indices(words, index);
    assert pos == BYTES && bitLen == 0 && |BitsOf(bits, bitLen)| == 0;
    assert out[..] == out[..pos];
    assert BytesBits(out[..]) + BitsOf(bits, bitLen) == BytesBits(out[..]);
    CipherUnique(idx, out[..]);
    return Ok(out[..]);
  }

  /** One pass of the word loop: append the word, then write out whole bytes. */
  method AddWord(word: nat, bits: nat, bitLen: nat, out: array<bv8>, pos: nat)
      returns (bits': nat, bitLen': nat, pos': nat)
    requires word < 2048 && bitLen < 8 && bits < Pow2(bitLen) && 8 * pos + bitLen + 11 <= 8 * out.Length
    modifies out
    ensures bitLen' < 8 && bits' < Pow2(bitLen') && 8 * pos' + bitLen' == 8 * pos + bitLen + 11
    ensures BytesBits(out[..pos']) + BitsOf(bits', bitLen')
         == old(BytesBits(out[..pos])) + BitsOf(bits, bitLen) + BitsOf(word, 11)
  {
    hide OfBools, Bools, BitsOf, Pow2, BytesBits;
    bits', bitLen' := PushWord(bits, bitLen, word);
    pos' := pos;
    assert BytesBits(out[..pos]) + (BitsOf(bits, bitLen) + BitsOf(word, 11))
        == BytesBits(out[..pos]) + BitsOf(bits, bitLen) + BitsOf(word, 11);
    while bitLen' >= 8
      invariant bits' < Pow2(bitLen') && 8 * pos' + bitLen' == 8 * pos + bitLen + 11
      invariant BytesBits(out[..pos']) + BitsOf(bits', bitLen')
             == old(BytesBits(out[..pos])) + BitsOf(bits, bitLen) + BitsOf(word, 11)
    {
      bits', bitLen' := PopByte(bits', bitLen', out, pos');
      pos' := pos' + 1;
    }
  }

  /** Moves the top eight pending bits to out[pos]. */
  method PopByte(bits: nat, bitLen: nat, out: array<bv8>, pos: nat) returns (bits': nat, bitLen': nat)
    requires 8 <= bitLen && bits < Pow2(bitLen) && pos < out.Length
    modifies out
    ensures bitLen' == bitLen - 8 && bits' < Pow2(bitLen')
    ensures out[..pos] == old(out[..pos])
    ensures BytesBits(out[..pos + 1]) + BitsOf(bits', bitLen') == BytesBits(old(out[..pos])) + BitsOf(bits, bitLen)
  {
    hide BitsOf, OfBools, Bools, Pow2;
    bitLen' := bitLen - 8;
    TakeByte(bits, bitLen');
    ModOne(bits, bitLen');
    bits' := if bitLen' != 0 then bits % Pow2(bitLen') else 0;
    var v := (bits / Pow2(bitLen')) % 256;
    BoolsOfBools(BitsOf(v, 8));
    ghost var before := out[..pos];
    out[pos] := ByteOfInt(v);
    assert out[..pos + 1] == before + [ByteOfInt(v)];
    AppendByte(before, ByteOfInt(v));
    assert BytesBits(before) + (BitsOf(v, 8) + BitsOf(bits', bitLen'))
        == (BytesBits(before) + BitsOf(v, 8)) + BitsOf(bits', bitLen');
  }

  lemma AppendByte(b: seq<bv8>, x: bv8)
    ensures BytesBits(b + [x]) == BytesBits(b) + Bools(x)
  {
    assert (b + [x])[..|b|] == b;
  }

  lemma FlatSnoc(xs: seq<nat>, x: nat)
    ensures Flat(xs + [x], 11) == Flat(xs, 11) + BitsOf(x, 11)
  {
    hide BitsOf;
    assert (xs + [x])[..|xs|] == xs;
  }

  lemma NothingPending()
    ensures Pow2(0) == 1 && BitsOf(0, 0) == [] && BytesBits([]) == [] && Flat([], 11) == []
  {
  }

  lemma ModOne(bits: nat, len: nat)
    ensures len == 0 ==> bits % Pow2(len) == 0
  {
  }

  /** Appends the eleven bits of a word to the pending ones. */
  method PushWord(bits: nat, bitLen: nat, word: nat) returns (bits': nat, bitLen': nat)
    requires bits < Pow2(bitLen) && word < 2048
    ensures bitLen' == bitLen + 11 && bits' < Pow2(bitLen')
    ensures BitsOf(bits', bitLen') == BitsOf(bits, bitLen) + BitsOf(word, 11)
  {
    assert Pow2(11) == 2048;
    Pow2Add(bitLen, 11);
    BitsOfJoined(bits, word, bitLen, 11);
    bits', bitLen' := bits * 2048 + word, bitLen + 11;
  }

  // ---------------------------------------------------------------- validation

  /** Four bytes as a big-endian 32-bit number. */
  function Be32(b: seq<bv8>): bv32
    requires |b| == 4
  {
    ((b[0] as bv32) << 24) | ((b[1] as bv32) << 16) | ((b[2] as bv32) << 8) | (b[3] as bv32)
  }

  predicate Accepted(idx: seq<nat>)
    requires |idx| == WORDS
  {
    var c := CipherBytes(idx);
    c[0] == 0 && Be32(c[PAYLOAD..]) == Crc.Crc(c[..PAYLOAD])
  }

  method ValidateMnemonic(words: seq<string>, index: map<string, nat>) returns (valid: bool)
    requires Wordlist(index)
    ensures valid <==> Known(words, index) && Accepted(Indices(words, index))
  {
    var r := MnemonicToBytes(words, index);
    if !r.Ok? {
      return false;
    }
    var bytes := r.value;
    if bytes[0] != 0 {
      return false;
    }
    var computed := Crc.Compute(bytes[..PAYLOAD]);
    return Be32(bytes[PAYLOAD..]) == computed;
  }

  // ---------------------------------------------------------------- what validation accepts

  lemma Be32Little(b: seq<bv8>, w: bv32)
    requires |b| == 4
    ensures Be32(b) == w <==> [b[3], b[2], b[1], b[0]] == Crc.LittleBytes(w)
  {
    hide Be32, Crc.LittleBytes;
    var l, r := Crc.LittleBytes(w), [b[3], b[2], b[1], b[0]];
    LittleBack(w);
    LittleOfBe(b[0], b[1], b[2], b[3]);
    assert b == [b[0], b[1], b[2], b[3]];
    if r == l {
      assert r[0] == l[0] && r[1] == l[1] && r[2] == l[2] && r[3] == l[3];
      assert b == [l[3], l[2], l[1], l[0]];
    }
  }

  lemma LittleBack(w: bv32)
    ensures var l := Crc.LittleBytes(w); Be32([l[3], l[2], l[1], l[0]]) == w
  {
  }

  lemma LittleOfBe(a: bv8, b: bv8, c: bv8, d: bv8)
    ensures Crc.LittleBytes(Be32([a, b, c, d])) == [d, c, b, a]
  {
  }

  /**
   A mnemonic is accepted if and only if its bytes begin with a zero and the first 29, fed to the
   register followed by the last four in reverse order, leave the residue of CRC32C.
   */
  lemma AcceptedIff(idx: seq<nat>)
    requires |idx| == 24
    ensures var c := CipherBytes(idx);
      && |c| == 33
      && (Accepted(idx) <==>
            c[0] == 0 && Crc.Feed(0xFFFF_FFFF, c[..29] + [c[32], c[31], c[30], c[29]]) == 0xB798_B438)
  {
    hide CipherBytes, Be32, Crc.Crc, Crc.Feed, Crc.LittleBytes;
    var c := CipherBytes(idx);
    Be32Little(c[29..], Crc.Crc(c[..29]));
    Crc.ResidueIff(c[..29], [c[32], c[31], c[30], c[29]]);
  }

  /** The word numbers whose eleven-bit groups are the bits of c. */
  function Words(c: seq<bv8>): (idx: seq<nat>)
    requires |c| == BYTES
    ensures |idx| == WORDS
  {
    seq(WORDS, k requires 0 <= k < WORDS => Value(BytesBits(c)[11 * k..11 * k + 11]))
  }

  lemma WordBits(c: seq<bv8>, k: nat)
    requires |c| == BYTES && k < WORDS
    ensures Words(c)[k] < 2048 && BitsOf(Words(c)[k], 11) == BytesBits(c)[11 * k..11 * k + 11]
  {
    hide BytesBits, Value, BitsOf, Pow2;
    BitsOfValue(BytesBits(c)[11 * k..11 * k + 11]);
    assert Pow2(11) == 2048 by { TwoToEleven(); }
  }

  lemma TwoToEleven()
    ensures Pow2(11) == 2048
  {
  }

  lemma {:induction false} FlatWords(c: seq<bv8>, n: nat)
    requires |c| == BYTES && n <= WORDS
    ensures Flat(Words(c)[..n], 11) == BytesBits(c)[..11 * n]
  {
    hide BytesBits, BitsOf, Words;
    if n > 0 {
      FlatWords(c, n - 1);
      WordBits(c, n - 1);
      FlatSnoc(Words(c)[..n - 1], Words(c)[n - 1]);
      assert Words(c)[..n] == Words(c)[..n - 1] + [Words(c)[n - 1]];
      var b := BytesBits(c);
      assert b[..11 * n] == b[..11 * (n - 1)] + b[11 * (n - 1)..11 * (n - 1) + 11];
    }
  }

  /** Every 33 bytes are the packing of 24 word numbers. */
  lemma CipherSurjective(c: seq<bv8>)
    requires |c| == BYTES
    ensures InRange(Words(c)) && CipherBytes(Words(c)) == c
  {
    hide BytesBits, Words, CipherBytes, BitsOf, Flat;
    forall k | 0 <= k < WORDS ensures Words(c)[k] < 2048 {
      WordBits(c, k);
    }
    FlatWords(c, WORDS);
    assert Words(c)[..WORDS] == Words(c) && BytesBits(c)[..11 * WORDS] == BytesBits(c);
    CipherUnique(Words(c), c);
  }

  /** Every 28 bytes of salt and ciphertext are those of exactly one accepted mnemonic. */
  lemma EncodedAccepted(payload: seq<bv8>) returns (idx: seq<nat>)
    requires |payload| == 28
    ensures InRange(idx) && Accepted(idx) && CipherBytes(idx)[1..29] == payload
    ensures forall other :: InRange(other) && Accepted(other) && CipherBytes(other)[1..29] == payload ==> other == idx
  {
    hide CipherBytes, Be32, Crc.Crc, Words;
    var data := [0 as bv8] + payload;
    var l := Crc.LittleBytes(Crc.Crc(data));
    LittleBack(Crc.Crc(data));
    var c := data + [l[3], l[2], l[1], l[0]];
    assert c[..PAYLOAD] == data && c[PAYLOAD..] == [l[3], l[2], l[1], l[0]];
    CipherSurjective(c);
    idx := Words(c);
    forall other | InRange(other) && Accepted(other) && CipherBytes(other)[1..29] == payload ensures other == idx {
      assert CipherBytes(other)[..PAYLOAD] == [0] + payload;
      SamePayload(other, idx);
    }
  }

  // ---------------------------------------------------------------- what validation rules out

  /** The two lists differ at most at positions p, ..., q - 1. */
  ghost predicate AgreeOutside(a: seq<nat>, b: seq<nat>, p: nat, q: nat) {
    InRange(a) && InRange(b) && p <= q <= WORDS && forall i :: 0 <= i < WORDS && !(p <= i < q) ==> a[i] == b[i]
  }

  lemma FlatBit(xs: seq<nat>, i: nat)
    requires i < 11 * |xs|
    ensures Flat(xs, 11)[i] == BitsOf(xs[i / 11], 11)[i % 11]
  {
    hide BitsOf, Flat;
    FlatAt(xs, 11, i / 11);
    assert Flat(xs, 11)[11 * (i / 11)..11 * (i / 11) + 11][i % 11] == Flat(xs, 11)[i];
  }

  /** Bytes wholly before or after the changed words are the same. */
  lemma SameByte(a: seq<nat>, b: seq<nat>, p: nat, q: nat, k: nat)
    requires AgreeOutside(a, b, p, q) && k < BYTES && (8 * k + 8 <= 11 * p || 11 * q <= 8 * k)
    ensures CipherBytes(a)[k] == CipherBytes(b)[k]
  {
    hide OfBools, BitsOf;
    forall i | 8 * k <= i < 8 * k + 8 ensures Flat(a, 11)[i] == Flat(b, 11)[i] {
      FlatBit(a, i);
      FlatBit(b, i);
      assert i / 11 < p || i / 11 >= q;
    }
    assert Flat(a, 11)[8 * k..8 * k + 8] == Flat(b, 11)[8 * k..8 * k + 8];
  }

  lemma SamePayload(a: seq<nat>, b: seq<nat>)
    requires InRange(a) && InRange(b) && Accepted(a) && Accepted(b)
    requires CipherBytes(a)[..PAYLOAD] == CipherBytes(b)[..PAYLOAD]
    ensures a == b
  {
    hide Crc.Crc;
    var c, d := CipherBytes(a), CipherBytes(b);
    Be32Injective(c[PAYLOAD..], d[PAYLOAD..]);
    assert c == c[..PAYLOAD] + c[PAYLOAD..] && d == d[..PAYLOAD] + d[PAYLOAD..];
    CipherInjective(a, b);
  }

  lemma Be32Injective(b: seq<bv8>, c: seq<bv8>)
    requires |b| == |c| == 4 && Be32(b) == Be32(c)
    ensures b == c
  {
    assert b[0] == c[0] && b[1] == c[1] && b[2] == c[2] && b[3] == c[3];
  }

  /** Two accepted mnemonics cannot differ only within two adjacent words of the first 21. */
  lemma AdjacentDetected(a: seq<nat>, b: seq<nat>, p: nat)
    requires AgreeOutside(a, b, p, p + 2) && p + 2 <= 21 && Accepted(a) && Accepted(b)
    ensures a == b
  {
    hide CipherBytes, Crc.Crc, Be32, Flat;
    var c, d := CipherBytes(a), CipherBytes(b);
    var i := if 11 * p / 8 < PAYLOAD - 4 then 11 * p / 8 else PAYLOAD - 4;
    forall k | 0 <= k < BYTES && !(i <= k < i + 4) ensures c[k] == d[k] {
      SameByte(a, b, p, p + 2, k);
    }
    var u, v := c[..PAYLOAD], d[..PAYLOAD];
    assert c[PAYLOAD..] == d[PAYLOAD..];
    assert u[..i] == v[..i] && u[i + 4..] == v[i + 4..];
    Crc.BurstDetected(u, v, i);
    SamePayload(a, b);
  }

  /** The straddling word 21 has one payload bit, the lowest of byte 28. */
  lemma StraddlingBit(a: seq<nat>, b: seq<nat>)
    requires AgreeOutside(a, b, 21, 22)
    ensures var x, y := CipherBytes(a)[28], CipherBytes(b)[28]; x == y || y == x ^ 1
  {
    hide CipherBytes, Bools, BytesBits, Flat, BitsOf;
    var x, y := CipherBytes(a)[28], CipherBytes(b)[28];
    CipherBits(a);
    CipherBits(b);
    BytesBitsAt(CipherBytes(a), 28);
    BytesBitsAt(CipherBytes(b), 28);
    forall i | 224 <= i < 231 ensures Flat(a, 11)[i] == Flat(b, 11)[i] {
      FlatBit(a, i);
      FlatBit(b, i);
    }
    forall i | 0 <= i < 7 ensures Bools(x)[i] == Bools(y)[i] {
      assert Flat(a, 11)[224..232][i] == Flat(a, 11)[224 + i];
      assert Flat(b, 11)[224..232][i] == Flat(b, 11)[224 + i];
    }
    HighBits(x, y);
  }

  lemma HighBits(x: bv8, y: bv8)
    requires Bools(x)[..7] == Bools(y)[..7]
    ensures x == y || y == x ^ 1
  {
    assert forall i :: 0 <= i < 7 ==> Bools(x)[i] == Bools(x)[..7][i] == Bools(y)[..7][i] == Bools(y)[i];
    assert Bools(x)[0] == Bools(y)[0] && Bools(x)[1] == Bools(y)[1] && Bools(x)[2] == Bools(y)[2];
    assert Bools(x)[3] == Bools(y)[3] && Bools(x)[4] == Bools(y)[4] && Bools(x)[5] == Bools(y)[5];
    assert Bools(x)[6] == Bools(y)[6];
  }

  /** The table entry of 1 has ones in its two low bytes, which word 21 cannot reach. */
  lemma LowBytesDiffer(b: seq<bv8>, c: seq<bv8>)
    requires |b| == |c| == 4 && b[2..] == c[2..]
    ensures Crc.Xor(Be32(b), Be32(c)) != 0xF26B_8303
  {
    assert b[2..][0] == c[2..][0] && b[2..][1] == c[2..][1];
    assert Crc.Xor(Be32(b), Be32(c)) & 0xFFFF == 0;
  }

  lemma StraddlingDetected(a: seq<nat>, b: seq<nat>)
    requires AgreeOutside(a, b, 21, 22) && Accepted(a) && Accepted(b)
    ensures a == b
  {
    hide Crc.Crc, Crc.Xor, Be32, CipherBytes, Flat;
    var c, d := CipherBytes(a), CipherBytes(b);
    forall k | 0 <= k < 28 || 31 <= k < 33 ensures c[k] == d[k] {
      SameByte(a, b, 21, 22, k);
    }
    StraddlingBit(a, b);
    if c[28] == d[28] {
      assert c[..PAYLOAD] == d[..PAYLOAD];
      SamePayload(a, b);
    } else {
      assert c[..PAYLOAD] == c[..28] + [c[28]] && d[..PAYLOAD] == c[..28] + [c[28] ^ 1];
      Crc.LastBitFlipped(c[..28], c[28]);
      assert c[PAYLOAD..][2..] == d[PAYLOAD..][2..];
      LowBytesDiffer(c[PAYLOAD..], d[PAYLOAD..]);
      assert false;
    }
  }

  /** Given 23 of the 24 words, at most one choice for the remaining one is accepted, wherever it stands. */
  lemma OneWordDetermined(a: seq<nat>, b: seq<nat>, p: nat)
    requires p < WORDS && AgreeOutside(a, b, p, p + 1) && Accepted(a) && Accepted(b)
    ensures a == b
  {
    if p < 20 {
      AdjacentDetected(a, b, p);
    } else if p == 20 {
      AdjacentDetected(a, b, 19);
    } else if p == 21 {
      StraddlingDetected(a, b);
    } else {
      forall k | 0 <= k < PAYLOAD ensures CipherBytes(a)[k] == CipherBytes(b)[k] {
        SameByte(a, b, p, p + 1, k);
      }
      assert CipherBytes(a)[..PAYLOAD] == CipherBytes(b)[..PAYLOAD];
      SamePayload(a, b);
    }
  }

  /** The same in words, for a word list that gives every word its own number. */
  lemma OneWordOnly(words: seq<string>, p: nat, w: string, w': string, index: map<string, nat>)
    requires |words| == WORDS && p < WORDS && Wordlist(index)
    requires forall x, y :: x in index && y in index && index[x] == index[y] ==> x == y
    requires Known(words[p := w], index) && Accepted(Indices(words[p := w], index))
    requires Known(words[p := w'], index) && Accepted(Indices(words[p := w'], index))
    ensures w == w'
  {
    var a, b := Indices(words[p := w], index), Indices(words[p := w'], index);
    assert words[p := w][p] == w && words[p := w'][p] == w';
    OneWordDetermined(a, b, p);
    assert a[p] == b[p];
  }
}
