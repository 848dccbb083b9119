/** encode_base58 and decode_base58 of hash_utils.py. */
module Base58 {
  import opened Bits
  import opened Bytes
  import opened Digits
  import opened Text

  datatype Result = Ok(bytes: seq<bv8>) | InvalidCharacter(c: char)

  /** Digits and letters without 0, I, O and l, in six runs of consecutive characters. */
  const ALPHABET := "123456789" + "ABCDEFGH" + "JKLMN" + "PQRSTUVWXYZ" + "abcdefghijk" + "mnopqrstuvwxyz"

  // ---------------------------------------------------------------- characters and bytes as digits

  lemma AlphabetStep(i: nat)
    requires i < 57
    ensures |ALPHABET| == 58 && ALPHABET[i] < ALPHABET[i + 1]
  {
  }

  /** The alphabet ascends, so no character stands in it twice. */
  lemma {:induction false} AlphabetAscends(i: nat, j: nat)
    requires i < j < 58
    ensures ALPHABET[i] < ALPHABET[j]
  {
    AlphabetStep(j - 1);
    if i < j - 1 {
      AlphabetAscends(i, j - 1);
    }
  }

  /** The place of a character: what str.find returns when it finds it. */
  function Place(c: char, from: nat): (i: nat)
    requires from <= 58 && c in ALPHABET[from..]
    ensures from <= i < 58 && ALPHABET[i] == c
    decreases 58 - from
  {
    assert ALPHABET[from..] == [ALPHABET[from]] + ALPHABET[from + 1..];
    if ALPHABET[from] == c then from else Place(c, from + 1)
  }

  predicate InAlphabet(c: char) {
    c in ALPHABET[0..]
  }

  /** str.find in the alphabet, for a character it finds. */
  function Find(c: char): (i: nat)
    requires InAlphabet(c)
    ensures i < 58 && ALPHABET[i] == c
  {
    Place(c, 0)
  }

  predicate IsBase58(s: string) {
    forall i :: 0 <= i < |s| ==> InAlphabet(s[i])
  }

  function Symbol(d: nat): (c: char)
    requires d < 58
    ensures InAlphabet(c)
  {
    assert ALPHABET[0..][d] == ALPHABET[d];
    ALPHABET[d]
  }

  function CharsOf(d: seq<nat>): (s: string)
    requires InBase(d, 58)
    ensures |s| == |d| && IsBase58(s)
  {
    seq(|d|, i requires 0 <= i < |d| => Symbol(d[i]))
  }

  function DigitsOfChars(s: string): (d: seq<nat>)
    requires IsBase58(s)
    ensures |d| == |s| && InBase(d, 58)
  {
    seq(|s|, i requires 0 <= i < |s| => Find(s[i]))
  }

  function BytesOf(d: seq<nat>): (b: seq<bv8>)
    ensures |b| == |d|
  {
    seq(|d|, i requires 0 <= i < |d| => ByteOfInt(d[i]))
  }

  lemma CharsBack(s: string)
    requires IsBase58(s)
    ensures CharsOf(DigitsOfChars(s)) == s
  {
  }

  lemma DigitsBack(d: seq<nat>)
    requires InBase(d, 58)
    ensures DigitsOfChars(CharsOf(d)) == d
  {
    var s := CharsOf(d);
    forall i | 0 <= i < |d| ensures Find(s[i]) == d[i] {
      var p := Find(s[i]);
      if p < d[i] {
        AlphabetAscends(p, d[i]);
      } else if d[i] < p {
        AlphabetAscends(d[i], p);
      }
    }
  }

  lemma BytesBack(b: seq<bv8>)
    ensures BytesOf(Ints(b)) == b
  {
    forall i | 0 <= i < |b| ensures BytesOf(Ints(b))[i] == b[i] {
      ByteOfIntOfByte(b[i]);
    }
  }

  lemma IntsBack(d: seq<nat>)
    requires InBase(d, 256)
    ensures Ints(BytesOf(d)) == d
  {
    forall i | 0 <= i < |d| ensures Ints(BytesOf(d))[i] == d[i] {
      IntOfByteOfInt(d[i]);
    }
  }

  // ---------------------------------------------------------------- what the two functions compute

  /** Same leading zeros, same number, digits in base 58. */
  function Encode(b: seq<bv8>): (s: string)
    ensures IsBase58(s)
  {
    CharsOf(Compose(LeadingZeros(Ints(b)), Horner(Ints(b), 256), 58))
  }

  function Decode(s: string): seq<bv8>
    requires IsBase58(s)
  {
    BytesOf(Compose(LeadingZeros(DigitsOfChars(s)), Horner(DigitsOfChars(s), 58), 256))
  }

  lemma DecodeEncode(b: seq<bv8>)
    ensures Decode(Encode(b)) == b
  {
    var z, n := LeadingZeros(Ints(b)), Horner(Ints(b), 256);
    DigitsBack(Compose(z, n, 58));
    Decompose(z, n, 58);
    assert InBase(Ints(b), 256) by {
      assert forall i :: 0 <= i < |b| ==> Ints(b)[i] in Ints(b);
    }
    Recompose(Ints(b), 256);
    BytesBack(b);
  }

  lemma EncodeDecode(s: string)
    requires IsBase58(s)
    ensures Encode(Decode(s)) == s
  {
    var d := DigitsOfChars(s);
    var z, n := LeadingZeros(d), Horner(d, 58);
    IntsBack(Compose(z, n, 256));
    Decompose(z, n, 256);
    Recompose(d, 58);
    CharsBack(s);
  }

  // ---------------------------------------------------------------- the code

  /** The division loop: digits are put in front, least significant first. */
  method WriteDigits(number: nat) returns (result: string)
    ensures result == CharsOf(DigitsOf(number, 58))
  {
    hide DigitsOf;
    var n := number;
    result := "";
    while n > 0
      invariant CharsOf(DigitsOf(n, 58)) + result == CharsOf(DigitsOf(number, 58))
    {
      PutDigit(n, result);
      Smaller(n, 58);
      result := [Symbol(n % 58)] + result;
      n := n / 58;
    }
    NoDigits(58);
  }

  lemma PutDigit(n: nat, result: string)
    requires n > 0
    ensures CharsOf(DigitsOf(n, 58)) + result == CharsOf(DigitsOf(n / 58, 58)) + ([Symbol(n % 58)] + result)
  {
    hide DigitsOf, InAlphabet, Symbol, CharsOf;
    LastDigit(n, 58);
    CharsConcat(DigitsOf(n / 58, 58), [n % 58]);
    OneChar(n % 58);
  }

  /** The padding loop of the encoder. */
  method CountZeros(b: seq<bv8>) returns (pad: nat)
    ensures pad == LeadingZeros(Ints(b))
  {
    hide IntOfByte;
    pad := 0;
    while pad < |b| && IntOfByte(b[pad]) == 0
      invariant pad <= |b| && LeadingZeros(Ints(b)) == pad + LeadingZeros(Ints(b)[pad..])
    {
      assert Ints(b)[pad..][1..] == Ints(b)[pad + 1..];
      pad := pad + 1;
    }
  }

  method EncodeBase58(b: seq<bv8>) returns (s: string)
    ensures s == Encode(b)
  {
    hide Horner, Ints, DigitsOf, CharsOf, LeadingZeros;
    var n := Horner(Ints(b), 256);
    if n == 0 {
      ZeroNumber(b);
      return Repeat('1', |b|);
    }
    var result := WriteDigits(n);
    var pad := CountZeros(b);
    ZeroChars(pad, DigitsOf(n, 58));
    return Repeat('1', pad) + result;
  }

  lemma ZeroChars(z: nat, d: seq<nat>)
    requires InBase(d, 58)
    ensures CharsOf(Repeat<nat>(0, z) + d) == Repeat('1', z) + CharsOf(d)
  {
    hide InAlphabet, CharsOf;
    CharsConcat(Repeat<nat>(0, z), d);
    OnesFromZeros(z);
  }

  lemma OnesFromZeros(z: nat)
    ensures CharsOf(Repeat<nat>(0, z)) == Repeat('1', z)
  {
    assert Symbol(0) == '1';
    hide Symbol, InAlphabet;
  }

  lemma OneChar(x: nat)
    requires x < 58
    ensures CharsOf([x]) == [Symbol(x)]
  {
    hide Symbol, InAlphabet;
  }

  lemma CharsConcat(a: seq<nat>, b: seq<nat>)
    requires InBase(a, 58) && InBase(b, 58)
    ensures InBase(a + b, 58) && CharsOf(a + b) == CharsOf(a) + CharsOf(b)
  {
    hide Symbol, InAlphabet;
  }

  lemma LastDigit(n: nat, base: nat)
    requires n > 0 && base >= 2
    ensures DigitsOf(n, base) == DigitsOf(n / base, base) + [n % base]
  {
  }

  lemma NoDigits(base: nat)
    requires base >= 2
    ensures DigitsOf(0, base) == []
  {
  }

  lemma ZeroNumber(b: seq<bv8>)
    requires Horner(Ints(b), 256) == 0
    ensures Encode(b) == Repeat('1', |b|)
  {
    AllZeros(Ints(b), 256);
    ZerosLead(|b|, []);
    assert Repeat<nat>(0, |b|) + [] == Ints(b);
    assert Compose(|b|, 0, 58) == Repeat<nat>(0, |b|) + [];
    ZeroChars(|b|, []);
  }

  lemma BitLengthByte(n: nat)
    requires n > 0
    ensures (BitLength(n) + 7) / 8 == 1 + (BitLength(n / 256) + 7) / 8
  {
    var n2 := n / 2 / 2;
    var n4 := n2 / 2 / 2;
    var n6 := n4 / 2 / 2;
    assert n6 / 2 / 2 == n / 256;
    BitLengthQuarter(n);
    BitLengthQuarter(n2);
    BitLengthQuarter(n4);
    BitLengthQuarter(n6);
  }

  lemma BitLengthQuarter(n: nat)
    ensures n / 2 / 2 > 0 ==> BitLength(n) == 2 + BitLength(n / 2 / 2)
    ensures n / 2 / 2 == 0 ==> BitLength(n) <= 2
    ensures n > 0 ==> BitLength(n) > 0
    ensures n == 0 ==> BitLength(n) == 0
  {
    if n > 0 {
      assert BitLength(n) == 1 + BitLength(n / 2);
    }
  }

  /** The length computed from the bit length is exactly enough: no zero byte in front. */
  lemma {:induction false} ToBytesMinimal(n: nat)
    ensures ToBytes(n, (BitLength(n) + 7) / 8) == BytesOf(DigitsOf(n, 256))
    decreases n
  {
    if n > 0 {
      BitLengthByte(n);
      Smaller(n, 256);
      ToBytesMinimal(n / 256);
    }
  }

  /** The first loop: the number, or the first character outside the alphabet. */
  method ReadNumber(s: string) returns (n: nat, bad: nat)
    ensures bad <= |s| && (bad < |s| <==> !IsBase58(s))
    ensures bad < |s| ==> !InAlphabet(s[bad]) && IsBase58(s[..bad])
    ensures bad == |s| ==> n == Horner(DigitsOfChars(s), 58)
  {
    hide Horner;
    n, bad := 0, 0;
    EmptyNumber();
    assert s[..0] == [];
    while bad < |s|
      invariant bad <= |s| && IsBase58(s[..bad]) && n == Horner(DigitsOfChars(s[..bad]), 58)
    {
      if !InAlphabet(s[bad]) {
        return;
      }
      NextDigit(s, bad);
      n := n * 58 + Find(s[bad]);
      bad := bad + 1;
    }
    assert s[..bad] == s;
  }

  /** The padding loop. */
  method CountOnes(s: string) returns (pad: nat)
    requires IsBase58(s)
    ensures pad == LeadingZeros(DigitsOfChars(s))
  {
    ghost var d := DigitsOfChars(s);
    pad := 0;
    while pad < |s| && s[pad] == ALPHABET[0]
      invariant pad <= |s| && LeadingZeros(d) == pad + LeadingZeros(d[pad..])
    {
      FirstPlace(s[pad]);
      assert d[pad..][1..] == d[pad + 1..];
      pad := pad + 1;
    }
    if pad < |s| {
      FirstPlace(s[pad]);
    }
  }

  method DecodeBase58(s: string) returns (r: Result)
    ensures r.Ok? <==> IsBase58(s)
    ensures r.Ok? ==> r.bytes == Decode(s)
    ensures r.InvalidCharacter? ==>
      exists i :: 0 <= i < |s| && s[i] == r.c && !InAlphabet(r.c) && IsBase58(s[..i])
  {
    hide Horner, DigitsOf, DigitsOfChars, BytesOf, LeadingZeros;
    var n, bad := ReadNumber(s);
    if bad < |s| {
      return InvalidCharacter(s[bad]);
    }
    if n == 0 {
      ZeroString(s);
      return Ok(Repeat(0, |s|));
    }
    var b := ToBytes(n, (BitLength(n) + 7) / 8);
    ToBytesMinimal(n);
    var pad := CountOnes(s);
    ZeroBytes(pad, DigitsOf(n, 256));
    return Ok(Repeat(0, pad) + b);
  }

  lemma EmptyNumber()
    ensures Horner(DigitsOfChars([]), 58) == 0
  {
  }

  lemma NextDigit(s: string, i: nat)
    requires i < |s| && IsBase58(s[..i]) && InAlphabet(s[i])
    ensures IsBase58(s[..i + 1])
    ensures Horner(DigitsOfChars(s[..i + 1]), 58) == Horner(DigitsOfChars(s[..i]), 58) * 58 + Find(s[i])
  {
    hide Find, InAlphabet;
    assert forall k :: 0 <= k < i ==> s[..i + 1][k] == s[..i][k];
    assert DigitsOfChars(s[..i + 1])[..i] == DigitsOfChars(s[..i]);
  }

  lemma FirstPlace(c: char)
    requires InAlphabet(c)
    ensures Find(c) == 0 <==> c == ALPHABET[0]
  {
  }

  lemma ZeroBytes(z: nat, d: seq<nat>)
    ensures BytesOf(Repeat<nat>(0, z) + d) == Repeat(0, z) + BytesOf(d)
  {
    ZeroByte();
  }

  lemma ZeroByte()
    ensures ByteOfInt(0) == 0
  {
    assert BitsOf(0, 4) == [false, false, false, false];
    assert BitsOf(0, 8) == [false, false, false, false, false, false, false, false];
  }

  lemma ZeroString(s: string)
    requires IsBase58(s) && Horner(DigitsOfChars(s), 58) == 0
    ensures Decode(s) == Repeat(0, |s|)
  {
    var d := DigitsOfChars(s);
    AllZeros(d, 58);
    ZerosLead(|s|, []);
    assert Repeat<nat>(0, |s|) + [] == d;
    ZeroBytes(|s|, []);
    assert Compose(|s|, 0, 256) == Repeat<nat>(0, |s|) + [];
  }

  // ---------------------------------------------------------------- which characters, which number

  /** The alphabet has the digits and letters except 0, I, O and l. */
  lemma AlphabetIff(c: char)
    ensures InAlphabet(c) <==>
      '1' <= c <= '9' || ('A' <= c <= 'Z' && c != 'I' && c != 'O') || ('a' <= c <= 'z' && c != 'l')
  {
    assert ALPHABET[0..] == ALPHABET;
    RunIff("123456789", c);
    RunIff("ABCDEFGH", c);
    RunIff("JKLMN", c);
    RunIff("PQRSTUVWXYZ", c);
    RunIff("abcdefghijk", c);
    RunIff("mnopqrstuvwxyz", c);
  }

  /** The value of the text as a number in base 58, and its leading ones, are those of the bytes. */
  lemma EncodeMeans(b: seq<bv8>)
    ensures var d := DigitsOfChars(Encode(b));
      Horner(d, 58) == Horner(Ints(b), 256) && LeadingZeros(d) == LeadingZeros(Ints(b))
  {
    var z, n := LeadingZeros(Ints(b)), Horner(Ints(b), 256);
    DigitsBack(Compose(z, n, 58));
    Decompose(z, n, 58);
  }
}
