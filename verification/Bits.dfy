/** Numbers as bit strings, most significant bit first. */
module Bits {

  function Pow2(n: nat): (p: nat)
    ensures p >= 1
  {
    if n == 0 then 1 else 2 * Pow2(n - 1)
  }

  /** int.bit_length. */
  function BitLength(n: nat): nat {
    if n == 0 then 0 else 1 + BitLength(n / 2)
  }

  /** The low w bits of n. */
  function BitsOf(n: nat, w: nat): (b: seq<bool>)
    ensures |b| == w
  {
    if w == 0 then [] else BitsOf(n / 2, w - 1) + [n % 2 == 1]
  }

  function Value(b: seq<bool>): nat {
    if b == [] then 0 else 2 * Value(b[..|b| - 1]) + (if b[|b| - 1] then 1 else 0)
  }

  /** Multiplication, named so that products stay symbolic. */
  function Times(a: nat, b: nat): nat {
    a * b
  }

  lemma TimesTwice(a: nat, b: nat)
    ensures Times(a, 2 * b) == 2 * Times(a, b) == Times(2 * a, b)
  {
    assert a * (2 * b) == 2 * (a * b) == (2 * a) * b;
  }

  lemma {:induction false} Pow2Add(a: nat, b: nat)
    ensures Pow2(a + b) == Pow2(a) * Pow2(b)
  {
    if b > 0 {
      Pow2Add(a, b - 1);
      TimesTwice(Pow2(a), Pow2(b - 1));
    }
  }

  lemma {:induction false} ValueBitsOf(n: nat, w: nat)
    requires n < Pow2(w)
    ensures Value(BitsOf(n, w)) == n
  {
    if w > 0 {
      ValueBitsOf(n / 2, w - 1);
      assert BitsOf(n, w)[..w - 1] == BitsOf(n / 2, w - 1);
    }
  }

  lemma {:induction false} BitsOfValue(b: seq<bool>)
    ensures BitsOf(Value(b), |b|) == b && Value(b) < Pow2(|b|)
  {
    if b != [] {
      BitsOfValue(b[..|b| - 1]);
    }
  }

  lemma {:induction false} ValueConcat(a: seq<bool>, b: seq<bool>)
    ensures Value(a + b) == Value(a) * Pow2(|b|) + Value(b)
  {
    ValueJoined(a, b);
  }

  lemma {:induction false} ValueJoined(a: seq<bool>, b: seq<bool>)
    ensures Value(a + b) == Times(Value(a), Pow2(|b|)) + Value(b)
  {
    if b == [] {
      assert a + b == a;
    } else {
      var b', ab := b[..|b| - 1], a + b;
      assert ab[..|ab| - 1] == a + b' && ab[|ab| - 1] == b[|b| - 1];
      ValueJoined(a, b');
      TimesTwice(Value(a), Pow2(|b'|));
      hide Times;
    }
  }

  /** Writing m in the low b bits under n. */
  lemma {:induction false} BitsOfJoined(n: nat, m: nat, a: nat, b: nat)
    requires m < Pow2(b)
    ensures BitsOf(n * Pow2(b) + m, a + b) == BitsOf(n, a) + BitsOf(m, b)
  {
    BitsJoined(n, m, a, b);
  }

  lemma {:induction false} BitsJoined(n: nat, m: nat, a: nat, b: nat)
    requires m < Pow2(b)
    ensures BitsOf(Times(n, Pow2(b)) + m, a + b) == BitsOf(n, a) + BitsOf(m, b)
  {
    if b > 0 {
      BitsJoined(n, m / 2, a, b - 1);
      TimesTwice(n, Pow2(b - 1));
      hide Times;
      HalfSum(Times(n, Pow2(b - 1)), m);
    } else {
      assert Times(n, 1) + m == n;
      assert BitsOf(n, a) + [] == BitsOf(n, a);
    }
  }

  lemma HalfSum(t: nat, m: nat)
    ensures (2 * t + m) / 2 == t + m / 2 && (2 * t + m) % 2 == m % 2
  {
  }

  // ---------------------------------------------------------------- fixed-width digit strings

  /** The bits of fixed-width digits, in order. */
  function Flat(xs: seq<nat>, w: nat): (b: seq<bool>)
    ensures |b| == w * |xs|
  {
    if xs == [] then [] else Flat(xs[..|xs| - 1], w) + BitsOf(xs[|xs| - 1], w)
  }

  /** The number with big-endian digits xs in the given base. */
  function Horner(xs: seq<nat>, base: nat): nat {
    if xs == [] then 0 else Horner(xs[..|xs| - 1], base) * base + xs[|xs| - 1]
  }

  lemma {:induction false} ValueFlat(xs: seq<nat>, w: nat)
    requires forall x :: x in xs ==> x < Pow2(w)
    ensures Value(Flat(xs, w)) == Horner(xs, Pow2(w))
  {
    if xs != [] {
      var init, last := xs[..|xs| - 1], xs[|xs| - 1];
      assert forall x :: x in init ==> x in xs;
      ValueFlat(init, w);
      ValueConcat(Flat(init, w), BitsOf(last, w));
      assert last in xs;
      ValueBitsOf(last, w);
    }
  }

  /** The bits of digit k stand at positions w*k onwards. */
  lemma {:induction false} FlatAt(xs: seq<nat>, w: nat, k: nat)
    requires k < |xs|
    ensures w * k + w <= |Flat(xs, w)|
    ensures Flat(xs, w)[w * k..w * k + w] == BitsOf(xs[k], w)
  {
    var init := xs[..|xs| - 1];
    assert w * |xs| == w * |init| + w;
    if k < |xs| - 1 {
      FlatAt(init, w, k);
      assert Flat(xs, w)[w * k..w * k + w] == Flat(init, w)[w * k..w * k + w];
    }
  }

  lemma BitsOfInjective(n: nat, m: nat, w: nat)
    requires n < Pow2(w) && m < Pow2(w) && BitsOf(n, w) == BitsOf(m, w)
    ensures n == m
  {
    ValueBitsOf(n, w);
    ValueBitsOf(m, w);
  }

  // ---------------------------------------------------------------- bytes

  function Bools(b: bv8): (r: seq<bool>)
    ensures |r| == 8
  {
    [b & 0x80 != 0, b & 0x40 != 0, b & 0x20 != 0, b & 0x10 != 0,
     b & 0x08 != 0, b & 0x04 != 0, b & 0x02 != 0, b & 0x01 != 0]
  }

  function OfBools(r: seq<bool>): bv8
    requires |r| == 8
  {
    (if r[0] then 0x80 else 0) | (if r[1] then 0x40 else 0) | (if r[2] then 0x20 else 0) | (if r[3] then 0x10 else 0)
    | (if r[4] then 0x08 else 0) | (if r[5] then 0x04 else 0) | (if r[6] then 0x02 else 0) | (if r[7] then 0x01 else 0)
  }

  lemma BoolsOfBools(r: seq<bool>)
    requires |r| == 8
    ensures Bools(OfBools(r)) == r
  {
  }

  lemma BoolsInjective(a: bv8, b: bv8)
    requires Bools(a) == Bools(b)
    ensures a == b
  {
    assert Bools(a)[0] == Bools(b)[0] && Bools(a)[1] == Bools(b)[1] && Bools(a)[2] == Bools(b)[2];
    assert Bools(a)[3] == Bools(b)[3] && Bools(a)[4] == Bools(b)[4] && Bools(a)[5] == Bools(b)[5];
    assert Bools(a)[6] == Bools(b)[6] && Bools(a)[7] == Bools(b)[7];
  }

  /** The byte with integer value v, and back. */
  function ByteOfInt(v: nat): bv8 {
    OfBools(BitsOf(v, 8))
  }

  function IntOfByte(b: bv8): (v: nat)
    ensures v < 256
  {
    BitsOfValue(Bools(b));
    assert Pow2(8) == 256;
    Value(Bools(b))
  }

  lemma IntOfByteOfInt(v: nat)
    requires v < 256
    ensures IntOfByte(ByteOfInt(v)) == v
  {
    assert Pow2(8) == 256;
    BoolsOfBools(BitsOf(v, 8));
    ValueBitsOf(v, 8);
  }

  lemma ByteOfIntOfByte(b: bv8)
    ensures ByteOfInt(IntOfByte(b)) == b
  {
    BitsOfValue(Bools(b));
    BoolsOfBools(Bools(b));
    BoolsInjective(ByteOfInt(IntOfByte(b)), b);
  }

  /** The bits of a byte string. */
  function BytesBits(b: seq<bv8>): (r: seq<bool>)
    ensures |r| == 8 * |b|
  {
    if b == [] then [] else BytesBits(b[..|b| - 1]) + Bools(b[|b| - 1])
  }

  lemma {:induction false} BytesBitsAt(b: seq<bv8>, k: nat)
    requires k < |b|
    ensures BytesBits(b)[8 * k..8 * k + 8] == Bools(b[k])
  {
    var init := b[..|b| - 1];
    if k < |b| - 1 {
      BytesBitsAt(init, k);
      assert BytesBits(b)[8 * k..8 * k + 8] == BytesBits(init)[8 * k..8 * k + 8];
    }
  }

  lemma {:induction false} ValueBytes(b: seq<bv8>)
    ensures Value(BytesBits(b)) == Horner(Ints(b), 256)
  {
    if b != [] {
      var init, last := b[..|b| - 1], b[|b| - 1];
      ValueBytes(init);
      assert Pow2(8) == 256;
      ValueConcat(BytesBits(init), Bools(last));
      assert Ints(b)[..|b| - 1] == Ints(init);
    }
  }

  function Ints(b: seq<bv8>): (r: seq<nat>)
    ensures |r| == |b| && forall x :: x in r ==> x < 256
  {
    seq(|b|, i requires 0 <= i < |b| => IntOfByte(b[i]))
  }
}
