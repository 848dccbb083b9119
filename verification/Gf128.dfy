/**
 The AEZ field arithmetic of aezeed.py: doubling and small-multiplier multiplication on
 16-byte blocks, proved to be multiplication modulo x^128 + x^7 + x^2 + x + 1.
 */
module Gf128 {
  import opened Bytes
  import opened Gf2Poly

  // ---------------------------------------------------------------- blocks as polynomials

  predicate BitOf(b: bv8, k: nat)
    requires k < 8
  {
    match k
    case 0 => b & 0x01 != 0
    case 1 => b & 0x02 != 0
    case 2 => b & 0x04 != 0
    case 3 => b & 0x08 != 0
    case 4 => b & 0x10 != 0
    case 5 => b & 0x20 != 0
    case 6 => b & 0x40 != 0
    case _ => b & 0x80 != 0
  }

  /** The coefficient of x^e: blocks are big-endian, in bytes and in bits. */
  predicate Bit(s: Block, e: nat)
    requires e < 128
  {
    BitOf(s[15 - e / 8], e % 8)
  }

  function PolyOf(s: Block): (p: Poly)
    ensures Reduced(p)
  {
    set e: nat | e < 128 && Bit(s, e)
  }

  /** The polynomial of a multiplier: one exponent for every one bit. */
  function PolyOfNat(x: nat): Poly {
    if x == 0 then {}
    else (if x % 2 == 1 then {0} else {}) + Shift(PolyOfNat(x / 2), 1)
  }

  lemma BytesEqual(a: bv8, b: bv8)
    requires forall k: nat :: k < 8 ==> BitOf(a, k) == BitOf(b, k)
    ensures a == b
  {
    assert BitOf(a, 0) == BitOf(b, 0) && BitOf(a, 1) == BitOf(b, 1) && BitOf(a, 2) == BitOf(b, 2);
    assert BitOf(a, 3) == BitOf(b, 3) && BitOf(a, 4) == BitOf(b, 4) && BitOf(a, 5) == BitOf(b, 5);
    assert BitOf(a, 6) == BitOf(b, 6) && BitOf(a, 7) == BitOf(b, 7);
  }

  lemma PolyOfInjective(s: Block, t: Block)
    requires PolyOf(s) == PolyOf(t)
    ensures s == t
  {
    forall i | 0 <= i < 16 ensures s[i] == t[i] {
      forall k: nat | k < 8 ensures BitOf(s[i], k) == BitOf(t[i], k) {
        var e := 8 * (15 - i) + k;
        assert e / 8 == 15 - i && e % 8 == k;
        assert Bit(s, e) <==> e in PolyOf(s);
        assert Bit(t, e) <==> e in PolyOf(t);
      }
      BytesEqual(s[i], t[i]);
    }
  }

  lemma XorBit(a: bv8, b: bv8, k: nat)
    requires k < 8
    ensures BitOf(a ^ b, k) == (BitOf(a, k) != BitOf(b, k))
  {
    if k == 0 {
    } else if k == 1 {
    } else if k == 2 {
    } else if k == 3 {
    } else if k == 4 {
    } else if k == 5 {
    } else if k == 6 {
    } else {
    }
  }

  lemma PolyOfXor(s: Block, t: Block)
    ensures PolyOf(Xor(s, t)) == Add(PolyOf(s), PolyOf(t))
  {
    hide BitOf;
    forall e: nat | e < 128 ensures Bit(Xor(s, t), e) == (Bit(s, e) != Bit(t, e)) {
      XorBit(s[15 - e / 8], t[15 - e / 8], e % 8);
    }
  }

  lemma PolyOfZero()
    ensures PolyOf(Repeat(0, 16)) == {}
  {
    forall e: nat | e < 128 ensures !Bit(Repeat(0, 16), e) {
    }
  }

  // ---------------------------------------------------------------- doubling

  function DoubledByte(p: Block, i: nat): bv8
    requires i < 16
  {
    if i < 15 then (p[i] << 1) | (p[i + 1] >> 7)
    else ((p[15] << 1) & 0xFE) ^ (if p[0] & 0x80 != 0 then 0x87 else 0)
  }

  function Double(p: Block): Block {
    seq(16, i requires 0 <= i < 16 => DoubledByte(p, i))
  }

  lemma ShiftedBit(a: bv8, b: bv8, k: nat)
    requires k < 8
    ensures BitOf((a << 1) | (b >> 7), k) == if k == 0 then BitOf(b, 7) else BitOf(a, k - 1)
  {
  }

  lemma FoldedBit(a: bv8, k: nat)
    requires k < 8
    ensures BitOf(((a << 1) & 0xFE) ^ 0x87, k) == ((k in {7, 2, 1, 0}) != (k > 0 && BitOf(a, k - 1)))
    ensures BitOf(((a << 1) & 0xFE) ^ 0, k) == (k > 0 && BitOf(a, k - 1))
  {
  }

  lemma DoubleBit(p: Block, e: nat)
    requires e < 128
    ensures Bit(Double(p), e) == ((e > 0 && Bit(p, e - 1)) != (Bit(p, 127) && e in {7, 2, 1, 0}))
  {
    var i, k := 15 - e / 8, e % 8;
    assert e > 0 && k > 0 ==> (e - 1) / 8 == e / 8 && (e - 1) % 8 == k - 1;
    if i < 15 {
      assert k == 0 ==> (e - 1) / 8 == e / 8 - 1 && (e - 1) % 8 == 7;
      ShiftedBit(p[i], p[i + 1], k);
    } else {
      FoldedBit(p[15], k);
    }
  }

  /** Doubling multiplies by x; the modulus is subtracted exactly when x^127 was present. */
  lemma PolyOfDouble(p: Block)
    ensures PolyOf(Double(p)) == Add(Shift(PolyOf(p), 1), if 127 in PolyOf(p) then MODULUS else {})
  {
    forall e: nat
      ensures e in PolyOf(Double(p)) <==> e in Add(Shift(PolyOf(p), 1), if 127 in PolyOf(p) then MODULUS else {})
    {
      ShiftAt(PolyOf(p), 1, e);
      if e < 128 {
        DoubleBit(p, e);
      }
    }
  }

  // ---------------------------------------------------------------- multiplication

  function Mult(x: nat, s: Block): Block {
    if x == 0 then Repeat(0, 16)
    else Xor(if x % 2 == 1 then s else Repeat(0, 16), Mult(x / 2, Double(s)))
  }

  /** The loop is carry-less multiplication up to a multiple of the modulus. */
  lemma {:induction false} MultCongruent(x: nat, s: Block)
    ensures Congruent(PolyOf(Mult(x, s)), Mul(PolyOfNat(x), PolyOf(s)))
  {
    PolyOfZero();
    MulZero(PolyOf(s));
    if x == 0 {
      CongruentRefl({});
    } else {
      var y, a, d := x / 2, PolyOf(s), PolyOf(Double(s));
      var low: Poly := if x % 2 == 1 then {0} else {};
      var odd := if x % 2 == 1 then s else Repeat(0, 16);
      MultCongruent(y, Double(s));
      DoubleCongruent(s);
      CongruentMul(PolyOfNat(y), d, Shift(a, 1));
      CongruentTrans(PolyOf(Mult(y, Double(s))), Mul(PolyOfNat(y), d), Mul(PolyOfNat(y), Shift(a, 1)));
      MulShift(PolyOfNat(y), a, 1);
      MulOne(a);
      PolyOfXor(odd, Mult(y, Double(s)));
      CongruentRefl(PolyOf(odd));
      CongruentAdd(PolyOf(odd), PolyOf(odd), PolyOf(Mult(y, Double(s))), Mul(Shift(PolyOfNat(y), 1), a));
      assert PolyOfNat(x) == Add(low, Shift(PolyOfNat(y), 1));
      MulAddLeft(low, Shift(PolyOfNat(y), 1), a);
    }
  }

  lemma DoubleCongruent(s: Block)
    ensures Congruent(PolyOf(Double(s)), Shift(PolyOf(s), 1))
  {
    hide Mul, PolyOf, Double, Shift;
    PolyOfDouble(s);
    var q: Poly := if 127 in PolyOf(s) then {0} else {};
    MulOne(MODULUS);
    MulZero(MODULUS);
    assert Add(PolyOf(Double(s)), Shift(PolyOf(s), 1)) == Mul(q, MODULUS);
  }

  /** ... and, being reduced, it is the one block in that residue class. */
  lemma MultIsProduct(x: nat, s: Block, r: Block)
    ensures r == Mult(x, s) <==> Congruent(PolyOf(r), Mul(PolyOfNat(x), PolyOf(s)))
  {
    MultCongruent(x, s);
    if Congruent(PolyOf(r), Mul(PolyOfNat(x), PolyOf(s))) {
      CongruentSym(PolyOf(Mult(x, s)), Mul(PolyOfNat(x), PolyOf(s)));
      CongruentTrans(PolyOf(r), Mul(PolyOfNat(x), PolyOf(s)), PolyOf(Mult(x, s)));
      ReducedUnique(PolyOf(r), PolyOf(Mult(x, s)));
      PolyOfInjective(r, Mult(x, s));
    }
  }

  /** Linear in the block. */
  lemma MultXor(x: nat, s: Block, t: Block)
    ensures Mult(x, Xor(s, t)) == Xor(Mult(x, s), Mult(x, t))
  {
    MultCongruent(x, s);
    MultCongruent(x, t);
    CongruentAdd(PolyOf(Mult(x, s)), Mul(PolyOfNat(x), PolyOf(s)), PolyOf(Mult(x, t)), Mul(PolyOfNat(x), PolyOf(t)));
    PolyOfXor(Mult(x, s), Mult(x, t));
    PolyOfXor(s, t);
    MulAddRight(PolyOfNat(x), PolyOf(s), PolyOf(t));
    MultIsProduct(x, Xor(s, t), Xor(Mult(x, s), Mult(x, t)));
  }

  /** Additive in the multiplier, where multipliers are added bit by bit without carry. */
  lemma MultAdd(x: nat, y: nat, z: nat, s: Block)
    requires PolyOfNat(z) == Add(PolyOfNat(x), PolyOfNat(y))
    ensures Mult(z, s) == Xor(Mult(x, s), Mult(y, s))
  {
    MultCongruent(x, s);
    MultCongruent(y, s);
    CongruentAdd(PolyOf(Mult(x, s)), Mul(PolyOfNat(x), PolyOf(s)), PolyOf(Mult(y, s)), Mul(PolyOfNat(y), PolyOf(s)));
    PolyOfXor(Mult(x, s), Mult(y, s));
    MulAddLeft(PolyOfNat(x), PolyOfNat(y), PolyOf(s));
    MultIsProduct(z, s, Xor(Mult(x, s), Mult(y, s)));
  }

  /** Multiplying twice is multiplying by the carry-less product of the multipliers. */
  lemma MultMult(x: nat, y: nat, z: nat, s: Block)
    requires PolyOfNat(z) == Mul(PolyOfNat(x), PolyOfNat(y))
    ensures Mult(z, s) == Mult(x, Mult(y, s))
  {
    MultCongruent(y, s);
    MultCongruent(x, Mult(y, s));
    CongruentMul(PolyOfNat(x), PolyOf(Mult(y, s)), Mul(PolyOfNat(y), PolyOf(s)));
    CongruentTrans(PolyOf(Mult(x, Mult(y, s))), Mul(PolyOfNat(x), PolyOf(Mult(y, s))),
                   Mul(PolyOfNat(x), Mul(PolyOfNat(y), PolyOf(s))));
    MulAssoc(PolyOfNat(x), PolyOfNat(y), PolyOf(s));
    MultIsProduct(z, s, Mult(x, Mult(y, s)));
  }

  // ---------------------------------------------------------------- the in-place code

  method DoubleBlock(p: array<bv8>)
    requires p.Length == 16
    modifies p
    ensures p[..] == Double(old(p[..]))
  {
    var tmp := p[0];
    for i := 0 to 15
      invariant forall k :: 0 <= k < i ==> p[k] == DoubledByte(old(p[..]), k)
      invariant forall k :: i <= k < 16 ==> p[k] == old(p[k])
    {
      p[i] := (p[i] << 1) | (p[i + 1] >> 7);
    }
    p[15] := ((p[15] << 1) & 0xFE) ^ (if tmp & 0x80 != 0 then 0x87 else 0);
  }

  method MultBlock(x: nat, src: Block) returns (dst: Block)
    ensures dst == Mult(x, src)
  {
    var t := new bv8[16](i requires 0 <= i < 16 => src[i]);
    var r: Block := Repeat(0, 16);
    var y := x;
    assert t[..] == src;
    while y != 0
      invariant Xor(r, Mult(y, t[..])) == Mult(x, src)
    {
      if y % 2 == 1 {
        r := Xor(r, t[..]);
      }
      DoubleBlock(t);
      y := y / 2;
    }
    dst := r;
  }
}
