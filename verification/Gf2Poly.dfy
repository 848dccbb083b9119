/**
 Polynomials over GF(2), as the finite set of exponents whose coefficient is one.

 Multiplication is defined coefficient by coefficient (the parity of the number of ways an
 exponent arises), so it owes nothing to the shift-and-add loop it is later compared with.
 */
module Gf2Poly {
  type Poly = set<nat>

  function Add(a: Poly, b: Poly): Poly {
    (a - b) + (b - a)
  }

  function Shift(a: Poly, d: nat): Poly {
    set e | e in a :: e + d
  }

  /** The exponents of a that meet an exponent of b to make k. */
  function Ways(a: Poly, b: Poly, k: nat): Poly {
    set i | i in a && i <= k && k - i in b
  }

  predicate OddWays(a: Poly, b: Poly, k: nat) {
    Odd(|Ways(a, b, k)|)
  }

  function Sums(a: Poly, b: Poly): Poly {
    set i, j | i in a && j in b :: i + j
  }

  function Mul(a: Poly, b: Poly): Poly {
    set k | k in Sums(a, b) && OddWays(a, b, k)
  }

  // ---------------------------------------------------------------- parity

  predicate Odd(n: nat) {
    n % 2 == 1
  }

  lemma OddSum(p: nat, q: nat, both: nat)
    ensures Odd(p + q) <==> (Odd(p + both) != Odd(q + both))
  {
  }

  lemma ParityOfAdd(s: Poly, t: Poly)
    ensures Odd(|Add(s, t)|) <==> (Odd(|s|) != Odd(|t|))
  {
    var both := s * t;
    assert s == (s - t) + both && t == (t - s) + both;
    OddSum(|s - t|, |t - s|, |both|);
  }

  lemma {:induction false} ShiftSize(s: Poly, d: nat)
    ensures |Shift(s, d)| == |s|
  {
    if s == {} {
      assert Shift(s, d) == {};
    } else {
      var x :| x in s;
      ShiftSize(s - {x}, d);
      ShiftAdd({x}, s - {x}, d);
      assert s == Add({x}, s - {x});
      assert Shift(s, d) == Add({x + d}, Shift(s - {x}, d));
      assert x + d !in Shift(s - {x}, d);
      assert Shift(s, d) == {x + d} + Shift(s - {x}, d);
    }
  }

  lemma ShiftAt(s: Poly, d: nat, k: nat)
    ensures k in Shift(s, d) <==> k >= d && k - d in s
  {
    if k >= d && k - d in s {
      assert (k - d) + d == k;
    }
  }

  lemma ShiftAdd(s: Poly, t: Poly, d: nat)
    ensures Shift(Add(s, t), d) == Add(Shift(s, d), Shift(t, d))
  {
    forall k: nat ensures k in Shift(Add(s, t), d) <==> k in Add(Shift(s, d), Shift(t, d)) {
      ShiftAt(s, d, k);
      ShiftAt(t, d, k);
      ShiftAt(Add(s, t), d, k);
    }
  }

  // ---------------------------------------------------------------- the ring laws used

  lemma Coefficient(a: Poly, b: Poly, k: nat)
    ensures k in Mul(a, b) <==> OddWays(a, b, k)
  {
    if OddWays(a, b, k) {
      var i :| i in Ways(a, b, k);
      assert i in a && k - i in b && i + (k - i) == k;
    }
  }

  lemma OddWaysAdd(a: Poly, b: Poly, a': Poly, b': Poly, a'': Poly, b'': Poly, k: nat)
    requires Ways(a, b, k) == Add(Ways(a', b', k), Ways(a'', b'', k))
    ensures OddWays(a, b, k) <==> (OddWays(a', b', k) != OddWays(a'', b'', k))
  {
    hide Odd, Ways;
    ParityOfAdd(Ways(a', b', k), Ways(a'', b'', k));
  }

  lemma MulAddLeft(a: Poly, c: Poly, b: Poly)
    ensures Mul(Add(a, c), b) == Add(Mul(a, b), Mul(c, b))
  {
    hide Mul, OddWays;
    forall k: nat ensures k in Mul(Add(a, c), b) <==> k in Add(Mul(a, b), Mul(c, b)) {
      Coefficient(Add(a, c), b, k);
      Coefficient(a, b, k);
      Coefficient(c, b, k);
      OddWaysAdd(Add(a, c), b, a, b, c, b, k);
    }
  }

  lemma MulAddRight(a: Poly, b: Poly, c: Poly)
    ensures Mul(a, Add(b, c)) == Add(Mul(a, b), Mul(a, c))
  {
    hide Mul, OddWays;
    forall k: nat ensures k in Mul(a, Add(b, c)) <==> k in Add(Mul(a, b), Mul(a, c)) {
      Coefficient(a, Add(b, c), k);
      Coefficient(a, b, k);
      Coefficient(a, c, k);
      OddWaysAdd(a, Add(b, c), a, b, a, c, k);
    }
  }

  lemma WaysShiftLeft(a: Poly, b: Poly, d: nat, k: nat)
    ensures OddWays(Shift(a, d), b, k) <==> k >= d && OddWays(a, b, k - d)
  {
    if k < d {
      assert Ways(Shift(a, d), b, k) == {};
    } else {
      forall i: nat ensures i in Ways(Shift(a, d), b, k) <==> i in Shift(Ways(a, b, k - d), d) {
        ShiftAt(a, d, i);
        ShiftAt(Ways(a, b, k - d), d, i);
      }
      ShiftSize(Ways(a, b, k - d), d);
      assert Ways(Shift(a, d), b, k) == Shift(Ways(a, b, k - d), d);
    }
  }

  lemma WaysShiftRight(a: Poly, b: Poly, d: nat, k: nat)
    ensures OddWays(a, Shift(b, d), k) <==> k >= d && OddWays(a, b, k - d)
  {
    forall i: nat ensures i in Ways(a, Shift(b, d), k) <==> k >= d && i in Ways(a, b, k - d) {
      if i <= k {
        ShiftAt(b, d, k - i);
      }
    }
    if k < d {
      assert Ways(a, Shift(b, d), k) == {};
    } else {
      assert Ways(a, Shift(b, d), k) == Ways(a, b, k - d);
    }
  }

  lemma MulShift(a: Poly, b: Poly, d: nat)
    ensures Mul(Shift(a, d), b) == Shift(Mul(a, b), d) == Mul(a, Shift(b, d))
  {
    hide Mul, OddWays, Shift;
    forall k: nat
      ensures k in Mul(Shift(a, d), b) <==> k in Shift(Mul(a, b), d)
      ensures k in Mul(a, Shift(b, d)) <==> k in Shift(Mul(a, b), d)
    {
      Coefficient(Shift(a, d), b, k);
      Coefficient(a, Shift(b, d), k);
      WaysShiftLeft(a, b, d, k);
      WaysShiftRight(a, b, d, k);
      ShiftAt(Mul(a, b), d, k);
      if k >= d {
        Coefficient(a, b, k - d);
      }
    }
  }

  lemma MulOne(b: Poly)
    ensures Mul({0}, b) == b
  {
    hide Mul;
    forall k: nat ensures k in Mul({0}, b) <==> k in b {
      Coefficient({0}, b, k);
      assert Ways({0}, b, k) == if k in b then {0} else {};
    }
  }

  lemma MulMonomial(d: nat, b: Poly)
    ensures Mul({d}, b) == Shift(b, d)
  {
    assert Shift({0}, d) == {d};
    MulShift({0}, b, d);
    MulOne(b);
  }

  lemma MulZero(b: Poly)
    ensures Mul({}, b) == {} && Mul(b, {}) == {}
  {
  }

  lemma {:induction false} MulAssoc(a: Poly, b: Poly, c: Poly)
    ensures Mul(Mul(a, b), c) == Mul(a, Mul(b, c))
  {
    if a == {} {
      MulZero(b);
      MulZero(c);
      MulZero(Mul(b, c));
    } else {
      var d :| d in a;
      var rest := a - {d};
      assert a == Add({d}, rest);
      MulAssoc(rest, b, c);
      MulAddLeft({d}, rest, b);
      MulAddLeft(Mul({d}, b), Mul(rest, b), c);
      MulAddLeft({d}, rest, Mul(b, c));
      MulMonomial(d, b);
      MulMonomial(d, Mul(b, c));
      MulShift(b, c, d);
    }
  }

  // ---------------------------------------------------------------- the modulus x^128 + x^7 + x^2 + x + 1

  const MODULUS: Poly := {128, 7, 2, 1, 0}

  ghost predicate Congruent(a: Poly, b: Poly) {
    exists q: Poly :: Add(a, b) == Mul(q, MODULUS)
  }

  ghost predicate Reduced(a: Poly) {
    forall e :: e in a ==> e < 128
  }

  lemma CongruentRefl(a: Poly)
    ensures Congruent(a, a)
  {
    MulZero(MODULUS);
    assert Add(a, a) == Mul({}, MODULUS);
  }

  lemma CongruentTrans(a: Poly, b: Poly, c: Poly)
    requires Congruent(a, b) && Congruent(b, c)
    ensures Congruent(a, c)
  {
    var p: Poly :| Add(a, b) == Mul(p, MODULUS);
    var q: Poly :| Add(b, c) == Mul(q, MODULUS);
    MulAddLeft(p, q, MODULUS);
    assert Add(a, c) == Add(Add(a, b), Add(b, c));
    assert Add(a, c) == Mul(Add(p, q), MODULUS);
  }

  lemma CongruentSym(a: Poly, b: Poly)
    requires Congruent(a, b)
    ensures Congruent(b, a)
  {
    assert Add(a, b) == Add(b, a);
  }

  lemma CongruentAdd(a: Poly, a': Poly, b: Poly, b': Poly)
    requires Congruent(a, a') && Congruent(b, b')
    ensures Congruent(Add(a, b), Add(a', b'))
  {
    var p: Poly :| Add(a, a') == Mul(p, MODULUS);
    var q: Poly :| Add(b, b') == Mul(q, MODULUS);
    MulAddLeft(p, q, MODULUS);
    assert Add(Add(a, b), Add(a', b')) == Add(Add(a, a'), Add(b, b'));
    assert Add(Add(a, b), Add(a', b')) == Mul(Add(p, q), MODULUS);
  }

  lemma CongruentMul(m: Poly, a: Poly, b: Poly)
    requires Congruent(a, b)
    ensures Congruent(Mul(m, a), Mul(m, b))
  {
    var q: Poly :| Add(a, b) == Mul(q, MODULUS);
    MulAddRight(m, a, b);
    MulAssoc(m, q, MODULUS);
    assert Add(Mul(m, a), Mul(m, b)) == Mul(Mul(m, q), MODULUS);
  }

  lemma {:induction false} MaxOf(s: Poly) returns (m: nat)
    requires s != {}
    ensures m in s && forall e :: e in s ==> e <= m
  {
    m :| m in s;
    if s != {m} {
      var m' := MaxOf(s - {m});
      assert forall e :: e in s ==> e == m || e in s - {m};
      m := if m' > m then m' else m;
    }
  }

  /** The product with the modulus has degree 128 more. */
  lemma TopCoefficient(q: Poly, d: nat)
    requires d in q && forall e :: e in q ==> e <= d
    ensures d + 128 in Mul(q, MODULUS)
  {
    Coefficient(q, MODULUS, d + 128);
    assert Ways(q, MODULUS, d + 128) == {d};
  }

  /** A polynomial of degree below 128 is the only one in its residue class. */
  lemma ReducedUnique(a: Poly, b: Poly)
    requires Congruent(a, b) && Reduced(a) && Reduced(b)
    ensures a == b
  {
    hide Mul;
    var q: Poly :| Add(a, b) == Mul(q, MODULUS);
    if q != {} {
      var d := MaxOf(q);
      TopCoefficient(q, d);
      assert false;
    }
    MulZero(MODULUS);
    assert a == Add(Add(a, b), b);
  }
}
