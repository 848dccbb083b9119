/**
 Digit strings with leading zeros: such a string is determined by how many zeros it starts
 with and by the number it denotes, and every such pair comes from a string.
 */
module Digits {
  import opened Bits
  import opened Bytes

  /** The big-endian digits of n, without leading zeros. */
  function DigitsOf(n: nat, base: nat): (d: seq<nat>)
    requires base >= 2
    ensures InBase(d, base)
    decreases n
  {
    if n == 0 then [] else
      Smaller(n, base);
      DigitsOf(n / base, base) + [n % base]
  }

  predicate InBase(d: seq<nat>, base: nat) {
    forall i :: 0 <= i < |d| ==> d[i] < base
  }

  function LeadingZeros(d: seq<nat>): (z: nat)
    ensures z <= |d|
  {
    if d == [] || d[0] != 0 then 0 else 1 + LeadingZeros(d[1..])
  }

  /** z zeros, then the digits of n. */
  function Compose(z: nat, n: nat, base: nat): (d: seq<nat>)
    requires base >= 2
    ensures InBase(d, base)
  {
    Repeat<nat>(0, z) + DigitsOf(n, base)
  }

  lemma Smaller(n: nat, base: nat)
    requires n > 0 && base >= 2
    ensures n / base < n
  {
    var q := n / base;
    if q >= n {
      MulGrows(q, base);
    }
  }

  lemma MulGrows(q: nat, base: nat)
    requires base >= 2
    ensures base * q >= 2 * q
  {
    assert base * q == 2 * q + (base - 2) * q;
  }

  lemma DivMod(h: nat, d: nat, base: nat)
    requires d < base
    ensures (h * base + d) / base == h && (h * base + d) % base == d
  {
    var n := h * base + d;
    var q, r := n / base, n % base;
    assert (q - h) * base == d - r;
    if q > h {
      AtLeastOnce(q - h, base);
    } else if q < h {
      AtLeastOnce(h - q, base);
    }
  }

  lemma DivModSum(n: nat, base: nat)
    requires base >= 1
    ensures n / base * base + n % base == n
  {
  }

  lemma AtLeastOnce(a: nat, base: nat)
    requires a >= 1
    ensures a * base >= base
  {
    assert a * base == base + (a - 1) * base;
  }

  lemma QuotientBound(v: nat, a: nat, p: nat)
    requires p >= 1 && v < a * p
    ensures v / p < a
  {
    DivModSum(v, p);
    TimesMono(v / p, a, p);
  }

  lemma TimesMono(q: nat, a: nat, p: nat)
    ensures q >= a ==> q * p >= a * p
  {
    if q >= a {
      assert q * p == a * p + (q - a) * p;
    }
  }

  lemma {:induction false} HornerDigits(n: nat, base: nat)
    requires base >= 2
    ensures Horner(DigitsOf(n, base), base) == n
    decreases n
  {
    if n > 0 {
      Smaller(n, base);
      HornerDigits(n / base, base);
      var d := DigitsOf(n, base);
      assert d[..|d| - 1] == DigitsOf(n / base, base);
      DivModSum(n, base);
    }
  }

  lemma {:induction false} FirstDigit(n: nat, base: nat)
    requires n > 0 && base >= 2
    ensures DigitsOf(n, base) != [] && DigitsOf(n, base)[0] != 0
    decreases n
  {
    Smaller(n, base);
    if n / base > 0 {
      FirstDigit(n / base, base);
    } else {
      assert n == n / base * base + n % base;
    }
  }

  lemma {:induction false} HornerZeros(z: nat, d: seq<nat>, base: nat)
    ensures Horner(Repeat<nat>(0, z) + d, base) == Horner(d, base)
    decreases |d|, z
  {
    var s := Repeat<nat>(0, z) + d;
    if d == [] {
      assert s == Repeat<nat>(0, z);
      if z > 0 {
        assert Repeat<nat>(0, z)[..z - 1] == Repeat<nat>(0, z - 1) + [];
        HornerZeros(z - 1, [], base);
      }
    } else {
      var init := d[..|d| - 1];
      HornerZeros(z, init, base);
      assert s[..|s| - 1] == Repeat<nat>(0, z) + init;
    }
  }

  lemma {:induction false} ZerosLead(z: nat, d: seq<nat>)
    requires d == [] || d[0] != 0
    ensures LeadingZeros(Repeat<nat>(0, z) + d) == z
  {
    var s := Repeat<nat>(0, z) + d;
    if z == 0 {
      assert s == d;
    } else {
      assert s[1..] == Repeat<nat>(0, z - 1) + d;
      ZerosLead(z - 1, d);
    }
  }

  /** Taking a composed string apart gives back its zeros and its number. */
  lemma Decompose(z: nat, n: nat, base: nat)
    requires base >= 2
    ensures LeadingZeros(Compose(z, n, base)) == z && Horner(Compose(z, n, base), base) == n
  {
    if n > 0 {
      FirstDigit(n, base);
    }
    ZerosLead(z, DigitsOf(n, base));
    HornerZeros(z, DigitsOf(n, base), base);
    HornerDigits(n, base);
  }

  lemma {:induction false} AllZeros(d: seq<nat>, base: nat)
    requires Horner(d, base) == 0 && base >= 2
    ensures d == Repeat<nat>(0, |d|)
  {
    if d != [] {
      var init := d[..|d| - 1];
      assert Horner(init, base) * base == 0;
      if Horner(init, base) > 0 {
        AtLeastOnce(Horner(init, base), base);
      }
      AllZeros(init, base);
      assert d == init + [d[|d| - 1]];
    }
  }

  lemma {:induction false} LeadingZerosInit(d: seq<nat>)
    requires d != [] && (d[|d| - 1] != 0 || LeadingZeros(d[..|d| - 1]) < |d| - 1)
    ensures LeadingZeros(d) == LeadingZeros(d[..|d| - 1])
  {
    if |d| > 1 && d[0] == 0 {
      assert d[1..][..|d| - 2] == d[..|d| - 1][1..];
      LeadingZerosInit(d[1..]);
    }
  }

  lemma {:induction false} FewerZeros(d: seq<nat>, base: nat)
    requires Horner(d, base) > 0
    ensures LeadingZeros(d) < |d|
  {
    if LeadingZeros(d) == |d| {
      OnlyZeros(d);
      assert d == Repeat<nat>(0, |d|) + [];
      HornerZeros(|d|, [], base);
    }
  }

  lemma {:induction false} OnlyZeros(d: seq<nat>)
    requires LeadingZeros(d) == |d|
    ensures d == Repeat<nat>(0, |d|)
  {
    if d != [] {
      OnlyZeros(d[1..]);
      assert d == [0] + d[1..];
    }
  }

  /** Composing what a string was taken apart into gives back the string. */
  lemma {:induction false} Recompose(d: seq<nat>, base: nat)
    requires base >= 2 && InBase(d, base)
    ensures Compose(LeadingZeros(d), Horner(d, base), base) == d
  {
    if Horner(d, base) == 0 {
      AllZeros(d, base);
      ZerosLead(|d|, []);
      assert Repeat<nat>(0, |d|) + [] == d;
    } else {
      var init, last := d[..|d| - 1], d[|d| - 1];
      Recompose(init, base);
      DivMod(Horner(init, base), last, base);
      if last == 0 {
        FewerZeros(init, base);
      }
      LeadingZerosInit(d);
      assert d == init + [last];
    }
  }

  /** int.to_bytes with a fixed length, big-endian. */
  function ToBytes(n: nat, len: nat): (b: seq<bv8>)
    ensures |b| == len
    decreases len
  {
    if len == 0 then [] else ToBytes(n / 256, len - 1) + [ByteOfInt(n % 256)]
  }
}
