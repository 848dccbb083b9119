/** The AEZ key state, its short-message entry points and _aez_decrypt. */
module Aez {
  import opened Bytes
  import opened Wrappers
  import opened Gf2Poly
  import opened Gf128
  import Spec = AezTinySpec
  import AezTiny

  /** AES4 under an extracted key: offset blocks j, i, l and the input block. */
  type Aes4 = (seq<bv8>, Block, Block, Block, Block) -> Block

  const ZERO_BLOCK: Block := Repeat(0, 16)

  /** The block function aez_tiny applies: zero j offset, i and l offsets from the state. */
  function BlockFn(aes4: Aes4, key: seq<bv8>, i1: Block, l: Block): Block -> Block {
    (b: Block) => aes4(key, ZERO_BLOCK, i1, l, b)
  }

  // ---------------------------------------------------------------- the offset tables

  lemma SmallPolys()
    ensures PolyOfNat(1) == {0} && PolyOfNat(2) == {1} && PolyOfNat(3) == {1, 0} && PolyOfNat(4) == {2}
    ensures PolyOfNat(5) == {2, 0} && PolyOfNat(6) == {2, 1} && PolyOfNat(7) == {2, 1, 0}
  {
    assert PolyOfNat(0) == {};
    assert PolyOfNat(1) == {0};
    assert PolyOfNat(2) == {1};
    assert PolyOfNat(3) == {1, 0};
  }

  /** The doublings and exclusive-ors of _AEZState.init produce the multiples 1..7 of a block. */
  lemma SmallMultiples(s: Block)
    ensures Mult(1, s) == s
    ensures Mult(3, s) == Xor(Mult(2, s), s)
    ensures Mult(4, s) == Mult(2, Mult(2, s))
    ensures Mult(5, s) == Xor(Mult(4, s), s)
    ensures Mult(6, s) == Mult(2, Mult(3, s))
    ensures Mult(7, s) == Xor(Mult(6, s), s)
  {
    hide Mult, Mul, PolyOfNat;
    SmallPolys();
    MulOne(PolyOf(s));
    CongruentRefl(PolyOf(s));
    MultIsProduct(1, s, s);
    MultAdd(2, 1, 3, s);
    MulMonomial(1, {1});
    MultMult(2, 2, 4, s);
    MultAdd(4, 1, 5, s);
    MulMonomial(1, {1, 0});
    MultMult(2, 3, 6, s);
    MultAdd(6, 1, 7, s);
  }

  // ---------------------------------------------------------------- authenticated decryption

  predicate AllZero(b: seq<bv8>) {
    forall i :: 0 <= i < |b| ==> b[i] == 0
  }

  /** Python's x[-n:], which is all of x when n is 0. */
  function LastBytes(x: seq<bv8>, n: nat): seq<bv8> {
    if 0 < n <= |x| then x[|x| - n..] else x
  }

  /** Python's x[:k], where a negative k counts from the end. */
  function FirstBytes(x: seq<bv8>, k: int): seq<bv8> {
    if k >= |x| then x
    else if k >= 0 then x[..k]
    else if -k <= |x| then x[..|x| + k]
    else []
  }

  /** What decryption makes of the deciphered bytes x. */
  function Unpad(x: seq<bv8>, tau: nat): Option<seq<bv8>> {
    if AllZero(LastBytes(x, tau)) then Some(FirstBytes(x, |x| - tau)) else None
  }

  /** _aez_decrypt after key setup; `tag` stands for the aez_prf output of length tau. */
  function Decrypted(round: Spec.RoundFn, g: Block -> Block, delta: Block, tag: seq<bv8>, ciphertext: seq<bv8>)
      : Option<seq<bv8>>
    requires Spec.Involutive(round) && |ciphertext| < 32
  {
    if |ciphertext| == |tag| then (if tag == ciphertext then Some([]) else None)
    else if ciphertext == [] then Unpad([], |tag|)
    else Unpad(Spec.Decipher(round, g, delta, ciphertext), |tag|)
  }

  /** For 0 < tau < |c| <= 31, p is returned exactly when c enciphers p followed by tau zero bytes. */
  lemma DecryptExact(round: Spec.RoundFn, g: Block -> Block, delta: Block, tag: seq<bv8>, c: seq<bv8>, p: seq<bv8>)
    requires Spec.Involutive(round) && 0 < |tag| < |c| <= 31
    ensures Decrypted(round, g, delta, tag, c) == Some(p)
       <==> |p| == |c| - |tag| && c == Spec.Encipher(round, g, delta, p + Repeat(0, |tag|))
  {
    var x := Spec.Decipher(round, g, delta, c);
    Spec.EncipherDecipher(round, g, delta, c);
    if Decrypted(round, g, delta, tag, c) == Some(p) {
      assert x == p + Repeat(0, |tag|);
    }
    if |p| == |c| - |tag| && c == Spec.Encipher(round, g, delta, p + Repeat(0, |tag|)) {
      Spec.DecipherEncipher(round, g, delta, p + Repeat(0, |tag|));
      assert LastBytes(x, |tag|) == Repeat(0, |tag|);
    }
  }

  /** Otherwise: a ciphertext of tau bytes has to be the tag; from a shorter one nothing is left that is not zero. */
  lemma DecryptShort(round: Spec.RoundFn, g: Block -> Block, delta: Block, tag: seq<bv8>, c: seq<bv8>, p: seq<bv8>)
    requires Spec.Involutive(round) && |c| <= |tag| && |c| <= 31
    ensures |c| == |tag| ==> (Decrypted(round, g, delta, tag, c) == Some(p) <==> c == tag && p == [])
    ensures |c| < |tag| && Decrypted(round, g, delta, tag, c) == Some(p) ==>
              AllZero(p) && |p| == if 2 * |c| > |tag| then 2 * |c| - |tag| else 0
    ensures 0 < |c| < |tag| ==>
              (Decrypted(round, g, delta, tag, c).Some? <==> c == Spec.Encipher(round, g, delta, Repeat(0, |c|)))
  {
    if 0 < |c| < |tag| {
      var x := Spec.Decipher(round, g, delta, c);
      Spec.EncipherDecipher(round, g, delta, c);
      Spec.DecipherEncipher(round, g, delta, Repeat(0, |c|));
      assert LastBytes(x, |tag|) == x;
      if AllZero(x) {
        assert x == Repeat(0, |c|);
      }
    }
  }

  /** With tau = 0 the check runs over the whole plaintext: only all-zero plaintexts come back. */
  lemma DecryptNoExpansion(round: Spec.RoundFn, g: Block -> Block, delta: Block, c: seq<bv8>, p: seq<bv8>)
    requires Spec.Involutive(round) && 0 < |c| <= 31
    ensures Decrypted(round, g, delta, [], c) == Some(p)
       <==> |p| == |c| && c == Spec.Encipher(round, g, delta, p) && AllZero(p)
  {
    Spec.EncipherDecipher(round, g, delta, c);
    if |p| == |c| {
      Spec.DecipherEncipher(round, g, delta, p);
    }
  }

  /** A plaintext that tau = 0 loses under every round function: the single byte 1. */
  lemma NoExpansionLosesOne(round: Spec.RoundFn, g: Block -> Block, delta: Block)
    requires Spec.Involutive(round)
    ensures Decrypted(round, g, delta, [], Spec.Encipher(round, g, delta, [1])) == None
  {
    var p: seq<bv8> := [1];
    Spec.DecipherEncipher(round, g, delta, p);
    assert p[0] != 0;
  }

  // ---------------------------------------------------------------- the key state

  class State {
    const aes4: Aes4
    var I: seq<Block>
    var J: seq<Block>
    var L: seq<Block>
    var key: seq<bv8>

    ghost predicate Valid()
      reads this
    {
      |I| == 2 && |J| == 3 && |L| == 8
    }

    constructor (aes4: Aes4)
      ensures Valid() && this.aes4 == aes4
      ensures L[0] == ZERO_BLOCK
    {
      this.aes4 := aes4;
      I, J, L, key := Repeat(ZERO_BLOCK, 2), Repeat(ZERO_BLOCK, 3), Repeat(ZERO_BLOCK, 8), [];
    }

    /** Fills the offset tables from the 48-byte extracted key; L[0] is left alone. */
    method Init(extracted: seq<bv8>)
      requires Valid() && |extracted| == 48
      modifies this
      ensures Valid() && key == extracted
      ensures I == [extracted[0..16], Mult(2, extracted[0..16])]
      ensures J == [extracted[16..32], Mult(2, extracted[16..32]), Mult(4, extracted[16..32])]
      ensures L[0] == old(L[0])
      ensures forall k :: 1 <= k < 8 ==> L[k] == Mult(k, extracted[32..48])
    {
      hide Mult, Xor;
      var double := MultBlock(2, extracted[0..16]);
      I := [extracted[0..16], double];
      var j0: Block := extracted[16..32];
      SmallMultiples(j0);
      var j1 := MultBlock(2, j0);
      var j2 := MultBlock(2, j1);
      J := [j0, j1, j2];
      var l1: Block := extracted[32..48];
      SmallMultiples(l1);
      var l2 := MultBlock(2, l1);
      var l3: Block := Xor(l2, l1);
      var l4 := MultBlock(2, l2);
      var l5: Block := Xor(l4, l1);
      var l6 := MultBlock(2, l3);
      var l7: Block := Xor(l6, l1);
      L := [L[0], l1, l2, l3, l4, l5, l6, l7];
      key := extracted;
    }

    /** The block function of the rounds: offset L[6] from 16 bytes on, L[7] below. */
    function RoundFn(n: nat): Block -> Block
      requires Valid()
      reads this
    {
      BlockFn(aes4, key, I[1], L[if n < 16 then 7 else 6])
    }

    function FlipFn(): Block -> Block
      requires Valid()
      reads this
    {
      BlockFn(aes4, key, I[1], L[3])
    }

    method Encipher(delta: Block, data: seq<bv8>, dst: array<bv8>)
      requires Valid() && |data| < 32 && dst.Length >= |data|
      modifies dst
      ensures Spec.Involutive(Spec.RoundOf(RoundFn(|data|), delta))
      ensures data != [] ==>
                dst[..|data|] == Spec.Encipher(Spec.RoundOf(RoundFn(|data|), delta), FlipFn(), delta, data)
      ensures dst[|data|..] == old(dst[|data|..])
    {
      Spec.RoundOfInvolutive(RoundFn(|data|), delta);
      if data != [] {
        AezTiny.Tiny(RoundFn(|data|), FlipFn(), delta, data, 0, dst);
      }
    }

    method Decipher(delta: Block, data: seq<bv8>, dst: array<bv8>)
      requires Valid() && |data| < 32 && dst.Length >= |data|
      modifies dst
      ensures Spec.Involutive(Spec.RoundOf(RoundFn(|data|), delta))
      ensures data != [] ==>
                dst[..|data|] == Spec.Decipher(Spec.RoundOf(RoundFn(|data|), delta), FlipFn(), delta, data)
      ensures dst[|data|..] == old(dst[|data|..])
    {
      Spec.RoundOfInvolutive(RoundFn(|data|), delta);
      if data != [] {
        AezTiny.Tiny(RoundFn(|data|), FlipFn(), delta, data, 1, dst);
      }
    }

    /** The body of _aez_decrypt once the state is set up; `tag` is the aez_prf output of length tau. */
    method DecryptWith(delta: Block, tag: seq<bv8>, ciphertext: seq<bv8>) returns (plaintext: Option<seq<bv8>>)
      requires Valid() && |ciphertext| < 32
      ensures Spec.Involutive(Spec.RoundOf(RoundFn(|ciphertext|), delta))
      ensures plaintext
           == Decrypted(Spec.RoundOf(RoundFn(|ciphertext|), delta), FlipFn(), delta, tag, ciphertext)
    {
      hide Spec.RoundOf, Spec.Decipher, BlockFn;
      Spec.RoundOfInvolutive(RoundFn(|ciphertext|), delta);
      var tau, x := |tag|, new bv8[|ciphertext|](_ => 0);
      if |ciphertext| == tau {
        return if tag == ciphertext then Some([]) else None;
      }
      Decipher(delta, ciphertext, x);
      assert x[..|ciphertext|] == x[..];
      if !AllZero(LastBytes(x[..], tau)) {
        return None;
      }
      return Some(FirstBytes(x[..], |ciphertext| - tau));
    }
  }

  lemma BlockFnCalls(aes4: Aes4, key: seq<bv8>)
    ensures forall i1: Block, l: Block, b: Block :: BlockFn(aes4, key, i1, l)(b) == aes4(key, Repeat(0, 16), i1, l, b)
  {
  }

  /**
   _aez_decrypt for ciphertexts under 32 bytes. Key extraction, the hash of the associated
   data and the PRF of a bare tag are parameters.
   */
  method Decrypt(aes4: Aes4, extract: seq<bv8> -> seq<bv8>, hash: (seq<bv8>, seq<seq<bv8>>, nat) -> Block,
                 prf: (seq<bv8>, Block, nat) -> seq<bv8>,
                 rawKey: seq<bv8>, ad: seq<seq<bv8>>, tau: nat, ciphertext: seq<bv8>)
      returns (plaintext: Option<seq<bv8>>)
    requires |ciphertext| < 32 && |extract(rawKey)| == 48
    requires |prf(extract(rawKey), hash(extract(rawKey), ad, tau * 8), tau)| == tau
    ensures
      var key, n := extract(rawKey), |ciphertext|;
      var delta, i1 := hash(key, ad, tau * 8), Mult(2, key[0..16]);
      var f := BlockFn(aes4, key, i1, Mult(if n < 16 then 7 else 6, key[32..48]));
      var g := BlockFn(aes4, key, i1, Mult(3, key[32..48]));
      && (forall b: Block :: f(b) == aes4(key, Repeat(0, 16), i1, Mult(if n < 16 then 7 else 6, key[32..48]), b))
      && (forall b: Block :: g(b) == aes4(key, Repeat(0, 16), i1, Mult(3, key[32..48]), b))
      && Spec.Involutive(Spec.RoundOf(f, delta))
      && plaintext == Decrypted(Spec.RoundOf(f, delta), g, delta, prf(key, delta, tau), ciphertext)
  {
    BlockFnCalls(aes4, extract(rawKey));
    hide Mult, Spec.RoundOf, Decrypted, BlockFn, Spec.Involutive;
    var state := new State(aes4);
    state.Init(extract(rawKey));
    var delta := hash(state.key, ad, tau * 8);
    plaintext := state.DecryptWith(delta, prf(state.key, delta, tau), ciphertext);
  }
}
