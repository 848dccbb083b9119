/** xor_at: undoing the repeating-key obfuscation of block files, piece by piece. */
module XorKey {
  import opened Bytes

  function XorAt(data: seq<bv8>, key: seq<bv8>, offset: nat): (r: seq<bv8>)
    ensures |r| == |data|
  {
    if key == [] || data == [] then data
    else seq(|data|, i requires 0 <= i < |data| => data[i] ^ KeyByte(key, offset + i))
  }

  function KeyByte(key: seq<bv8>, pos: nat): bv8
    requires key != []
  {
    key[pos % |key|]
  }

  /** Applying the key twice at the same offset restores the data. */
  lemma XorTwice(data: seq<bv8>, key: seq<bv8>, offset: nat)
    ensures XorAt(XorAt(data, key, offset), key, offset) == data
  {
    if key != [] {
      var once := XorAt(data, key, offset);
      forall i | 0 <= i < |data| ensures XorAt(once, key, offset)[i] == data[i] {
        var k := KeyByte(key, offset + i);
        assert (data[i] ^ k) ^ k == data[i];
      }
    }
  }

  /** Reading a file in pieces and de-obfuscating each at its own offset gives the de-obfuscated file. */
  lemma XorPieces(a: seq<bv8>, b: seq<bv8>, key: seq<bv8>, offset: nat)
    ensures XorAt(a + b, key, offset) == XorAt(a, key, offset) + XorAt(b, key, offset + |a|)
  {
    hide KeyByte;
    if key != [] {
      forall i | 0 <= i < |a + b|
        ensures XorAt(a + b, key, offset)[i] == (XorAt(a, key, offset) + XorAt(b, key, offset + |a|))[i]
      {
        if i >= |a| {
          assert (offset + |a|) + (i - |a|) == offset + i;
        }
      }
    }
  }

  /** So a piece read from the middle of a file is that piece of the de-obfuscated file. */
  lemma XorPiece(file: seq<bv8>, key: seq<bv8>, lo: nat, hi: nat)
    requires lo <= hi
    ensures lo <= |file| ==> XorAt(Slice(file, lo, hi), key, lo) == Slice(XorAt(file, key, 0), lo, hi)
  {
    if lo <= |file| {
      var a, b, c := file[..lo], Slice(file, lo, hi), file[Min(hi, |file|)..];
      assert file == a + (b + c);
      XorPieces(a, b + c, key, 0);
      XorPieces(b, c, key, lo);
    }
  }
}
