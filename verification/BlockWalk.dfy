/**
 The transaction walk of create_address_db over the bytes of one block: varints, BIP-144
 transactions, and the output scripts whose hashes are added.

 The walk is given first as functions over (bytes, offset), with Python's exceptions as
 results, then as the loops of the code proved equal to them.
 */
module BlockWalk {
  import opened Bits
  import opened Bytes

  // ---------------------------------------------------------------- varints

  datatype Error = IndexError | StructError

  datatype Num = Num(value: nat, off: nat) | NumError(error: Error)

  function LittleEndian(b: seq<bv8>): nat {
    if b == [] then 0 else IntOfByte(b[0]) + 256 * LittleEndian(b[1..])
  }

  /** struct.unpack_from of an unsigned little-endian number of n bytes. */
  function Unpack(data: seq<bv8>, off: nat, n: nat): Num {
    if off + n <= |data| then Num(LittleEndian(data[off..off + n]), off + n) else NumError(StructError)
  }

  function Varint(data: seq<bv8>, off: nat): Num {
    if off >= |data| then NumError(IndexError)
    else
      var b := IntOfByte(data[off]);
      if b <= 252 then Num(b, off + 1)
      else if b == 253 then Unpack(data, off + 1, 2)
      else if b == 254 then Unpack(data, off + 1, 4)
      else Unpack(data, off + 1, 8)
  }

  // ---------------------------------------------------------------- the walk as functions

  /** A position, or an error; an IndexError remembers how far the offset had come. */
  datatype Pos = At(off: nat) | Index(off: nat) | Struct

  /** A position and the hashes added so far, or an error and the hashes added before it. */
  datatype Walk = Walking(off: nat, adds: seq<seq<bv8>>) | Failed(error: Error, adds: seq<seq<bv8>>)

  function Inputs(data: seq<bv8>, off: nat, n: nat): Pos
    decreases n
  {
    if n == 0 then At(off)
    else match Varint(data, off + 36)
      case Num(len, off') => Inputs(data, off' + len + 4, n - 1)
      case NumError(IndexError) => Index(off)
      case NumError(StructError) => Struct
  }

  const P2PKH_PREFIX: seq<bv8> := [0x76, 0xa9, 0x14]
  const P2PKH_SUFFIX: seq<bv8> := [0x88, 0xac]
  const P2SH_PREFIX: seq<bv8> := [0xa9, 0x14]
  const P2WPKH_PREFIX: seq<bv8> := [0x00, 0x14]
  const P2TR_PREFIX: seq<bv8> := [0x51, 0x20]

  /** What the code adds for a script of length len starting at off: the last three tests ignore len. */
  function AddedAt(data: seq<bv8>, off: nat, len: nat): seq<seq<bv8>> {
    if len == 25 && Slice(data, off, off + 3) == P2PKH_PREFIX && Slice(data, off + 23, off + 25) == P2PKH_SUFFIX then
      [Slice(data, off + 3, off + 23)]
    else if Slice(data, off, off + 2) == P2SH_PREFIX then [Slice(data, off + 2, off + 22)]
    else if Slice(data, off, off + 2) == P2WPKH_PREFIX then [Slice(data, off + 2, off + 22)]
    else if Slice(data, off, off + 2) == P2TR_PREFIX then [Slice(data, off + 2, off + 34)]
    else []
  }

  function Outputs(data: seq<bv8>, off: nat, n: nat, adds: seq<seq<bv8>>): Walk
    decreases n
  {
    if n == 0 then Walking(off, adds)
    else match Varint(data, off + 8)
      case Num(len, off') => Outputs(data, off' + len, n - 1, adds + AddedAt(data, off', len))
      case NumError(e) => Failed(e, adds)
  }

  function StackItems(data: seq<bv8>, off: nat, n: nat): Pos
    decreases n
  {
    if n == 0 then At(off)
    else match Varint(data, off)
      case Num(len, off') => StackItems(data, off' + len, n - 1)
      case NumError(IndexError) => Index(off)
      case NumError(StructError) => Struct
  }

  /** The witness of one input; an IndexError is caught by the caller, other errors are not. */
  function Witness(data: seq<bv8>, off: nat): Pos {
    match Varint(data, off)
    case Num(count, off') => StackItems(data, off', count)
    case NumError(IndexError) => Index(off)
    case NumError(StructError) => Struct
  }

  function Witnesses(data: seq<bv8>, off: nat, n: nat): Pos
    decreases n
  {
    if n == 0 then At(off)
    else match Witness(data, off)
      case At(off') => Witnesses(data, off', n - 1)
      case Index(off') => Witnesses(data, off', n - 1)
      case Struct => Struct
  }

  function Transaction(data: seq<bv8>, off: nat, adds: seq<seq<bv8>>): Walk {
    if off + 4 >= |data| then Failed(IndexError, adds)
    else
      var bip144 := data[off + 4] == 0;
      match Varint(data, if bip144 then off + 6 else off + 4)
      case NumError(e) => Failed(e, adds)
      case Num(nIn, off1) =>
        match Inputs(data, off1, nIn)
        case Index(_) => Failed(IndexError, adds)
        case Struct => Failed(StructError, adds)
        case At(off2) =>
          match Varint(data, off2)
          case NumError(e) => Failed(e, adds)
          case Num(nOut, off3) =>
            match Outputs(data, off3, nOut, adds)
            case Failed(e, adds') => Failed(e, adds')
            case Walking(off4, adds') =>
              if !bip144 then Walking(off4 + 4, adds')
              else match Witnesses(data, off4, nIn)
                case At(off5) => Walking(off5 + 4, adds')
                case Index(_) => Failed(IndexError, adds')
                case Struct => Failed(StructError, adds')
  }

  function Transactions(data: seq<bv8>, off: nat, n: nat, adds: seq<seq<bv8>>): Walk
    decreases n
  {
    if n == 0 then Walking(off, adds)
    else match Transaction(data, off, adds)
      case Walking(off', adds') => Transactions(data, off', n - 1, adds')
      case Failed(e, adds') => Failed(e, adds')
  }

  /** A whole block: 80 header bytes, the transaction count, the transactions. */
  function ParseBlock(data: seq<bv8>): Walk {
    match Varint(data, 80)
    case Num(n, off) => Transactions(data, off, n, [])
    case NumError(e) => Failed(e, [])
  }

  // ---------------------------------------------------------------- the walk as loops

  method WalkInputs(data: seq<bv8>, start: nat, n: nat) returns (p: Pos)
    ensures p == Inputs(data, start, n)
  {
    var off: nat := start;
    for i := 0 to n
      invariant Inputs(data, start, n) == Inputs(data, off, n - i)
    {
      var num := Varint(data, off + 36);
      if num.NumError? {
        return if num.error == IndexError then Index(off) else Struct;
      }
      off := num.off;
      off := off + num.value + 4;
    }
    return At(off);
  }

  method WalkOutputs(data: seq<bv8>, start: nat, n: nat, before: seq<seq<bv8>>) returns (w: Walk)
    ensures w == Outputs(data, start, n, before)
  {
    hide Varint, Slice;
    var off: nat, adds := start, before;
    for i := 0 to n
      invariant Outputs(data, start, n, before) == Outputs(data, off, n - i, adds)
    {
      var num := Varint(data, off + 8);
      if num.NumError? {
        return Failed(num.error, adds);
      }
      var len := num.value;
      off := num.off;
      if len == 25 && Slice(data, off, off + 3) == P2PKH_PREFIX && Slice(data, off + 23, off + 25) == P2PKH_SUFFIX {
        adds := adds + [Slice(data, off + 3, off + 23)];
      } else if Slice(data, off, off + 2) == P2SH_PREFIX {
        adds := adds + [Slice(data, off + 2, off + 22)];
      } else if Slice(data, off, off + 2) == P2WPKH_PREFIX {
        adds := adds + [Slice(data, off + 2, off + 22)];
      } else if Slice(data, off, off + 2) == P2TR_PREFIX {
        adds := adds + [Slice(data, off + 2, off + 34)];
      } else {
        assert adds + [] == adds;
      }
      off := off + len;
    }
    return Walking(off, adds);
  }

  method WalkWitnesses(data: seq<bv8>, start: nat, n: nat) returns (p: Pos)
    ensures p == Witnesses(data, start, n)
  {
    var off: nat := start;
    for i := 0 to n
      invariant Witnesses(data, start, n) == Witnesses(data, off, n - i)
    {
      var num := Varint(data, off);
      if num.Num? {
        off := num.off;
        p := WalkStackItems(data, off, num.value);
        if p.Struct? {
          return Struct;
        }
        off := p.off;
      } else if num.error == StructError {
        return Struct;
      }
    }
    return At(off);
  }

  method WalkStackItems(data: seq<bv8>, start: nat, n: nat) returns (p: Pos)
    ensures p == StackItems(data, start, n)
  {
    var off: nat := start;
    for i := 0 to n
      invariant StackItems(data, start, n) == StackItems(data, off, n - i)
    {
      var num := Varint(data, off);
      if num.NumError? {
        return if num.error == IndexError then Index(off) else Struct;
      }
      off := num.off;
      off := off + num.value;
    }
    return At(off);
  }

  /** One pass of the transaction loop. */
  method WalkTransaction(data: seq<bv8>, start: nat, before: seq<seq<bv8>>) returns (w: Walk)
    ensures w == Transaction(data, start, before)
  {
    hide Varint, Inputs, Outputs, Witnesses;
    var off: nat, adds := start + 4, before;
    if off >= |data| {
      return Failed(IndexError, adds);
    }
    var bip144 := data[off] == 0;
    if bip144 {
      off := off + 2;
    }
    var nIn := Varint(data, off);
    if nIn.NumError? {
      return Failed(nIn.error, adds);
    }
    var ins := WalkInputs(data, nIn.off, nIn.value);
    if !ins.At? {
      return Failed(if ins.Index? then IndexError else StructError, adds);
    }
    var nOut := Varint(data, ins.off);
    if nOut.NumError? {
      return Failed(nOut.error, adds);
    }
    var outs := WalkOutputs(data, nOut.off, nOut.value, adds);
    if outs.Failed? {
      return outs;
    }
    off, adds := outs.off, outs.adds;
    if bip144 {
      var wits := WalkWitnesses(data, off, nIn.value);
      if !wits.At? {
        return Failed(if wits.Index? then IndexError else StructError, adds);
      }
      off := wits.off;
    }
    return Walking(off + 4, adds);
  }

  /** The time field of the block header. */
  function BlockTime(data: seq<bv8>): nat {
    LittleEndian(Slice(data, 68, 72))
  }

  /**
   The walk of a block, which skips the transactions outside the dates asked for: `inWindow` tells
   whether a block time lies between them.
   */
  function Windowed(data: seq<bv8>, inWindow: nat -> bool): Walk {
    if Varint(data, 80).Num? && !inWindow(BlockTime(data)) then Walking(Varint(data, 80).off, [])
    else ParseBlock(data)
  }

  method WalkBlock(data: seq<bv8>, inWindow: nat -> bool) returns (w: Walk)
    ensures w == Windowed(data, inWindow)
  {
    hide Varint, Transaction;
    var num := Varint(data, 80);
    if num.NumError? {
      return Failed(num.error, []);
    }
    w := Walking(num.off, []);
    if inWindow(BlockTime(data)) {
      for i := 0 to num.value
        invariant w.Walking? && ParseBlock(data) == Transactions(data, w.off, num.value - i, w.adds)
      {
        w := WalkTransaction(data, w.off, w.adds);
        if w.Failed? {
          return;
        }
      }
    }
  }
}
