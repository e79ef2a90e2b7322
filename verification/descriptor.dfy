/** The open-file record `fd_t`: which inode it refers to and where its
    cursor is, and the 6-byte record the descriptor table stores for it.

    The cursor is three fields: `usage` names the addressing tier (direct,
    indirect or double-indirect), `locateOrder` the block within that tier
    and `locateOffset` the byte within that block.
 */
module Descriptor {
  import opened Bytes
  import opened Layout
  import opened Pointers

  datatype Descriptor = Descriptor(inodeNum: byte, usage: byte, locateOrder: u16, locateOffset: u16)

  /** The inode a descriptor refers to; an 8-bit inode number always names
      an inode of the table. */
  function InodeIndex(d: Descriptor): (i: nat)
    ensures i < NumberInodes
  {
    d.inodeNum as nat
  }

  /** ... and every inode of the table can be named by some descriptor. */
  lemma EveryInodeNameable(i: nat)
    requires i < NumberInodes
    ensures exists d: Descriptor :: InodeIndex(d) == i
  {
    assert InodeIndex(Descriptor(i as byte, 1, 0, 0)) == i;
  }

  // ---------------------------------------------------------------------
  // Addressing tiers
  // ---------------------------------------------------------------------

  datatype Tier = Direct | Indirect | DoubleIndirect

  /** The `usage` value of each tier: one of the three low bits. */
  function UsageCode(t: Tier): (u: byte)
    ensures u == 1 || u == 2 || u == 4
  {
    match t
    case Direct => 1
    case Indirect => 2
    case DoubleIndirect => 4
  }

  /** The tier a `usage` byte names. Only its low three bits are read;
      a low part that is not exactly one of the three tier bits names no
      tier. */
  function TierOf(usage: byte): (t: Option<Tier>)
    ensures t.Some? <==> LowBits(usage) == 1 || LowBits(usage) == 2 || LowBits(usage) == 4
  {
    var low := LowBits(usage);
    if low == 1 then Some(Direct)
    else if low == 2 then Some(Indirect)
    else if low == 4 then Some(DoubleIndirect)
    else None
  }

  /** The low three bits of a usage byte. */
  function LowBits(usage: byte): (low: nat)
    ensures low < 8
  {
    usage as nat % 8
  }

  lemma UsageRoundTrip(t: Tier, usage: byte)
    ensures TierOf(UsageCode(t)) == Some(t)
    ensures TierOf(usage) == Some(t) ==> LowBits(usage) == UsageCode(t) as nat
  {
  }

  /** Bits above the third do not change the tier. */
  lemma TierIgnoresHighBits(usage: byte, high: nat)
    requires usage as nat + 8 * high < 0x100
    ensures TierOf((usage as nat + 8 * high) as byte) == TierOf(usage)
  {
    assert LowBits((usage as nat + 8 * high) as byte) == LowBits(usage);
  }

  /** File blocks reached before the tier: 6 direct, then 512 through the
      indirect block, then the double-indirect tier. */
  function TierBase(t: Tier): nat {
    match t
    case Direct => 0
    case Indirect => DirectPointers
    case DoubleIndirect => DirectPointers + PointersPerBlock
  }

  /** Blocks the tier addresses: 6 direct pointers, one pointer block of
      512 16-bit pointers, or 512 pointer blocks of 512 pointers each. */
  function TierSpan(t: Tier): nat {
    match t
    case Direct => DirectPointers
    case Indirect => PointersPerBlock
    case DoubleIndirect => PointersPerBlock * PointersPerBlock
  }

  /** The cursor names a tier, a block inside that tier, and a byte inside
      that block. */
  predicate CursorValid(d: Descriptor) {
    && TierOf(d.usage).Some?
    && (d.locateOrder as nat) < TierSpan(TierOf(d.usage).value)
    && (d.locateOffset as nat) < BlockBytes
  }

  /** The byte of the file the cursor designates: the byte
      `locateOffset` of file block `base(tier) + locateOrder`. */
  function CursorByte(d: Descriptor): (pos: nat)
    requires CursorValid(d)
    ensures pos % BlockBytes == d.locateOffset as nat
    ensures TierBase(TierOf(d.usage).value) <= pos / BlockBytes
    ensures pos / BlockBytes < TierBase(TierOf(d.usage).value) + TierSpan(TierOf(d.usage).value)
  {
    var t := TierOf(d.usage).value;
    var blk := TierBase(t) + d.locateOrder as nat;
    DivMod(blk, d.locateOffset as nat);
    blk * BlockBytes + d.locateOffset as nat
  }

  lemma DivMod(q: nat, r: nat)
    requires r < BlockBytes
    ensures (q * BlockBytes + r) / BlockBytes == q
    ensures (q * BlockBytes + r) % BlockBytes == r
  {
  }

  /** The first file byte a 16-bit `locateOrder` cannot reach: the order
      spans 65536 blocks of the double-indirect tier. */
  const CursorLimit: nat := (DirectPointers + PointersPerBlock + 0x1_0000) * BlockBytes

  /** The cursor of a descriptor on inode `inodeNum` that designates file
      byte `pos`. */
  function CursorAt(inodeNum: byte, pos: nat): (d: Descriptor)
    requires pos < CursorLimit
    ensures d.inodeNum == inodeNum
    ensures CursorValid(d) && CursorByte(d) == pos
  {
    var blk := pos / BlockBytes;
    var rem := pos % BlockBytes;
    SplitByte(pos, DirectPointers + PointersPerBlock + 0x1_0000);
    var t := if blk < DirectPointers then Direct
             else if blk < DirectPointers + PointersPerBlock then Indirect
             else DoubleIndirect;
    var d := Descriptor(inodeNum, UsageCode(t), (blk - TierBase(t)) as u16, rem as u16);
    assert TierOf(d.usage) == Some(t);
    assert CursorByte(d) == blk * BlockBytes + rem;
    d
  }

  lemma SplitByte(pos: nat, blocks: nat)
    requires pos < blocks * BlockBytes
    ensures pos == (pos / BlockBytes) * BlockBytes + pos % BlockBytes
    ensures pos % BlockBytes < BlockBytes
    ensures pos / BlockBytes < blocks
  {
  }

  /** Usage, order and offset together identify one byte: two valid
      cursors designate the same byte only if they name the same tier,
      the same block in it and the same offset. */
  lemma CursorIdentifiesByte(a: Descriptor, b: Descriptor)
    requires CursorValid(a) && CursorValid(b)
    requires CursorByte(a) == CursorByte(b)
    ensures TierOf(a.usage) == TierOf(b.usage)
    ensures a.locateOrder == b.locateOrder
    ensures a.locateOffset == b.locateOffset
  {
    var ta, tb := TierOf(a.usage).value, TierOf(b.usage).value;
    var pos := CursorByte(a);
    assert pos / BlockBytes == TierBase(ta) + a.locateOrder as nat by {
      DivMod(TierBase(ta) + a.locateOrder as nat, a.locateOffset as nat);
    }
    assert pos / BlockBytes == TierBase(tb) + b.locateOrder as nat by {
      DivMod(TierBase(tb) + b.locateOrder as nat, b.locateOffset as nat);
    }
  }

  // ---------------------------------------------------------------------
  // The 6-byte record: inode number, usage, order and offset, the two
  // 16-bit fields little-endian. The declaration has no padding.
  // ---------------------------------------------------------------------

  function Encode(d: Descriptor): (b: seq<byte>)
    ensures |b| == FdSize
    ensures b[0] == d.inodeNum && b[1] == d.usage
  {
    [d.inodeNum, d.usage] + U16ToLE(d.locateOrder) + U16ToLE(d.locateOffset)
  }

  function Decode(b: seq<byte>): (d: Descriptor)
    requires |b| == FdSize
    ensures d.inodeNum == b[0] && d.usage == b[1]
  {
    Descriptor(b[0], b[1], U16FromLE(b[2..4]), U16FromLE(b[4..6]))
  }

  /** Records and descriptors are in one-to-one correspondence. */
  lemma DecodeEncode(d: Descriptor)
    ensures Decode(Encode(d)) == d
  {
    var b := Encode(d);
    assert b[2..4] == U16ToLE(d.locateOrder);
    assert b[4..6] == U16ToLE(d.locateOffset);
    U16RoundTrip(d.locateOrder, b[2..4]);
    U16RoundTrip(d.locateOffset, b[4..6]);
  }

  lemma EncodeDecode(b: seq<byte>)
    requires |b| == FdSize
    ensures Encode(Decode(b)) == b
  {
    U16RoundTrip(0, b[2..4]);
    U16RoundTrip(0, b[4..6]);
    assert b == [b[0], b[1]] + b[2..4] + b[4..6];
  }

  /** The all-zero record, what a fresh table holds in every slot, is a
      descriptor on inode 0 whose usage names no tier. */
  lemma ZeroRecord()
    ensures Decode(Zeros(FdSize)) == Descriptor(0, 0, 0, 0)
    ensures TierOf(0).None?
  {
    var z := Zeros(FdSize);
    Pow256Widths();
    assert FromLE(z[2..4]) == 0;
    assert FromLE(z[4..6]) == 0;
  }
}
