/** The inode record `inode_t`: its fields, what they may hold, and the
    64-byte record the inode table stores for it.

    The byte layout is the one the C declaration gets on a little-endian
    LP64 target with natural alignment: `entryBitmap` at 0, `owner` at 4,
    `fileType` at 22, one padding byte at 23, the three `size_t` fields at
    24, 32 and 40, the six direct pointers at 48, the indirect pointer at 60
    and the double-indirect pointer at 62.
 */
module Inode {
  import opened Bytes
  import opened Layout
  import opened Pointers

  const OwnerBytes: nat := 18
  /** Bit positions of the directory entry-occupancy map. */
  const EntryBits: nat := 32

  /** The two kinds of file an inode describes, tagged by `fileType`. */
  datatype FileKind = Regular | Directory

  const RegularTag: byte := 0x72    // 'r'
  const DirectoryTag: byte := 0x64  // 'd'

  function KindTag(k: FileKind): (tag: byte)
    ensures tag == RegularTag || tag == DirectoryTag
  {
    match k
    case Regular => RegularTag
    case Directory => DirectoryTag
  }

  /** The kind a `fileType` byte names; any byte other than 'r' and 'd'
      names none. */
  function KindOf(tag: byte): (k: Option<FileKind>)
    ensures k.Some? <==> tag == RegularTag || tag == DirectoryTag
  {
    if tag == RegularTag then Some(Regular)
    else if tag == DirectoryTag then Some(Directory)
    else None
  }

  /** The tag and the kind determine each other. */
  lemma KindTagRoundTrip(k: FileKind, tag: byte)
    ensures KindOf(KindTag(k)) == Some(k)
    ensures KindOf(tag) == Some(k) ==> KindTag(k) == tag
  {
  }

  datatype Inode = Inode(
    entryBitmap: u32,
    owner: seq<byte>,
    fileType: byte,
    inodeNumber: u64,
    fileSize: u64,
    linkCount: u64,
    directPointer: seq<u16>,
    indirectPointer: u16,
    doubleIndirectPointer: u16)
  {
    /** The fixed-length arrays have their declared lengths. */
    predicate WellFormed() {
      |owner| == OwnerBytes && |directPointer| == DirectPointers
    }
  }

  /** Every block pointer the inode carries, in addressing order: the six
      direct pointers, the indirect pointer, the double-indirect pointer.
      Each is a 16-bit value, so it names a block of the store. */
  function BlockPointers(ino: Inode): (ps: seq<nat>)
    requires ino.WellFormed()
    ensures |ps| == DirectPointers + 2
    ensures forall i :: 0 <= i < |ps| ==> ps[i] < NumBlocks
    ensures forall i :: 0 <= i < DirectPointers ==> ps[i] == ino.directPointer[i] as nat
    ensures ps[DirectPointers] == ino.indirectPointer as nat
    ensures ps[DirectPointers + 1] == ino.doubleIndirectPointer as nat
  {
    seq(DirectPointers, i requires 0 <= i < DirectPointers => ino.directPointer[i] as nat)
      + [ino.indirectPointer as nat, ino.doubleIndirectPointer as nat]
  }

  // ---------------------------------------------------------------------
  // The directory entry-occupancy map
  // ---------------------------------------------------------------------

  /** The n low bits of x, least significant first. */
  function BitsOf(x: nat, n: nat): (bits: seq<bool>)
    ensures |bits| == n
  {
    if n == 0 then [] else [x % 2 == 1] + BitsOf(x / 2, n - 1)
  }

  /** The number whose bits, least significant first, are `bits`. */
  function FromBits(bits: seq<bool>): (x: nat)
    ensures x < Pow2(|bits|)
  {
    if |bits| == 0 then 0
    else (if bits[0] then 1 else 0) + 2 * FromBits(bits[1..])
  }

  function Pow2(n: nat): (p: nat)
    ensures p > 0
  {
    if n == 0 then 1 else 2 * Pow2(n - 1)
  }

  lemma {:induction false} FromBitsOf(x: nat, n: nat)
    requires x < Pow2(n)
    ensures FromBits(BitsOf(x, n)) == x
  {
    if n > 0 {
      FromBitsOf(x / 2, n - 1);
      assert BitsOf(x, n)[1..] == BitsOf(x / 2, n - 1);
    }
  }

  lemma {:induction false} BitsOfFrom(bits: seq<bool>)
    ensures BitsOf(FromBits(bits), |bits|) == bits
  {
    if |bits| > 0 {
      var x := FromBits(bits);
      BitsOfFrom(bits[1..]);
      assert x / 2 == FromBits(bits[1..]);
      assert BitsOf(x, |bits|) == [bits[0]] + bits[1..];
    }
  }

  lemma Pow2Of32()
    ensures Pow2(EntryBits) == 0x1_0000_0000
  {
    assert Pow2(8) == 0x100;
    assert Pow2(16) == 0x1_0000;
    assert Pow2(24) == 0x100_0000;
  }

  /** The entry-occupancy map of a directory inode, one flag per entry slot;
      an inode that is not a directory has none. */
  function EntryMap(ino: Inode): (m: Option<seq<bool>>)
    ensures m.Some? <==> KindOf(ino.fileType) == Some(Directory)
    ensures m.Some? ==> |m.value| == EntryBits
  {
    if KindOf(ino.fileType) == Some(Directory) then Some(BitsOf(ino.entryBitmap as nat, EntryBits))
    else None
  }

  /** The 32-bit field stores any occupancy map of 32 flags, and the map
      read back from the field is the one stored. */
  function WithEntryMap(ino: Inode, flags: seq<bool>): (ino': Inode)
    requires |flags| == EntryBits
    ensures ino'.entryBitmap as nat == FromBits(flags)
    ensures ino' == ino.(entryBitmap := ino'.entryBitmap)
  {
    Pow2Of32();
    ino.(entryBitmap := FromBits(flags) as u32)
  }

  lemma EntryMapRoundTrip(ino: Inode, flags: seq<bool>)
    requires KindOf(ino.fileType) == Some(Directory)
    requires |flags| == EntryBits
    ensures EntryMap(WithEntryMap(ino, flags)) == Some(flags)
  {
    BitsOfFrom(flags);
  }

  lemma EntryFieldRoundTrip(ino: Inode)
    requires KindOf(ino.fileType) == Some(Directory)
    ensures WithEntryMap(ino, EntryMap(ino).value) == ino
  {
    Pow2Of32();
    FromBitsOf(ino.entryBitmap as nat, EntryBits);
  }

  // ---------------------------------------------------------------------
  // The 64-byte record
  // ---------------------------------------------------------------------

  const PadOffset: nat := 23

  function EncodePointers(ps: seq<u16>): (b: seq<byte>)
    ensures |b| == 2 * |ps|
  {
    if |ps| == 0 then [] else U16ToLE(ps[0]) + EncodePointers(ps[1..])
  }

  function DecodePointers(b: seq<byte>): (ps: seq<u16>)
    requires |b| % 2 == 0
    ensures 2 * |ps| == |b|
  {
    if |b| == 0 then [] else [U16FromLE(b[..2])] + DecodePointers(b[2..])
  }

  lemma {:induction false} PointersRoundTrip(ps: seq<u16>)
    ensures DecodePointers(EncodePointers(ps)) == ps
  {
    if |ps| > 0 {
      var b := EncodePointers(ps);
      U16RoundTrip(ps[0], b[..2]);
      assert b[..2] == U16ToLE(ps[0]);
      assert b[2..] == EncodePointers(ps[1..]);
      PointersRoundTrip(ps[1..]);
    }
  }

  lemma {:induction false} PointerBytesRoundTrip(b: seq<byte>)
    requires |b| % 2 == 0
    ensures EncodePointers(DecodePointers(b)) == b
  {
    if |b| > 0 {
      var ps := DecodePointers(b);
      U16RoundTrip(0, b[..2]);
      assert ps[1..] == DecodePointers(b[2..]);
      PointerBytesRoundTrip(b[2..]);
      assert b == b[..2] + b[2..];
    }
  }

  /** The 64 bytes the inode table holds for an inode. */
  function Encode(ino: Inode): (b: seq<byte>)
    requires ino.WellFormed()
    ensures |b| == InodeSize
    ensures b[PadOffset] == 0
  {
    U32ToLE(ino.entryBitmap) + ino.owner + [ino.fileType, 0]
      + U64ToLE(ino.inodeNumber) + U64ToLE(ino.fileSize) + U64ToLE(ino.linkCount)
      + EncodePointers(ino.directPointer)
      + U16ToLE(ino.indirectPointer) + U16ToLE(ino.doubleIndirectPointer)
  }

  /** The inode a 64-byte record holds; every record decodes to an inode
      with exactly six direct pointers and an 18-byte owner field. */
  function Decode(b: seq<byte>): (ino: Inode)
    requires |b| == InodeSize
    ensures ino.WellFormed()
  {
    Inode(
      U32FromLE(b[0..4]),
      b[4..22],
      b[22],
      U64FromLE(b[24..32]),
      U64FromLE(b[32..40]),
      U64FromLE(b[40..48]),
      DecodePointers(b[48..60]),
      U16FromLE(b[60..62]),
      U16FromLE(b[62..64]))
  }

  /** An inode written as a record reads back as the same inode. */
  lemma DecodeEncode(ino: Inode)
    requires ino.WellFormed()
    ensures Decode(Encode(ino)) == ino
  {
    var b := Encode(ino);
    assert b[0..4] == U32ToLE(ino.entryBitmap);
    assert b[4..22] == ino.owner;
    assert b[24..32] == U64ToLE(ino.inodeNumber);
    assert b[32..40] == U64ToLE(ino.fileSize);
    assert b[40..48] == U64ToLE(ino.linkCount);
    assert b[48..60] == EncodePointers(ino.directPointer);
    assert b[60..62] == U16ToLE(ino.indirectPointer);
    assert b[62..64] == U16ToLE(ino.doubleIndirectPointer);
    U32RoundTrip(ino.entryBitmap, b[0..4]);
    U64RoundTrip(ino.inodeNumber, b[24..32]);
    U64RoundTrip(ino.fileSize, b[32..40]);
    U64RoundTrip(ino.linkCount, b[40..48]);
    U16RoundTrip(ino.indirectPointer, b[60..62]);
    U16RoundTrip(ino.doubleIndirectPointer, b[62..64]);
    PointersRoundTrip(ino.directPointer);
  }

  /** A record read as an inode and written back is the same record, except
      that the padding byte comes back as zero. */
  lemma EncodeDecode(b: seq<byte>)
    requires |b| == InodeSize
    ensures Encode(Decode(b)) == b[PadOffset := 0]
  {
    var ino := Decode(b);
    U32RoundTrip(0, b[0..4]);
    U64RoundTrip(0, b[24..32]);
    U64RoundTrip(0, b[32..40]);
    U64RoundTrip(0, b[40..48]);
    U16RoundTrip(0, b[60..62]);
    U16RoundTrip(0, b[62..64]);
    PointerBytesRoundTrip(b[48..60]);
    assert Encode(ino) == b[0..4] + b[4..22] + [b[22], 0] + b[24..32] + b[32..40]
      + b[40..48] + b[48..60] + b[60..62] + b[62..64];
    RecordPieces(b);
  }

  /** A record with its padding byte zeroed, cut at the field boundaries. */
  lemma RecordPieces(b: seq<byte>)
    requires |b| == InodeSize
    ensures b[PadOffset := 0] == b[0..4] + b[4..22] + [b[22], 0] + b[24..32] + b[32..40]
      + b[40..48] + b[48..60] + b[60..62] + b[62..64]
  {
    var z := b[PadOffset := 0];
    assert z == z[..24] + z[24..];
    assert z[..24] == b[0..4] + b[4..22] + [b[22], 0];
    assert z[24..] == b[24..];
    assert b[24..] == b[24..32] + b[32..40] + b[40..48] + b[48..60] + b[60..62] + b[62..64];
  }
}
