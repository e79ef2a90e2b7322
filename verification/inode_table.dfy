/** The inode table: 256 records of 64 bytes overlaid on the 16 inode-table
    blocks, with a 256-bit occupancy bitmap overlaid on the inode-bitmap
    block. Read, write and release work on one record by inode number. */
module InodeTable {
  import opened Bytes
  import opened Pointers
  import opened Layout
  import RT = RecordTable
  import Inode

  /** A table of this capacity and record size. */
  predicate Valid(t: RT.Table) {
    t.Valid() && t.count == NumberInodes && t.size == InodeSize
  }

  /** A NULL handle, or a handle to a well-formed inode table. */
  predicate Handle(bs: Ptr<RT.Table>) {
    bs.Ref? ==> Valid(bs.target)
  }

  /** Overlay the table on the bytes of the inode-table blocks and its
      bitmap on the bits of the inode-bitmap block. `gotHandle` is whether
      the handle could be allocated; if not, the result is NULL. */
  function Create(bitmap: seq<bool>, blocks: seq<byte>, gotHandle: bool): (bs: Ptr<RT.Table>)
    requires |bitmap| >= NumberInodes
    requires |blocks| >= InodeTableBlocks * BlockBytes
    ensures bs.Ref? <==> gotHandle
    ensures Handle(bs)
    ensures bs.Ref? ==>
              && |bs.target.used| == NumberInodes
              && bs.target.used == bitmap[.. NumberInodes]
              && bs.target.data == blocks[.. InodeTableBlocks * BlockBytes]
    ensures bs.Ref? ==> forall id :: 0 <= id < NumberInodes ==>
              RT.Slot(bs.target, id) == blocks[id * InodeSize .. id * InodeSize + InodeSize]
  {
    if !gotHandle then Null
    else
      var t := RT.Table(NumberInodes, InodeSize, blocks[.. NumberInodes * InodeSize], bitmap[.. NumberInodes]);
      assert forall id :: 0 <= id < NumberInodes ==> id * InodeSize + InodeSize <= NumberInodes * InodeSize;
      Ref(t)
  }

  /** Copy inode `id` into the caller's buffer. Returns the number of bytes
      read, 64, or 0 on error: a NULL handle or buffer, or an inode number
      past the table. */
  function Read(bs: Ptr<RT.Table>, id: nat, buffer: Ptr<seq<byte>>): (r: RT.Copy)
    requires Handle(bs)
    requires bs.Ref? && buffer.Ref? && id < NumberInodes ==> |buffer.target| >= InodeSize
    ensures r.count == InodeSize || r.count == 0
    ensures r.count == InodeSize <==> bs.Ref? && buffer.Ref? && id < NumberInodes
    ensures r.count == 0 ==> r.buffer == buffer
    ensures r.count == InodeSize ==>
              && r.buffer.Ref?
              && |r.buffer.target| == |buffer.target|
              && r.buffer.target[.. InodeSize] == RT.Slot(bs.target, id)
              && r.buffer.target[InodeSize ..] == buffer.target[InodeSize ..]
  {
    RT.Read(bs, id, buffer)
  }

  /** Copy the caller's buffer into inode `id`. Returns the number of bytes
      written, 64, or 0 on error, in which case the table is unchanged. */
  function Write(bs: Ptr<RT.Table>, id: nat, buffer: Ptr<seq<byte>>): (r: RT.Update)
    requires Handle(bs)
    requires bs.Ref? && buffer.Ref? && id < NumberInodes ==> |buffer.target| >= InodeSize
    ensures r.count == InodeSize || r.count == 0
    ensures r.count == InodeSize <==> bs.Ref? && buffer.Ref? && id < NumberInodes
    ensures r.count == 0 ==> r.table == bs
    ensures Handle(r.table) && (r.table.Ref? <==> bs.Ref?)
    ensures r.count == InodeSize ==>
              && r.table.target.used == bs.target.used
              && RT.Slot(r.table.target, id) == buffer.target[.. InodeSize]
  {
    RT.Write(bs, id, buffer)
  }

  /** Free inode `id`: clear its bit if set. The record bytes and every
      other bit are kept. A NULL handle or an inode number past the table
      changes nothing. */
  function Release(bs: Ptr<RT.Table>, id: nat): (r: Ptr<RT.Table>)
    requires Handle(bs)
    ensures Handle(r)
    ensures bs.Null? || id >= NumberInodes ==> r == bs
    ensures bs.Ref? && id < NumberInodes ==>
              && r.Ref?
              && r.target.data == bs.target.data
              && !r.target.used[id]
              && (forall j :: 0 <= j < NumberInodes && j != id ==> r.target.used[j] == bs.target.used[j])
  {
    RT.ReleaseAt(bs, id)
  }

  /** Write-then-read of the same inode number returns the 64 bytes written. */
  lemma WriteThenRead(t: RT.Table, id: nat, rec: seq<byte>, buffer: seq<byte>)
    requires Valid(t) && id < NumberInodes
    requires |rec| == InodeSize && |buffer| >= InodeSize
    ensures var w := Write(Ref(t), id, Ref(rec));
            && w.count == InodeSize
            && var rd := Read(w.table, id, Ref(buffer));
               rd.count == InodeSize && rd.buffer.target[.. InodeSize] == rec
  {
  }

  /** A write to inode `id` leaves what every other inode reads as, and the
      bitmap, unchanged. */
  lemma WriteKeepsOthers(t: RT.Table, id: nat, rec: seq<byte>, j: nat, buffer: seq<byte>)
    requires Valid(t) && id < NumberInodes && j < NumberInodes && j != id
    requires |rec| == InodeSize && |buffer| >= InodeSize
    ensures var w := Write(Ref(t), id, Ref(rec));
            && w.table.target.used == t.used
            && Read(w.table, j, Ref(buffer)) == Read(Ref(t), j, Ref(buffer))
  {
    var w := Write(Ref(t), id, Ref(rec));
    assert RT.Slot(w.table.target, j) == RT.Slot(t, j);
  }

  /** Releasing twice is releasing once. */
  lemma ReleaseIdempotent(bs: Ptr<RT.Table>, id: nat)
    requires Handle(bs)
    ensures Release(Release(bs, id), id) == Release(bs, id)
  {
    RT.ReleaseAtIdempotent(bs, id);
  }

  /** Release never changes what any inode reads as. */
  lemma ReleaseKeepsRecords(bs: Ptr<RT.Table>, id: nat, j: nat, buffer: Ptr<seq<byte>>)
    requires Handle(bs)
    requires bs.Ref? && buffer.Ref? && j < NumberInodes ==> |buffer.target| >= InodeSize
    ensures Read(Release(bs, id), j, buffer) == Read(bs, j, buffer)
  {
  }

  /** An inode stored through the table is the inode read back. */
  lemma WriteInodeThenReadInode(t: RT.Table, id: nat, ino: Inode.Inode, buffer: seq<byte>)
    requires Valid(t) && id < NumberInodes
    requires ino.WellFormed() && |buffer| >= InodeSize
    ensures var w := Write(Ref(t), id, Ref(Inode.Encode(ino)));
            && w.count == InodeSize
            && var rd := Read(w.table, id, Ref(buffer));
               rd.count == InodeSize && Inode.Decode(rd.buffer.target[.. InodeSize]) == ino
  {
    WriteThenRead(t, id, Inode.Encode(ino), buffer);
    Inode.DecodeEncode(ino);
  }

  // ---------------------------------------------------------------------
  // The guards as written: `block_id > number_inodes`.
  // ---------------------------------------------------------------------

  function ReadAsWritten(bs: Ptr<RT.Table>, id: nat, buffer: Ptr<seq<byte>>): (r: Effect<RT.Copy>)
    requires Handle(bs)
    requires bs.Ref? && buffer.Ref? && id <= NumberInodes ==> |buffer.target| >= InodeSize
    ensures r.Undefined? <==> bs.Ref? && buffer.Ref? && id == NumberInodes
    ensures r.Defined? ==> r.value == Read(bs, id, buffer)
  {
    if bs.Ref? && id == NumberInodes then RT.ReadAsWritten(bs, id, buffer)
    else
      RT.ReadAsWrittenAgrees(bs, id, buffer);
      RT.ReadAsWritten(bs, id, buffer)
  }

  function WriteAsWritten(bs: Ptr<RT.Table>, id: nat, buffer: Ptr<seq<byte>>): (r: Effect<RT.Update>)
    requires Handle(bs)
    requires bs.Ref? && buffer.Ref? && id <= NumberInodes ==> |buffer.target| >= InodeSize
    ensures r.Undefined? <==> bs.Ref? && buffer.Ref? && id == NumberInodes
    ensures r.Defined? ==> r.value == Write(bs, id, buffer)
  {
    if bs.Ref? && id == NumberInodes then RT.WriteAsWritten(bs, id, buffer)
    else
      RT.WriteAsWrittenAgrees(bs, id, buffer);
      RT.WriteAsWritten(bs, id, buffer)
  }

  function ReleaseAsWritten(bs: Ptr<RT.Table>, id: nat): (r: Effect<Ptr<RT.Table>>)
    requires Handle(bs)
    ensures r.Undefined? <==> bs.Ref? && id == NumberInodes
    ensures r.Defined? ==> r.value == Release(bs, id)
  {
    RT.ReleaseAsWritten(bs, id)
  }

  /** Inode number 256 passes every as-written guard. The copy it reaches
      starts at byte 16384, the first byte after the 16 table blocks; the
      bit its release hands to the bitmap library is past the table's 256
      bits, though still inside the inode-bitmap block. The corrected
      operations refuse it. */
  lemma AsWrittenAdmitsPastEnd(t: RT.Table, buffer: seq<byte>)
    requires Valid(t) && |buffer| >= InodeSize
    ensures NumberInodes * InodeSize == InodeTableBlocks * BlockBytes
    ensures |t.used| == NumberInodes < InodeBitmapBlocks * BlockBytes * 8
    ensures ReadAsWritten(Ref(t), NumberInodes, Ref(buffer)).Undefined?
    ensures WriteAsWritten(Ref(t), NumberInodes, Ref(buffer)).Undefined?
    ensures ReleaseAsWritten(Ref(t), NumberInodes).Undefined?
    ensures Read(Ref(t), NumberInodes, Ref(buffer)).count == 0
    ensures Write(Ref(t), NumberInodes, Ref(buffer)).table == Ref(t)
  {
    RT.AsWrittenOverrunsAtCount(t, buffer);
  }

  lemma AsWrittenAgreesElsewhere(bs: Ptr<RT.Table>, id: nat, buffer: Ptr<seq<byte>>)
    requires Handle(bs) && id != NumberInodes
    requires bs.Ref? && buffer.Ref? && id < NumberInodes ==> |buffer.target| >= InodeSize
    ensures ReadAsWritten(bs, id, buffer) == Defined(Read(bs, id, buffer))
    ensures WriteAsWritten(bs, id, buffer) == Defined(Write(bs, id, buffer))
    ensures ReleaseAsWritten(bs, id) == Defined(Release(bs, id))
  {
    RT.ReadAsWrittenAgrees(bs, id, buffer);
    RT.WriteAsWrittenAgrees(bs, id, buffer);
    RT.ReleaseAsWrittenAgrees(bs, id);
  }
}
