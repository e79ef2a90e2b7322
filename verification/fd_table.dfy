/** The file-descriptor table: 256 process-local records of 6 bytes,
    zero-initialised, with a 256-bit occupancy bitmap. Read, write and
    release work on one record by descriptor id; test reports whether an id
    is in use. */
module FdTable {
  import opened Bytes
  import opened Pointers
  import opened Layout
  import RT = RecordTable
  import Descriptor

  predicate Valid(t: RT.Table) {
    t.Valid() && t.count == NumFd && t.size == FdSize
  }

  predicate Handle(bs: Ptr<RT.Table>) {
    bs.Ref? ==> Valid(bs.target)
  }

  /** A fresh table: every record byte zero and no slot in use.
      `gotHandle` is whether the handle could be allocated; if not, the
      result is NULL. */
  function Create(gotHandle: bool): (bs: Ptr<RT.Table>)
    ensures bs.Ref? <==> gotHandle
    ensures Handle(bs)
    ensures bs.Ref? ==> forall k :: 0 <= k < |bs.target.data| ==> bs.target.data[k] == 0
    ensures bs.Ref? ==> forall id :: 0 <= id < NumFd ==> !bs.target.used[id]
  {
    if !gotHandle then Null
    else Ref(RT.Table(NumFd, FdSize, Zeros(NumFd * FdSize), seq(NumFd, _ => false)))
  }

  /** Copy descriptor `id` into the caller's buffer. Returns 6, or 0 on a
      NULL handle or buffer or an id past the table. */
  function Read(bs: Ptr<RT.Table>, id: nat, buffer: Ptr<seq<byte>>): (r: RT.Copy)
    requires Handle(bs)
    requires bs.Ref? && buffer.Ref? && id < NumFd ==> |buffer.target| >= FdSize
    ensures r.count == FdSize || r.count == 0
    ensures r.count == FdSize <==> bs.Ref? && buffer.Ref? && id < NumFd
    ensures r.count == 0 ==> r.buffer == buffer
    ensures r.count == FdSize ==>
              && r.buffer.Ref?
              && |r.buffer.target| == |buffer.target|
              && r.buffer.target[.. FdSize] == RT.Slot(bs.target, id)
              && r.buffer.target[FdSize ..] == buffer.target[FdSize ..]
  {
    RT.Read(bs, id, buffer)
  }

  /** Copy the caller's buffer into descriptor `id`. Returns 6, or 0 on
      error, in which case the table is unchanged. */
  function Write(bs: Ptr<RT.Table>, id: nat, buffer: Ptr<seq<byte>>): (r: RT.Update)
    requires Handle(bs)
    requires bs.Ref? && buffer.Ref? && id < NumFd ==> |buffer.target| >= FdSize
    ensures r.count == FdSize || r.count == 0
    ensures r.count == FdSize <==> bs.Ref? && buffer.Ref? && id < NumFd
    ensures r.count == 0 ==> r.table == bs
    ensures Handle(r.table) && (r.table.Ref? <==> bs.Ref?)
    ensures r.count == FdSize ==>
              && r.table.target.used == bs.target.used
              && RT.Slot(r.table.target, id) == buffer.target[.. FdSize]
  {
    RT.Write(bs, id, buffer)
  }

  /** Free descriptor `id`: reset its bit if set, without wiping the
      record. A NULL handle or an id past the table changes nothing. */
  function Release(bs: Ptr<RT.Table>, id: nat): (r: Ptr<RT.Table>)
    requires Handle(bs)
    ensures Handle(r)
    ensures bs.Null? || id >= NumFd ==> r == bs
    ensures bs.Ref? && id < NumFd ==>
              && r.Ref?
              && r.target.data == bs.target.data
              && !r.target.used[id]
              && (forall j :: 0 <= j < NumFd && j != id ==> r.target.used[j] == bs.target.used[j])
  {
    RT.ReleaseAt(bs, id)
  }

  /** Whether descriptor `id` is in use; false for a NULL handle and for
      every id of 256 and above. */
  predicate Test(bs: Ptr<RT.Table>, id: nat)
    requires Handle(bs)
  {
    RT.Test(bs, id)
  }

  /** Test reports the occupancy bit, and nothing but the bit. */
  lemma TestIsOccupancy(bs: Ptr<RT.Table>, id: nat)
    requires Handle(bs)
    ensures bs.Null? ==> !Test(bs, id)
    ensures id >= NumFd ==> !Test(bs, id)
    ensures bs.Ref? && id < NumFd ==> (Test(bs, id) <==> bs.target.used[id])
  {
  }

  /** A fresh table has no descriptor in use and reads as zeros. */
  lemma CreateIsEmpty(id: nat, buffer: seq<byte>)
    requires id < NumFd && |buffer| >= FdSize
    ensures !Test(Create(true), id)
    ensures Read(Create(true), id, Ref(buffer)).buffer.target[.. FdSize] == Zeros(FdSize)
  {
    var t := Create(true).target;
    assert RT.Slot(t, id) == Zeros(FdSize) by {
      RT.SlotInBounds(t.count, t.size, id);
    }
  }

  /** After a release the id is free; releasing again changes nothing. */
  lemma ReleaseThenTest(bs: Ptr<RT.Table>, id: nat, j: nat)
    requires Handle(bs)
    ensures !Test(Release(bs, id), id)
    ensures j != id ==> (Test(Release(bs, id), j) <==> Test(bs, j))
    ensures Release(Release(bs, id), id) == Release(bs, id)
  {
    RT.ReleaseAtIdempotent(bs, id);
  }

  /** Release keeps the record bytes: what any descriptor reads as is the
      same before and after. */
  lemma ReleaseKeepsRecords(bs: Ptr<RT.Table>, id: nat, j: nat, buffer: Ptr<seq<byte>>)
    requires Handle(bs)
    requires bs.Ref? && buffer.Ref? && j < NumFd ==> |buffer.target| >= FdSize
    ensures Read(Release(bs, id), j, buffer) == Read(bs, j, buffer)
  {
  }

  /** Writing a record does not change which ids are in use. */
  lemma WriteKeepsOccupancy(bs: Ptr<RT.Table>, id: nat, buffer: Ptr<seq<byte>>, j: nat)
    requires Handle(bs)
    requires bs.Ref? && buffer.Ref? && id < NumFd ==> |buffer.target| >= FdSize
    ensures Test(Write(bs, id, buffer).table, j) <==> Test(bs, j)
  {
  }

  /** Write-then-read of the same id returns the 6 bytes written, and every
      other descriptor reads as before. */
  lemma WriteThenRead(t: RT.Table, id: nat, rec: seq<byte>, j: nat, buffer: seq<byte>)
    requires Valid(t) && id < NumFd && j < NumFd
    requires |rec| == FdSize && |buffer| >= FdSize
    ensures var w := Write(Ref(t), id, Ref(rec));
            && w.count == FdSize
            && Read(w.table, id, Ref(buffer)).buffer.target[.. FdSize] == rec
            && (j != id ==> Read(w.table, j, Ref(buffer)) == Read(Ref(t), j, Ref(buffer)))
  {
    if j != id {
      var w := Write(Ref(t), id, Ref(rec));
      assert RT.Slot(w.table.target, j) == RT.Slot(t, j);
    }
  }

  /** A descriptor stored through the table is the descriptor read back. */
  lemma WriteDescriptorThenRead(t: RT.Table, id: nat, d: Descriptor.Descriptor, buffer: seq<byte>)
    requires Valid(t) && id < NumFd && |buffer| >= FdSize
    ensures var w := Write(Ref(t), id, Ref(Descriptor.Encode(d)));
            Descriptor.Decode(Read(w.table, id, Ref(buffer)).buffer.target[.. FdSize]) == d
  {
    WriteThenRead(t, id, Descriptor.Encode(d), id, buffer);
    Descriptor.DecodeEncode(d);
  }

  // ---------------------------------------------------------------------
  // The guards as written: `block_id > NUM_FD` in read, write and release,
  // against `fd_id >= NUM_FD` in test.
  // ---------------------------------------------------------------------

  function ReadAsWritten(bs: Ptr<RT.Table>, id: nat, buffer: Ptr<seq<byte>>): (r: Effect<RT.Copy>)
    requires Handle(bs)
    requires bs.Ref? && buffer.Ref? && id <= NumFd ==> |buffer.target| >= FdSize
    ensures r.Undefined? <==> bs.Ref? && buffer.Ref? && id == NumFd
    ensures r.Defined? ==> r.value == Read(bs, id, buffer)
  {
    if bs.Ref? && id == NumFd then RT.ReadAsWritten(bs, id, buffer)
    else
      RT.ReadAsWrittenAgrees(bs, id, buffer);
      RT.ReadAsWritten(bs, id, buffer)
  }

  function WriteAsWritten(bs: Ptr<RT.Table>, id: nat, buffer: Ptr<seq<byte>>): (r: Effect<RT.Update>)
    requires Handle(bs)
    requires bs.Ref? && buffer.Ref? && id <= NumFd ==> |buffer.target| >= FdSize
    ensures r.Undefined? <==> bs.Ref? && buffer.Ref? && id == NumFd
    ensures r.Defined? ==> r.value == Write(bs, id, buffer)
  {
    if bs.Ref? && id == NumFd then RT.WriteAsWritten(bs, id, buffer)
    else
      RT.WriteAsWrittenAgrees(bs, id, buffer);
      RT.WriteAsWritten(bs, id, buffer)
  }

  function ReleaseAsWritten(bs: Ptr<RT.Table>, id: nat): (r: Effect<Ptr<RT.Table>>)
    requires Handle(bs)
    ensures r.Undefined? <==> bs.Ref? && id == NumFd
    ensures r.Defined? ==> r.value == Release(bs, id)
  {
    RT.ReleaseAsWritten(bs, id)
  }

  /** Descriptor id 256: test (the one `>=` guard) calls it unused, while
      the `>` guards of read, write and release let it through to a copy at
      byte 1536, the first byte after the table's 256 * 6 bytes. */
  lemma AsWrittenAdmitsPastEnd(t: RT.Table, buffer: seq<byte>)
    requires Valid(t) && |buffer| >= FdSize
    ensures !Test(Ref(t), NumFd)
    ensures ReadAsWritten(Ref(t), NumFd, Ref(buffer)).Undefined?
    ensures WriteAsWritten(Ref(t), NumFd, Ref(buffer)).Undefined?
    ensures ReleaseAsWritten(Ref(t), NumFd).Undefined?
    ensures Read(Ref(t), NumFd, Ref(buffer)).count == 0
    ensures Write(Ref(t), NumFd, Ref(buffer)).table == Ref(t)
  {
    RT.AsWrittenOverrunsAtCount(t, buffer);
  }

  /** With test's `>=` guard used throughout, read, write and release accept
      exactly the ids test can report on. */
  lemma GuardsAgreeWithTest(bs: Ptr<RT.Table>, id: nat, buffer: seq<byte>)
    requires Handle(bs) && bs.Ref? && |buffer| >= FdSize
    ensures Read(bs, id, Ref(buffer)).count == FdSize <==> id < NumFd
    ensures Write(bs, id, Ref(buffer)).count == FdSize <==> id < NumFd
    ensures Test(bs, id) ==> Read(bs, id, Ref(buffer)).count == FdSize
  {
  }

  lemma AsWrittenAgreesElsewhere(bs: Ptr<RT.Table>, id: nat, buffer: Ptr<seq<byte>>)
    requires Handle(bs) && id != NumFd
    requires bs.Ref? && buffer.Ref? && id < NumFd ==> |buffer.target| >= FdSize
    ensures ReadAsWritten(bs, id, buffer) == Defined(Read(bs, id, buffer))
    ensures WriteAsWritten(bs, id, buffer) == Defined(Write(bs, id, buffer))
    ensures ReleaseAsWritten(bs, id) == Defined(Release(bs, id))
  {
    RT.ReadAsWrittenAgrees(bs, id, buffer);
    RT.WriteAsWrittenAgrees(bs, id, buffer);
    RT.ReleaseAsWrittenAgrees(bs, id);
  }
}
