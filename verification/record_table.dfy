/** A fixed-capacity table of fixed-size records: a flat byte region of
    `count * size` bytes, record `id` occupying bytes
    `[id * size, id * size + size)`, plus a `count`-bit occupancy bitmap.

    The inode table and the file-descriptor table are two instances of this
    one shape; they share the same operations, each a guard, a copy at
    offset `id * size`, or a bitmap test and reset.
 */
module RecordTable {
  import opened Bytes
  import opened Pointers

  datatype Table = Table(count: nat, size: nat, data: seq<byte>, used: seq<bool>) {
    predicate Valid() {
      0 < size && |data| == count * size && |used| == count
    }

    /** Same capacity and record size as `other`. */
    predicate SameShape(other: Table) {
      count == other.count && size == other.size
    }
  }

  /** Record `id` ends inside the table. */
  lemma SlotInBounds(count: nat, size: nat, id: nat)
    requires id < count
    ensures id * size + size <= count * size
  {
    assert id * size + size == (id + 1) * size;
    MulMono(id + 1, count, size);
  }

  lemma MulMono(a: nat, b: nat, c: nat)
    requires a <= b
    ensures a * c <= b * c
  {
  }

  /** Distinct records occupy disjoint byte ranges. */
  lemma SlotsDisjoint(size: nat, i: nat, j: nat)
    requires i != j
    ensures i * size + size <= j * size || j * size + size <= i * size
  {
    if i < j {
      MulMono(i + 1, j, size);
    } else {
      MulMono(j + 1, i, size);
    }
  }

  /** The bytes of record `id`. */
  function Slot(t: Table, id: nat): (r: seq<byte>)
    requires t.Valid() && id < t.count
    ensures |r| == t.size
  {
    SlotInBounds(t.count, t.size, id);
    t.data[id * t.size .. id * t.size + t.size]
  }

  /** Overwrite record `id` with `rec`: the record reads back as `rec`,
      every byte outside the record and the whole bitmap are unchanged. */
  function Store(t: Table, id: nat, rec: seq<byte>): (t': Table)
    requires t.Valid() && id < t.count && |rec| == t.size
    ensures t'.Valid() && t'.SameShape(t)
    ensures t'.used == t.used
    ensures Slot(t', id) == rec
    ensures forall k :: 0 <= k < |t.data| && !(id * t.size <= k < id * t.size + t.size) ==>
              t'.data[k] == t.data[k]
  {
    SlotInBounds(t.count, t.size, id);
    var t' := t.(data := t.data[.. id * t.size] + rec + t.data[id * t.size + t.size ..]);
    assert Slot(t', id) == rec;
    t'
  }

  /** A store leaves every other record as it was. */
  lemma StoreKeepsOtherSlots(t: Table, id: nat, rec: seq<byte>, j: nat)
    requires t.Valid() && id < t.count && |rec| == t.size
    requires j < t.count && j != id
    ensures Slot(Store(t, id, rec), j) == Slot(t, j)
  {
    var t' := Store(t, id, rec);
    var s := t.size;
    var a, b := id * s, j * s;
    SlotsDisjoint(s, id, j);
    SlotInBounds(t.count, s, j);
    assert Slot(t', j) == t'.data[b .. b + s];
    assert Slot(t, j) == t.data[b .. b + s];
    forall k | b <= k < b + s
      ensures t'.data[k] == t.data[k]
    {
      assert !(a <= k < a + s);
    }
  }

  /** Clear the occupancy bit of `id` if it is set; a clear bit is left
      alone. The record bytes are never wiped. */
  function Release(t: Table, id: nat): (t': Table)
    requires t.Valid() && id < t.count
    ensures t'.Valid() && t'.SameShape(t)
    ensures t'.data == t.data
    ensures !t'.used[id]
    ensures forall j :: 0 <= j < t.count && j != id ==> t'.used[j] == t.used[j]
    ensures !t.used[id] ==> t' == t
  {
    if t.used[id] then t.(used := t.used[id := false]) else t
  }

  lemma ReleaseIdempotent(t: Table, id: nat)
    requires t.Valid() && id < t.count
    ensures Release(Release(t, id), id) == Release(t, id)
  {
  }

  // ---------------------------------------------------------------------
  // The C entry points: a table handle and a caller buffer, either of
  // which may be NULL, and an index checked against the capacity.
  // ---------------------------------------------------------------------

  /** A readable handle: NULL or a well-formed table. */
  predicate Handle(bs: Ptr<Table>) {
    bs.Ref? ==> bs.target.Valid()
  }

  /** The caller's buffer has room for one record whenever a copy happens. */
  predicate BufferFits(bs: Ptr<Table>, id: nat, buffer: Ptr<seq<byte>>) {
    bs.Ref? && buffer.Ref? && id < bs.target.count ==> |buffer.target| >= bs.target.size
  }

  /** The result of a read: the byte count returned and the caller's buffer
      after the call. */
  datatype Copy = Copy(count: nat, buffer: Ptr<seq<byte>>)

  /** The result of a write: the byte count returned and the table after
      the call. */
  datatype Update = Update(count: nat, table: Ptr<Table>)

  /** The access is refused: NULL handle, NULL buffer, or an index past the
      last record. */
  predicate Refused(bs: Ptr<Table>, id: nat, buffer: Ptr<seq<byte>>) {
    bs.Null? || buffer.Null? || id >= bs.target.count
  }

  /** `memcpy(buffer, data + id * size, size)`: the first `size` bytes of the
      buffer become the record. */
  function Read(bs: Ptr<Table>, id: nat, buffer: Ptr<seq<byte>>): (r: Copy)
    requires Handle(bs) && BufferFits(bs, id, buffer)
    ensures Refused(bs, id, buffer) ==> r == Copy(0, buffer)
    ensures !Refused(bs, id, buffer) ==>
              && r.count == bs.target.size
              && r.buffer.Ref?
              && |r.buffer.target| == |buffer.target|
              && r.buffer.target[.. r.count] == Slot(bs.target, id)
              && r.buffer.target[r.count ..] == buffer.target[r.count ..]
  {
    if Refused(bs, id, buffer) then Copy(0, buffer)
    else
      var t := bs.target;
      Copy(t.size, Ref(Slot(t, id) + buffer.target[t.size ..]))
  }

  /** `memcpy(data + id * size, buffer, size)`: record `id` becomes the first
      `size` bytes of the buffer, and nothing else in the table changes. */
  function Write(bs: Ptr<Table>, id: nat, buffer: Ptr<seq<byte>>): (r: Update)
    requires Handle(bs) && BufferFits(bs, id, buffer)
    ensures Refused(bs, id, buffer) ==> r == Update(0, bs)
    ensures !Refused(bs, id, buffer) ==>
              && r.count == bs.target.size
              && r.table.Ref?
              && r.table.target.Valid()
              && r.table.target.SameShape(bs.target)
              && r.table.target.used == bs.target.used
              && Slot(r.table.target, id) == buffer.target[.. r.count]
              && (forall j :: 0 <= j < bs.target.count && j != id ==>
                    Slot(r.table.target, j) == Slot(bs.target, j))
  {
    if Refused(bs, id, buffer) then Update(0, bs)
    else
      var t := bs.target;
      var t' := Store(t, id, buffer.target[.. t.size]);
      forall j | 0 <= j < t.count && j != id
        ensures Slot(t', j) == Slot(t, j)
      {
        StoreKeepsOtherSlots(t, id, buffer.target[.. t.size], j);
      }
      Update(t.size, Ref(t'))
  }

  /** Release through a possibly NULL handle; an index past the last record
      is ignored. */
  function ReleaseAt(bs: Ptr<Table>, id: nat): (r: Ptr<Table>)
    requires Handle(bs)
    ensures bs.Null? || id >= bs.target.count ==> r == bs
    ensures bs.Ref? && id < bs.target.count ==>
              && r.Ref?
              && r.target.Valid()
              && r.target.SameShape(bs.target)
              && r.target.data == bs.target.data
              && !r.target.used[id]
              && (forall j :: 0 <= j < bs.target.count && j != id ==>
                    r.target.used[j] == bs.target.used[j])
  {
    if bs.Null? || id >= bs.target.count then bs else Ref(Release(bs.target, id))
  }

  /** Whether slot `id` is occupied; false for a NULL handle or an index
      past the last record. */
  predicate Test(bs: Ptr<Table>, id: nat)
    requires Handle(bs)
  {
    bs.Ref? && id < bs.target.count && bs.target.used[id]
  }

  lemma ReleaseAtIdempotent(bs: Ptr<Table>, id: nat)
    requires Handle(bs)
    ensures Handle(ReleaseAt(bs, id))
    ensures ReleaseAt(ReleaseAt(bs, id), id) == ReleaseAt(bs, id)
  {
  }

  // ---------------------------------------------------------------------
  // The same entry points under the guard as written, `id > count`, which
  // lets `id == count` through to a copy at offset `count * size`: the
  // first byte past the table.
  // ---------------------------------------------------------------------

  /** The as-written guard: refuses only indices strictly greater than the
      capacity. */
  predicate RefusedAsWritten(bs: Ptr<Table>, id: nat, buffer: Ptr<seq<byte>>) {
    bs.Null? || buffer.Null? || id > bs.target.count
  }

  /** The record range of `id` lies inside the table's bytes. */
  predicate WithinTable(t: Table, id: nat) {
    id * t.size + t.size <= |t.data|
  }

  function ReadAsWritten(bs: Ptr<Table>, id: nat, buffer: Ptr<seq<byte>>): (r: Effect<Copy>)
    requires Handle(bs)
    requires bs.Ref? && buffer.Ref? && id <= bs.target.count ==> |buffer.target| >= bs.target.size
    ensures r.Undefined? <==> !RefusedAsWritten(bs, id, buffer) && !WithinTable(bs.target, id)
  {
    if RefusedAsWritten(bs, id, buffer) then Defined(Copy(0, buffer))
    else
      var t := bs.target;
      if !WithinTable(t, id) then Undefined
      else Defined(Copy(t.size, Ref(t.data[id * t.size .. id * t.size + t.size] + buffer.target[t.size ..])))
  }

  function WriteAsWritten(bs: Ptr<Table>, id: nat, buffer: Ptr<seq<byte>>): (r: Effect<Update>)
    requires Handle(bs)
    requires bs.Ref? && buffer.Ref? && id <= bs.target.count ==> |buffer.target| >= bs.target.size
    ensures r.Undefined? <==> !RefusedAsWritten(bs, id, buffer) && !WithinTable(bs.target, id)
  {
    if RefusedAsWritten(bs, id, buffer) then Defined(Update(0, bs))
    else
      var t := bs.target;
      if !WithinTable(t, id) then Undefined
      else
        var d := t.data[.. id * t.size] + buffer.target[.. t.size] + t.data[id * t.size + t.size ..];
        Defined(Update(t.size, Ref(t.(data := d))))
  }

  /** The as-written release tests and resets bit `id` of a `count`-bit
      bitmap; `id == count` is one bit past its end, where what
      `bitmap_test` and `bitmap_reset` do is up to the bitmap library, so
      the outcome is left `Undefined`. */
  function ReleaseAsWritten(bs: Ptr<Table>, id: nat): (r: Effect<Ptr<Table>>)
    requires Handle(bs)
    ensures r.Undefined? <==> bs.Ref? && id == bs.target.count
  {
    if bs.Null? || id > bs.target.count then Defined(bs)
    else if id >= |bs.target.used| then Undefined
    else Defined(Ref(Release(bs.target, id)))
  }

  /** Everywhere except `id == count`, the as-written read does what the
      corrected read does. */
  lemma ReadAsWrittenAgrees(bs: Ptr<Table>, id: nat, buffer: Ptr<seq<byte>>)
    requires Handle(bs) && BufferFits(bs, id, buffer)
    requires bs.Ref? ==> id != bs.target.count
    ensures ReadAsWritten(bs, id, buffer) == Defined(Read(bs, id, buffer))
  {
    if !Refused(bs, id, buffer) {
      SlotInBounds(bs.target.count, bs.target.size, id);
    }
  }

  lemma WriteAsWrittenAgrees(bs: Ptr<Table>, id: nat, buffer: Ptr<seq<byte>>)
    requires Handle(bs) && BufferFits(bs, id, buffer)
    requires bs.Ref? ==> id != bs.target.count
    ensures WriteAsWritten(bs, id, buffer) == Defined(Write(bs, id, buffer))
  {
    if !Refused(bs, id, buffer) {
      SlotInBounds(bs.target.count, bs.target.size, id);
    }
  }

  lemma ReleaseAsWrittenAgrees(bs: Ptr<Table>, id: nat)
    requires Handle(bs)
    requires bs.Ref? ==> id != bs.target.count
    ensures ReleaseAsWritten(bs, id) == Defined(ReleaseAt(bs, id))
  {
  }

  /** The as-written guard admits `id == count`. The copy a read or write
      then makes runs past the end of the table's bytes, so both are
      undefined; a release hands bit `count` to the bitmap library, whose
      behaviour there is unknown. The corrected operations refuse it. */
  lemma AsWrittenOverrunsAtCount(t: Table, buffer: seq<byte>)
    requires t.Valid() && |buffer| >= t.size
    ensures !RefusedAsWritten(Ref(t), t.count, Ref(buffer))
    ensures ReadAsWritten(Ref(t), t.count, Ref(buffer)).Undefined?
    ensures WriteAsWritten(Ref(t), t.count, Ref(buffer)).Undefined?
    ensures ReleaseAsWritten(Ref(t), t.count).Undefined?
    ensures Read(Ref(t), t.count, Ref(buffer)) == Copy(0, Ref(buffer))
    ensures Write(Ref(t), t.count, Ref(buffer)) == Update(0, Ref(t))
    ensures ReleaseAt(Ref(t), t.count) == Ref(t)
  {
    assert t.count * t.size + t.size > |t.data|;
  }
}
