# F19FS record tables in Dafny

F19FS is an emulated block filesystem kept in a single host file. This project models its two
fixed-capacity record tables:

- the **inode table**. It holds 256 `inode_t` records of 64 bytes, overlaid on the 16
  inode-table blocks of the block store. A 256-bit occupancy bitmap is overlaid on the
  inode-bitmap block.
- the **file-descriptor table**. It holds 256 process-local `fd_t` records of 6 bytes,
  zero-initialised, with a 256-bit occupancy bitmap.

Both tables use one shape, modelled once in `RecordTable`. The record bytes are a
`data: seq<byte>` of `count * size` bytes. Record `id` occupies `[id * size, id * size + size)`.
The bitmap is a `used: seq<bool>` of `count` flags. Each C entry point is a pure function of
the table value.

- A `NULL` table handle or caller buffer is modelled as `Ptr.Null`.
- `read` returns the byte count and the caller's buffer after the copy. `memcpy` overwrites the
  first `size` bytes of the buffer.
- `write` returns the byte count and the table after the copy.
- `release` returns the table after the bitmap reset.
- `test` is a predicate.

Because tables are immutable values, a read cannot change the table or its bitmap.

Modules:

- `Bytes`: fixed-width integers (`byte`, `u16`, `u32`, `u64`) and their little-endian
  encoding, with round-trip lemmas.
- `Pointers`: `Ptr` for C pointers that may be NULL. `Option` holds optional values. `Effect`
  marks behaviour the model does not fix: a copy outside the memory a table owns, or a bitmap
  index past the table's bits, which `bitmap.h` decides.
- `Layout`: the sizing constants, and where each inode record sits inside the 16 table blocks.
- `RecordTable`: the shared table, its slot, store and release operations, the C entry points,
  and the same entry points under the guard as written (`id > count`).
- `Inode`: the `inode_t` fields, the file kind tag, the block pointers, the directory
  entry-occupancy map, and the 64-byte record codec.
- `InodeTable`: `inode_table_create`, `_read`, `_write` and `_release`, with the inode
  constants.
- `Descriptor`: the `fd_t` fields, the usage tier, the cursor, and the 6-byte record codec.
- `FdTable`: `fd_table_create`, `_read`, `_write`, `_release` and `_test`.

The inode record codec uses the layout the C declaration gets on a little-endian LP64 target
with natural alignment:

| field | byte offset |
|---|---|
| `entryBitmap` | 0 |
| `owner[18]` | 4 |
| `fileType` | 22 |
| padding | 23 |
| `inodeNumber`, `fileSize`, `linkCount` (`size_t`) | 24, 32, 40 |
| `directPointer[6]` | 48 |
| `indirectPointer` | 60 |
| `doubleIndirectPointer` | 62 |

The descriptor record has no padding: `inodeNum`, `usage`, then `locate_order` and
`locate_offset`, both little-endian.

Three facts about the code shape the model:

- The regular-file tag is `'r'` (include/inode.h:28); the only other tag is `'d'`.
- `src/inode.c` has no allocate or free-count operation: the table offers create, read, write
  and release only.
- Only the low three bits of `usage` are meaningful (include/file_descriptor.h:21).

## Model

| member | source | states |
|---|---|---|
| Layout.InodeLocation | include/inode.h:14-17 | every inode id below 256 sits in one of the 16 table blocks, at an offset whose 64-byte record ends inside that 1024-byte block, and block*1024 + offset is id*64 |
| Layout.InodeLocationCovers | include/inode.h:14-17 | every 64-byte-aligned slot of every table block is the location of some inode: 256 records of 64 bytes exactly fill 16 blocks of 1024 bytes |
| RecordTable.Store | src/inode.c:69 | a record copy yields a well-formed table of the same shape whose slot `id` is the copied bytes, whose bitmap is unchanged, and whose bytes outside `[id*size, id*size+size)` are unchanged |
| RecordTable.StoreKeepsOtherSlots | src/inode.c:69 | storing record `id` leaves every other record's bytes as they were |
| RecordTable.Release | src/inode.c:51-54 | the bit of `id` ends clear, every other bit and all record bytes are kept, and a clear bit leaves the table unchanged |
| RecordTable.ReleaseIdempotent | src/inode.c:47-55 | releasing an id twice equals releasing it once |
| RecordTable.Read | src/inode.c:57-63 | a refused access (NULL handle or buffer, or id at or past the capacity) returns 0 and leaves the buffer alone; otherwise it returns `size`, the buffer's first `size` bytes are the record and the rest of the buffer is unchanged |
| RecordTable.Write | src/inode.c:65-71 | a refused access returns 0 and the same table; otherwise it returns `size`, the record becomes the buffer's first `size` bytes, the bitmap and every other record are unchanged |
| RecordTable.ReleaseAt | src/inode.c:47-55 | a NULL handle or an out-of-range id leaves the table; otherwise the id's bit is clear and the record bytes and other bits are kept |
| RecordTable.ReleaseAtIdempotent | src/inode.c:47-55 | release through a handle is idempotent |
| RecordTable.ReadAsWritten | src/inode.c:57-63 | under the `>` guard the read is undefined exactly when the handle and buffer are non-NULL and the record range passes the end of the table bytes |
| RecordTable.WriteAsWritten | src/inode.c:65-71 | under the `>` guard the write is undefined exactly when the handle and buffer are non-NULL and the record range passes the end of the table bytes |
| RecordTable.ReleaseAsWritten | src/inode.c:47-55 | under the `>` guard the release is unknown (`Undefined`: it depends on how the bitmap library treats an index past its bits) exactly for id equal to the bitmap's length |
| RecordTable.ReadAsWrittenAgrees | src/inode.c:57-63 | for every id other than the capacity, the as-written read equals the corrected read |
| RecordTable.WriteAsWrittenAgrees | src/inode.c:65-71 | for every id other than the capacity, the as-written write equals the corrected write |
| RecordTable.ReleaseAsWrittenAgrees | src/inode.c:47-55 | for every id other than the capacity, the as-written release equals the corrected release |
| RecordTable.AsWrittenOverrunsAtCount | src/inode.c:58-61 | for every table, id == capacity passes the as-written guard and its read, write and release are undefined, while the corrected operations refuse it unchanged |
| Inode.KindTag | include/inode.h:28 | every file kind is tagged `'r'` or `'d'` |
| Inode.KindOf | include/inode.h:28 | a `fileType` byte names a kind exactly when it is `'r'` or `'d'` |
| Inode.KindTagRoundTrip | include/inode.h:28 | tag and kind determine each other |
| Inode.BlockPointers | include/inode.h:34-37 | an inode carries exactly 6 direct pointers, then the indirect and the double-indirect pointer, 8 in all, each below 65536 |
| Inode.EntryMap | include/inode.h:24 | only a directory inode has an entry-occupancy map, and it has 32 flags |
| Inode.WithEntryMap | include/inode.h:24 | any 32-flag occupancy map fits the 32-bit field, and setting it changes no other field |
| Inode.EntryMapRoundTrip | include/inode.h:24 | a map stored in a directory inode's field reads back unchanged |
| Inode.EntryFieldRoundTrip | include/inode.h:24 | storing back the map read from a directory inode leaves the inode unchanged |
| Inode.EncodePointers | include/inode.h:35 | n 16-bit pointers take 2n bytes |
| Inode.PointersRoundTrip | include/inode.h:35 | decoding the bytes of an array of 16-bit pointers gives the array back |
| Inode.PointerBytesRoundTrip | include/inode.h:35 | encoding the pointers decoded from an even number of bytes gives the bytes back |
| Inode.Encode | include/inode.h:23-38 | a well-formed inode is a 64-byte record with a zero padding byte |
| Inode.Decode | include/inode.h:23-38 | every 64-byte record decodes to a well-formed inode: an 18-byte owner and exactly 6 direct pointers |
| Inode.DecodeEncode | include/inode.h:23-38 | an inode encoded and decoded is the same inode |
| Inode.EncodeDecode | include/inode.h:23-38 | a record decoded and re-encoded is the same record except for the padding byte |
| InodeTable.Create | src/inode.c:27-35 | the handle is NULL exactly when its allocation failed; otherwise the bitmap covers exactly 256 slots taken from the bitmap block, the table is exactly the 16 table blocks' bytes, and inode `id` is bytes `[id*64, id*64+64)` of them |
| InodeTable.Read | src/inode.c:57-63 | returns 64 or 0; 64 exactly when handle and buffer are non-NULL and the id is below 256, in which case the buffer's first 64 bytes are the record; on 0 the buffer is untouched |
| InodeTable.Write | src/inode.c:65-71 | returns 64 or 0; 64 exactly when handle and buffer are non-NULL and the id is below 256, in which case the record is the buffer's first 64 bytes and the bitmap is kept; on 0 the table is unchanged |
| InodeTable.Release | src/inode.c:47-55 | a NULL handle or an id of 256 or more changes nothing; otherwise the id's bit is clear and the record bytes and other bits are kept |
| InodeTable.WriteThenRead | src/inode.c:61-70 | a successful write returns 64 and a later read of the same id returns exactly the 64 bytes written |
| InodeTable.WriteKeepsOthers | src/inode.c:69 | a write keeps the bitmap and what every other inode reads as |
| InodeTable.ReleaseIdempotent | src/inode.c:47-55 | releasing an inode twice equals releasing it once |
| InodeTable.ReleaseKeepsRecords | src/inode.c:51-54 | release changes what no inode reads as |
| InodeTable.WriteInodeThenReadInode | src/inode.c:61-69 | an inode written as its record reads back, decoded, as the same inode |
| InodeTable.ReadAsWritten | src/inode.c:57-63 | with the guard as written, a read is undefined exactly for non-NULL handle and buffer and id 256; wherever it is defined it equals the corrected read |
| InodeTable.WriteAsWritten | src/inode.c:65-71 | with the guard as written, a write is undefined exactly for non-NULL handle and buffer and id 256; wherever it is defined it equals the corrected write |
| InodeTable.ReleaseAsWritten | src/inode.c:47-55 | with the guard as written, a release is unknown (left to the bitmap library) exactly for a non-NULL handle and id 256; everywhere else it equals the corrected release |
| InodeTable.AsWrittenAdmitsPastEnd | src/inode.c:47-71 | id 256 passes the as-written guards of read, write and release; read and write are undefined there, since 256*64 is the whole 16-block table, and release is unknown, since bit 256 lies past the table's 256 bits yet inside the 8192-bit inode-bitmap block; the corrected read and write refuse it |
| InodeTable.AsWrittenAgreesElsewhere | src/inode.c:47-71 | for every id other than 256 the as-written and corrected read, write and release coincide |
| Descriptor.InodeIndex | include/file_descriptor.h:19 | the 8-bit inode number of a descriptor always names one of the 256 inodes |
| Descriptor.EveryInodeNameable | include/file_descriptor.h:19 | every one of the 256 inodes can be named by a descriptor |
| Descriptor.UsageCode | include/file_descriptor.h:21 | the usage codes are 1, 2 and 4 |
| Descriptor.TierOf | include/file_descriptor.h:21 | a usage byte names a tier exactly when its low three bits are 1, 2 or 4 |
| Descriptor.TierIgnoresHighBits | include/file_descriptor.h:21 | bits of usage above the third never change the tier it names |
| Descriptor.UsageRoundTrip | include/file_descriptor.h:21 | the usage code of a tier names that tier, and a usage naming a tier has that tier's code in its low three bits |
| Descriptor.CursorByte | include/file_descriptor.h:20-23 | a valid cursor designates a file byte whose offset in its block is `locate_offset` and whose block lies in the range of the cursor's tier |
| Descriptor.CursorAt | include/file_descriptor.h:20-23 | every file byte a 16-bit order can reach is designated by some valid cursor on any inode |
| Descriptor.CursorIdentifiesByte | include/file_descriptor.h:20-23 | two valid cursors designate the same byte only if tier, order and offset all agree |
| Descriptor.Encode | include/file_descriptor.h:18-24 | a descriptor is a 6-byte record beginning with its inode number and usage |
| Descriptor.Decode | include/file_descriptor.h:18-24 | a 6-byte record's first two bytes are the inode number and usage |
| Descriptor.DecodeEncode | include/file_descriptor.h:18-24 | a descriptor encoded and decoded is the same descriptor |
| Descriptor.EncodeDecode | include/file_descriptor.h:18-24 | a record decoded and re-encoded is the same record, so records and descriptors correspond one to one |
| Descriptor.ZeroRecord | src/file_descriptor.c:28 | the all-zero record of a fresh table decodes to inode 0 with a usage that names no tier |
| FdTable.Create | src/file_descriptor.c:23-31 | the handle is NULL exactly when its allocation failed; otherwise all 256*6 record bytes are zero and no slot is in use |
| FdTable.Read | src/file_descriptor.c:53-59 | returns 6 or 0; 6 exactly when handle and buffer are non-NULL and the id is below 256, in which case the buffer's first 6 bytes are the record; on 0 the buffer is untouched |
| FdTable.Write | src/file_descriptor.c:61-67 | returns 6 or 0; 6 exactly when handle and buffer are non-NULL and the id is below 256, in which case the record is the buffer's first 6 bytes and the bitmap is kept; on 0 the table is unchanged |
| FdTable.Release | src/file_descriptor.c:42-51 | a NULL handle or an id of 256 or more changes nothing; otherwise the id's bit is reset and the record content is not wiped |
| FdTable.TestIsOccupancy | src/file_descriptor.c:69-74 | a NULL handle tests false; test is false for every id of 256 or more, and otherwise is the slot's occupancy bit |
| FdTable.CreateIsEmpty | src/file_descriptor.c:28-29 | in a fresh table no id is in use and every record reads as six zero bytes |
| FdTable.ReleaseThenTest | src/file_descriptor.c:42-51 | after a release the id tests free, other ids test as before, and releasing again changes nothing |
| FdTable.ReleaseKeepsRecords | src/file_descriptor.c:43-50 | release changes what no descriptor reads as |
| FdTable.WriteKeepsOccupancy | src/file_descriptor.c:65 | a write changes no id's test result |
| FdTable.WriteThenRead | src/file_descriptor.c:57-65 | a successful write returns 6, a later read of the same id returns the 6 bytes written, and every other id reads as before |
| FdTable.WriteDescriptorThenRead | src/file_descriptor.c:57-65 | a descriptor written as its record reads back, decoded, as the same descriptor |
| FdTable.ReadAsWritten | src/file_descriptor.c:53-59 | with the guard as written, a read is undefined exactly for non-NULL handle and buffer and id 256; wherever it is defined it equals the corrected read |
| FdTable.WriteAsWritten | src/file_descriptor.c:61-67 | with the guard as written, a write is undefined exactly for non-NULL handle and buffer and id 256; wherever it is defined it equals the corrected write |
| FdTable.ReleaseAsWritten | src/file_descriptor.c:42-51 | with the guard as written, a release is unknown (left to the bitmap library) exactly for a non-NULL handle and id 256; everywhere else it equals the corrected release |
| FdTable.AsWrittenAdmitsPastEnd | src/file_descriptor.c:42-74 | id 256 tests unused under test's `>=` guard, yet passes the `>` guards of read, write and release; read and write are then undefined and release is unknown (left to the bitmap library); the corrected read and write refuse it |
| FdTable.GuardsAgreeWithTest | src/file_descriptor.c:69-74 | with the corrected guards, read and write succeed exactly for the ids test can report on, and every id test reports in use can be read |
| FdTable.AsWrittenAgreesElsewhere | src/file_descriptor.c:42-67 | for every id other than 256 the as-written and corrected read, write and release coincide |

## Left out

- `inode_table_destory` and `fd_table_destory` only free memory. Memory management is not
  modelled: `malloc`, `calloc`, `free` and `bitmap_destroy`.
- A failed `malloc` of the table handle is a boolean parameter of `Create`. The source never
  checks the results of `calloc` and `bitmap_create` in `fd_table_create`, so both are taken to
  succeed.
- `bitmap.h` is not part of this model. The bitmap is a `seq<bool>` with test and reset.
  `bitmap_overlay` is read as taking the first 256 bits of the bitmap block. `bitmap_create` is
  taken to return an all-clear bitmap.
- Setting occupancy bits is left out. No operation in the modelled files sets a bit; the
  block-store library does it through the shared handle layout, and `block_store.h` is not part
  of this model.
- Aliasing is left out. The real inode table shares memory with the root block store, so its
  writes land in the store's blocks. Here the table's bytes are a value of their own.
- The C struct padding is not derived from the declarations. The inode codec fixes the LP64
  little-endian layout described above. Whether `sizeof(inode_t)` is 64 on other targets is
  not modelled.
- `fs_format`, `fs_mount` and `fs_unmount` are left out. They are thin call sequences into the
  block store and have no logic of their own.
- The path resolver, directory layer, addressing engine and seek are left out. They exist only
  as prototypes, with no bodies to model.
- The unused `fd` field of the shared handle struct is not modelled.
- RecordTable.ReadAsWritten: at the index the guard wrongly admits, the model returns
  `Undefined` instead of the bytes that follow the table in memory. Those bytes lie outside
  the table and are not part of this model. The same holds for `WriteAsWritten`, and for the
  `InodeTable` and `FdTable` versions of both.
- RecordTable.ReleaseAsWritten: release copies nothing; at the admitted index it only calls
  `bitmap_test` and `bitmap_reset` with bit `count`. Whether that is out of bounds depends on
  `bitmap.h`, which is not part of this model: a bounds-checked `bitmap_test` returns false and
  the release is then a no-op. `Undefined` stands for that unknown behaviour, here and in the
  `InodeTable` and `FdTable` versions. For the inode table, bit 256 is still inside the
  caller's 1024-byte inode-bitmap block.
- InodeTable.Create: `bitmap` and `blocks` are taken as non-NULL buffers at least as long as
  the table needs. `inode_table_create` checks neither `bitmap_buffer` nor `block_buffer` for
  NULL and never tests the result of `bitmap_overlay`, so with a NULL or short buffer it
  returns a non-NULL handle whose later read or write copies through an invalid pointer,
  contrary to the header's "NULL on error". The model does not represent that broken handle.
- Descriptor.CursorAt: it covers only file bytes whose double-indirect block index fits the
  16-bit `locate_order`. That is 65536 of the tier's 512*512 blocks, which is still more than
  the 65536-block store can give one file.

## Findings

| source | as written | input that shows it | evidently intended | confidence | as-written member | corrected member |
|---|---|---|---|---|---|---|
| src/inode.c:47-71 | `block_id > number_inodes` guards release, read and write | `block_id == 256` with a non-NULL table and buffer. The copy starts at byte 16384, the first byte after the 16 table blocks; the release hands bit 256 of a 256-bit bitmap to `bitmap_test`, whose behaviour there `bitmap.h` decides | `block_id >= number_inodes` | high; not executed | InodeTable.AsWrittenAdmitsPastEnd | InodeTable.Write |
| src/file_descriptor.c:42-67 | `block_id > NUM_FD` guards release, read and write, while `fd_table_test` uses `fd_id >= NUM_FD` | `block_id == 256` with a non-NULL table and buffer. Test reports it unused, yet the copy starts at byte 1536, the first byte after the 256*6-byte table | `block_id >= NUM_FD`, matching `fd_table_test` | high; not executed | FdTable.AsWrittenAdmitsPastEnd | FdTable.GuardsAgreeWithTest |
