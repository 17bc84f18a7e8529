# Slotted-page catalog storage, modelled in Dafny

The storage crate keeps a table catalog on a single 8192-byte page laid out
as a slotted page, in the style of PostgreSQL:

- an 18-byte little-endian header holding `lsn`, `checksum`, `flags`,
  `lower`, `higher` and `special_space`;
- a directory of 2-byte item pointers that grows upward from byte 18 to
  `lower`;
- a tuple area that grows downward from `higher` to the end of the page.

`Storage` provides three operations. `create_postgres_class` writes a fresh
page. `write_postgres_class` appends a batch of `TableMetadata` records: a
u32 id, then the name and the data-file path, each with a u16 length prefix.
`read_postgres_class` scans the directory and decodes the record behind each
pointer.

The model follows the code's shape.

- The page is an `array<u8>`. In module `PostgresClass`,
  `CreatePostgresClass` fills a new array, `WritePostgresClass` changes the
  page in place and `ReadPostgresClass` only reads it. `copy_from_slice` is
  modelled by `CopyInto`.
- The methods' contracts are stated against pure definitions over `seq<u8>`:
  - `LittleEndian`: `to_le_bytes` and `from_le_bytes`, and the `as u16` cast;
  - `PageHeaderCodec`: the header offsets and the fresh page;
  - `TableCodec`: the record layout;
  - `SlottedPage`: what a page stores and what a write does.
- The write loop carries the invariant `WrittenSoFar`. Each turn is proved
  by `WriteStep`, and the cursor stores after the loop by `WriteFinish`.
- The read path's two loops are proved equal to the function `ReadTables`.
- On that basis, the lemmas prove:
  - reading after a write gives the old records followed by the new ones;
  - a write changes nothing else;
  - create, write, read gives back the batch.

The code checks no space. Its silent assumptions therefore become
preconditions:

- `Fits` is required by the write. It asks for `18 <= lower` and
  `higher <= 8192`. It also asks that the batch's directory entries and
  tuples fit between the two cursors. So `higher -= len` never underflows,
  the two regions never cross, and `lower += 2` stays within a u16.
- `Fits` also implies that every name and path is shorter than 65536 bytes,
  because a longer one does not fit on the page. So the `as u16` length casts
  never lose bits.
- `Readable` is required by the read. It asks for `lower <= 8192`, so the
  scan stays on the page. It also asks that every pointer leads to a record
  that lies wholly inside the page, so no slice in the decoder is out of
  range.

Two facts about the code that the model keeps:

- Every record carries the data-file path after the name.
- The scan has no evenness requirement on `lower`. An odd `lower` below 8192
  simply yields one more pointer. `DirectoryCount` models that.

## Model

| member | source | states |
|---|---|---|
| LittleEndian.AsU16 | crates/storage/src/lib.rs:148-150 | `len as u16` leaves every length below 65536 unchanged |
| LittleEndian.Decode | crates/storage/src/lib.rs:59-88 | an n-byte little-endian value is below 256^n, so it fits its Rust integer type |
| LittleEndian.Encode | crates/storage/src/lib.rs:146-150 | `to_le_bytes` of an n-byte integer yields exactly n bytes |
| LittleEndian.DecodeEncode | crates/storage/src/lib.rs:59-88 | `from_le_bytes(to_le_bytes(v)) == v` for every v that fits in n bytes |
| LittleEndian.EncodeDecode | crates/storage/src/lib.rs:59-88 | `to_le_bytes(from_le_bytes(s)) == s` for every byte string s |
| LittleEndian.EncodeU16 | crates/storage/src/lib.rs:158 | a u16 is written low byte first, then high byte |
| LittleEndian.DecodeU16 | crates/storage/src/lib.rs:94-95 | two bytes read as a u16 give low + 256 * high |
| PageHeaderCodec.NewStorage | crates/storage/src/lib.rs:42-53 | the six header fields lie end to end from byte 0 to byte 18, with widths 8, 2, 2, 2, 2, 2 |
| PageHeaderCodec.ReadU16 | crates/storage/src/lib.rs:74-83 | `u16::from_le_bytes` of the two bytes at an offset; `ReadU16IsDecode` proves it equals `Decode` of those bytes and reads back any u16 written there |
| PageHeaderCodec.DecodeHeader | crates/storage/src/lib.rs:59-88 | the header parse of the read path, each field decoded at its `Storage::new` offsets; `DecodeEncodeHeader` and `EncodeDecodeHeader` prove it is inverse to `EncodeHeader` |
| PageHeaderCodec.ReadU16IsDecode | crates/storage/src/lib.rs:94-95 | reading a u16 at an offset is little-endian decoding of the two bytes there, and gives back any u16 whose `to_le_bytes` are stored there |
| PageHeaderCodec.EncodeHeader | crates/storage/src/lib.rs:181-192 | the six header fields take exactly 18 bytes |
| PageHeaderCodec.DecodeEncodeHeader | crates/storage/src/lib.rs:59-88 | decoding the header gives back every header that was written, whatever bytes follow it |
| PageHeaderCodec.EncodeDecodeHeader | crates/storage/src/lib.rs:59-88 | every 18-byte prefix of a page is the encoding of the header it decodes to |
| PageHeaderCodec.EmptyPage | crates/storage/src/lib.rs:180 | a fresh page is 8192 bytes long |
| PageHeaderCodec.InitialFieldBytes | crates/storage/src/lib.rs:181-192 | the little-endian bytes of 12345678, 42, 40, 18 and 8192 |
| PageHeaderCodec.InitialHeaderBytes | crates/storage/src/lib.rs:181-192 | the fresh header's 18 bytes hold lsn 12345678, checksum 42, flags 40, lower 18, higher 8192 and special space 8192 |
| PageHeaderCodec.EmptyPageLayout | crates/storage/src/lib.rs:180-192 | a fresh page has those 18 header bytes and zeros from byte 18 to 8192, and its header decodes to the initial values |
| PageHeaderCodec.FreshPageBytes | crates/storage/src/lib.rs:180-192 | any 8192-byte page with the initial header bytes and zeros after them is the fresh page |
| TableCodec.EncodeRecord | crates/storage/src/lib.rs:152-156 | a record takes 4 + 2 + name length + 2 + path length bytes |
| TableCodec.EncodeRecordLayout | crates/storage/src/lib.rs:160-169 | in a record, the id is at bytes 0..4, the name length at 4..6, then the name, the path length in the next two bytes, and the path |
| TableCodec.DecodeAt | crates/storage/src/lib.rs:101-111 | a record that decodes at p lies wholly inside the page |
| TableCodec.FieldsAt | crates/storage/src/lib.rs:160-169 | where a record's encoding starts at p, each field is at its offset from p |
| TableCodec.FieldsMakeRecord | crates/storage/src/lib.rs:102-111 | fields at their offsets from p make up the record's encoding |
| TableCodec.DecodeEncodedAt | crates/storage/src/lib.rs:102-111 | the read path's decoder gives back the id, name and path of any record written at p |
| TableCodec.EncodeDecodedAt | crates/storage/src/lib.rs:102-111 | whatever decodes at p has lengths below 65536 and is stored there in exactly the write path's layout |
| TableCodec.TotalLengthStep | crates/storage/src/lib.rs:152-157 | each record written moves `higher` down by exactly its own encoded length |
| TableCodec.TotalLengthPrefix | crates/storage/src/lib.rs:145-157 | the records written so far, or a single record, never need more room than the whole batch |
| TableCodec.TotalLengthAppend | crates/storage/src/lib.rs:145-157 | the room for two batches written one after the other is the sum of the two |
| SlottedPage.CursorsInHeader | crates/storage/src/lib.rs:130-143 | the `lower` and `higher` that the write path reads are the header's `lower` and `higher` fields |
| SlottedPage.DirectoryCountExact | crates/storage/src/lib.rs:90-98 | the scan visits entry i exactly when 18 + 2i < lower; for an even lower of at least 18 that makes (lower - 18) / 2 pointers |
| SlottedPage.Directory | crates/storage/src/lib.rs:90-98 | the scan yields one pointer per visited entry |
| SlottedPage.ReadTables | crates/storage/src/lib.rs:100-117 | the read path returns one record per pointer, in directory order |
| SlottedPage.RoomForNext | crates/storage/src/lib.rs:157-159 | under the fit condition, before each record there is room for its entry and tuple, so `higher` does not underflow and `lower` does not pass `higher` |
| SlottedPage.EntryKept | crates/storage/src/lib.rs:158-169 | a directory entry and record that a write misses keep their value and bytes |
| SlottedPage.StepFrame | crates/storage/src/lib.rs:157-169 | after k + 1 turns of the write loop, only the first k + 1 new entries and tuples differ from the page before the write |
| SlottedPage.StepKeepsEntry | crates/storage/src/lib.rs:158-169 | a loop turn leaves the entries and tuples of earlier turns in place |
| SlottedPage.WriteStep | crates/storage/src/lib.rs:145-170 | one loop turn takes the loop invariant from k to k + 1 records, with `higher` now below the first k + 1 records |
| SlottedPage.FinishKeepsEntry | crates/storage/src/lib.rs:171-172 | storing the cursors leaves every new entry and tuple in place |
| SlottedPage.WriteFinish | crates/storage/src/lib.rs:171-172 | storing `higher` then `lower` after the loop completes the write's effect |
| SlottedPage.HoldsReadsBack | crates/storage/src/lib.rs:90-117 | a page whose directory points at the encodings of `ts`, in order, reads back as exactly `ts` |
| SlottedPage.EmptyPageHoldsNothing | crates/storage/src/lib.rs:178-195 | a fresh page stores no record and reads back as the empty list |
| SlottedPage.FitsEmptyPage | crates/storage/src/lib.rs:157-159 | a batch fits on a fresh page exactly when 18 + 2N + its total encoded length is at most 8192 |
| SlottedPage.WriteKeepsHeader | crates/storage/src/lib.rs:171-172 | a write changes only `lower` and `higher` in the header; lsn, checksum, flags and special space keep their values |
| SlottedPage.WriteKeepsOldRecords | crates/storage/src/lib.rs:145-172 | records already on the page keep their directory entries and their bytes |
| SlottedPage.NewRecordPlace | crates/storage/src/lib.rs:157-160 | each new record lies between the final `higher` and the `higher` before the write |
| SlottedPage.NewEntryHeld | crates/storage/src/lib.rs:157-158 | the directory entry written at the old `lower` holds the new record's start, which is the new `higher` |
| SlottedPage.AppendedEntry | crates/storage/src/lib.rs:158-169 | after a write, entry i points at the encoding of the i-th record of old records followed by new ones |
| SlottedPage.WriteAppends | crates/storage/src/lib.rs:145-172 | a page that stores `ts` stores `ts + tables` after writing `tables` |
| SlottedPage.ReadAfterWrite | crates/storage/src/lib.rs:101-117 | reading after a write returns the records stored before it, followed by the new ones in write order |
| SlottedPage.CreateWriteRead | crates/storage/src/lib.rs:233-236 | writing a batch onto a fresh page and reading it returns the batch |
| PostgresClass.CopyInto | crates/storage/src/lib.rs:158 | `copy_from_slice` puts the bytes at the given offset and changes nothing else |
| PostgresClass.CreatePostgresClass | crates/storage/src/lib.rs:178-195 | the created page is exactly the fresh page |
| PostgresClass.WriteTuple | crates/storage/src/lib.rs:160-169 | the record's encoding is stored at `higher` and nothing else changes |
| PostgresClass.AppendRecord | crates/storage/src/lib.rs:146-169 | one turn lowers `higher` by the record's length, puts the new `higher` at `lower`, raises `lower` by 2 and stores the record at the new `higher`; nothing else changes |
| PostgresClass.WritePostgresClass | crates/storage/src/lib.rs:122-176 | the page ends up holding the effect `Written`: `lower` up by 2N and `higher` down by the batch's length; entry j points at record j just below record j - 1; every other byte outside the header cursors is as before |
| PostgresClass.ReadPostgresClass | crates/storage/src/lib.rs:55-120 | the method returns `ReadTables` of the page: one decoded record per directory entry, in order |
| PostgresClass.CreateWriteReadBack | crates/storage/src/lib.rs:233-236 | create, write a batch that fits, then read, returns the batch unchanged |

## Left out

- File I/O is not modelled: `OpenOptions::open`, `File::create`, `read_exact`, `seek` and `write_all`. The page is the methods' input and output buffer, and I/O errors do not arise.
- The `println!` of the decoded tables is not modelled; it is diagnostic output.
- `DataType` is not modelled. It is never used, and its `Float32` payload is floating point.
- `ColumnMetadata` is not modelled. It is declared but never encoded or decoded.
- The fixed file path of the unit test is not modelled. Only the test's round trip is kept, in `CreateWriteReadBack`.
- Multi-page files, locking and concurrent writers are out of scope, because the code handles one page in one thread.
- The `&self` receiver is not passed explicitly. `Storage` only ever holds the constant offsets of `Storage::new`, so the methods use `NewStorage()` directly.
- The lsn, checksum, flags and special space that the read path decodes are not returned. The source reads them and ignores them.
- ReadPostgresClass: does not model `String::from_utf8(..).unwrap()`. Names and paths are byte strings, so a non-UTF-8 name does not panic in the model.
- ReadPostgresClass: requires `Readable` rather than modelling the panics of an out-of-range scan or slice. Those are panics in the source, not error results.
- WritePostgresClass: requires `Fits` rather than modelling the underflow panic or wrap-around of `higher -= len` and a collision between directory and tuples. The source has no check to model.
