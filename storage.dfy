/** The three entry points of the storage engine, each working on one
    8192-byte page held in memory: the file is read into `page` before a call
    and written back from it afterwards. */
module PostgresClass {
  import opened LittleEndian
  import opened TableCodec
  import opened PageHeaderCodec
  import opened SlottedPage

  /** `page[at..at + bytes.len()].copy_from_slice(bytes)`. */
  method CopyInto(page: array<u8>, at: nat, bytes: seq<u8>)
    requires at + |bytes| <= page.Length
    modifies page
    ensures forall i :: at <= i < at + |bytes| ==> page[i] == bytes[i - at]
    ensures forall i :: 0 <= i < page.Length && !(at <= i < at + |bytes|) ==> page[i] == old(page[i])
    ensures page[at..at + |bytes|] == bytes
    ensures KeptOutside(old(page[..]), page[..], at, at + |bytes|, at, at + |bytes|)
  {
    forall i | at <= i < at + |bytes| {
      page[i] := bytes[i - at];
    }
  }

  /** Builds a zeroed page and writes the initial header field by field. */
  method CreatePostgresClass() returns (page: array<u8>)
    ensures fresh(page) && page[..] == EmptyPage()
  {
    InitialFieldBytes();
    page := new u8[PageSize](_ => 0);
    var lsn: u64 := 12345678;
    CopyInto(page, 0, Encode(lsn, 8));
    assert page[..8] == [0x4E, 0x61, 0xBC, 0, 0, 0, 0, 0];
    var checksum: u16 := 42;
    CopyInto(page, 8, Encode(checksum, 2));
    assert page[..10] == [0x4E, 0x61, 0xBC, 0, 0, 0, 0, 0, 42, 0];
    var flags: u16 := 40;
    CopyInto(page, 10, Encode(flags, 2));
    assert page[..12] == [0x4E, 0x61, 0xBC, 0, 0, 0, 0, 0, 42, 0, 40, 0];
    var lower: u16 := HeaderSize;
    CopyInto(page, 12, Encode(lower, 2));
    assert page[..14] == [0x4E, 0x61, 0xBC, 0, 0, 0, 0, 0, 42, 0, 40, 0, 18, 0];
    var higher: u16 := PageSize;
    CopyInto(page, 14, Encode(higher, 2));
    assert page[..16] == [0x4E, 0x61, 0xBC, 0, 0, 0, 0, 0, 42, 0, 40, 0, 18, 0, 0x00, 0x20];
    var specialSpace: u16 := PageSize;
    CopyInto(page, 16, Encode(specialSpace, 2));
    assert page[..HeaderSize]
        == [0x4E, 0x61, 0xBC, 0, 0, 0, 0, 0, 42, 0, 40, 0, 18, 0, 0x00, 0x20, 0x00, 0x20];
    FreshPageBytes(page[..]);
  }

  /** Copies one record's fields into the tuple area starting at `at`, in the
      write path's order: id, name length, name, path length, path. */
  method WriteTuple(page: array<u8>, at: nat, t: TableMetadata)
    requires at + EncodedLength(t) <= page.Length
    modifies page
    ensures StoredAt(page[..], at, t)
    ensures KeptOutside(old(page[..]), page[..], at, at + EncodedLength(t), at, at + EncodedLength(t))
  {
    var idBytes := Encode(t.tableId, 4);
    var tableNameLengthBytes := Encode(AsU16(|t.tableName|), 2);
    var dataFilePathLengthBytes := Encode(AsU16(|t.dataFilePath|), 2);
    var start, end := at, at + 4;
    CopyInto(page, start, idBytes);
    start, end := end, end + 2;
    CopyInto(page, start, tableNameLengthBytes);
    start, end := end, end + |t.tableName|;
    CopyInto(page, start, t.tableName);
    start, end := end, end + 2;
    CopyInto(page, start, dataFilePathLengthBytes);
    start, end := end, end + |t.dataFilePath|;
    CopyInto(page, start, t.dataFilePath);

    var e, n := EncodeRecord(t), |t.tableName|;
    EncodeRecordLayout(t);
    forall i | 0 <= i < |e| ensures page[at + i] == e[i] {
      if i < 4 {
        assert e[i] == e[..4][i];
      } else if i < 6 {
        assert e[i] == e[4..6][i - 4];
      } else if i < 6 + n {
        assert e[i] == e[6..6 + n][i - 6];
      } else if i < 8 + n {
        assert e[i] == e[6 + n..8 + n][i - 6 - n];
      } else {
        assert e[i] == e[8 + n..][i - 8 - n];
      }
    }
    assert page[at..at + |e|] == e;
    StoredAtSlice(page[..], at, t);
  }

  /** One turn of the write loop: `higher` moves down by the record's length,
      the new `higher` goes into the directory slot at `lower`, `lower` moves
      up by 2 and the record is copied to `higher`. */
  method AppendRecord(page: array<u8>, lower: u16, higher: u16, t: TableMetadata)
      returns (newLower: u16, newHigher: u16)
    requires lower + 2 + EncodedLength(t) <= higher <= page.Length
    modifies page
    ensures newLower == lower + 2 && newHigher == higher - EncodedLength(t)
    ensures ReadU16(page[..], lower) == newHigher
    ensures StoredAt(page[..], newHigher, t)
    ensures KeptOutside(old(page[..]), page[..], lower, newLower, newHigher, higher)
  {
    var dataLength := 4 + |t.tableName| + 2 + |t.dataFilePath| + 2;
    newHigher := higher - AsU16(dataLength);
    CopyInto(page, lower, Encode(newHigher, 2));
    ghost var mid := page[..];
    newLower := lower + 2;
    WriteTuple(page, newHigher, t);
    EncodeU16(newHigher);
    assert page[lower] == mid[lower] == mid[lower..lower + 2][0];
    assert page[lower + 1] == mid[lower + 1] == mid[lower..lower + 2][1];
  }

  /** Appends every record of the batch, in order, then stores the two header
      cursors. */
  method WritePostgresClass(page: array<u8>, tablesMetadata: seq<TableMetadata>)
    requires Fits(page[..], tablesMetadata)
    modifies page
    ensures Written(old(page[..]), page[..], tablesMetadata)
  {
    var offsets := NewStorage().headerOffsets;
    var lower := ReadU16(page[..], offsets.lower.start);
    var higher := ReadU16(page[..], offsets.higher.start);
    ghost var before := page[..];

    for k := 0 to |tablesMetadata|
      invariant lower == Lower(before) + 2 * k
      invariant higher == Higher(before) - TotalLength(tablesMetadata[..k])
      invariant WrittenSoFar(before, page[..], tablesMetadata, k)
    {
      RoomForNext(before, tablesMetadata, k);
      ghost var mid := page[..];
      var newLower, newHigher := AppendRecord(page, lower, higher, tablesMetadata[k]);
      WriteStep(before, mid, page[..], tablesMetadata, k, lower, higher);
      lower, higher := newLower, newHigher;
    }
    ghost var mid := page[..];
    CopyInto(page, offsets.higher.start, Encode(higher, 2));
    ghost var mid2 := page[..];
    CopyInto(page, offsets.lower.start, Encode(lower, 2));
    WriteFinish(before, mid, mid2, page[..], tablesMetadata, lower, higher);
  }

  /** Decodes the header, collects the directory's pointers from byte 18 up
      to `lower`, then decodes the record at each pointer. */
  method ReadPostgresClass(page: array<u8>) returns (tables: seq<TableMetadata>)
    requires Readable(page[..])
    ensures tables == ReadTables(page[..])
  {
    var header := DecodeHeader(page[..]);
    var lower := header.lower;
    CursorsInHeader(page[..]);

    var pointers: seq<nat> := [];
    var offset := HeaderSize;
    while offset < lower
      invariant offset == HeaderSize + 2 * |pointers|
      invariant |pointers| <= DirectoryCount(lower)
      invariant pointers == Directory(page[..])[..|pointers|]
      decreases lower - offset
    {
      var pointer := ReadU16(page[..], offset);
      pointers := pointers + [pointer];
      offset := offset + 2;
    }

    tables := [];
    for k := 0 to |pointers|
      invariant tables == ReadTables(page[..])[..k]
    {
      tables := tables + [DecodeAt(page[..], pointers[k]).value];
    }
  }

  /** Creates a page, writes a batch onto it and reads the page back: the
      batch comes back unchanged, in order, whenever it fits on one page. */
  method CreateWriteReadBack(tables: seq<TableMetadata>) returns (readBack: seq<TableMetadata>)
    requires HeaderSize + 2 * |tables| + TotalLength(tables) <= PageSize
    ensures readBack == tables
  {
    var page := CreatePostgresClass();
    FitsEmptyPage(tables);
    WritePostgresClass(page, tables);
    CreateWriteRead(page[..], tables);
    readBack := ReadPostgresClass(page);
  }
}
