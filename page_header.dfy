/** The 18-byte page header: six little-endian fields at the fixed offsets
    that `Storage::new` records, and the header of a freshly created page. */
module PageHeaderCodec {
  import opened LittleEndian

  const PageSize: nat := 8192
  const HeaderSize: nat := 18

  /** A field's byte range `[start, end)` within the page. */
  datatype FieldRange = FieldRange(start: nat, end: nat)

  datatype HeaderOffsets = HeaderOffsets(
    lsn: FieldRange,
    checksum: FieldRange,
    flags: FieldRange,
    lower: FieldRange,
    higher: FieldRange,
    specialSpace: FieldRange)

  /** The storage engine carries nothing but the header layout. */
  datatype Storage = Storage(headerOffsets: HeaderOffsets)

  /** The six fields sit end to end from byte 0 to byte HeaderSize, in
      declaration order, with the widths of one u64 and five u16 values. */
  predicate TilesHeader(o: HeaderOffsets)
  {
    o.lsn.start == 0 && o.lsn.end == o.lsn.start + 8
    && o.checksum.start == o.lsn.end && o.checksum.end == o.checksum.start + 2
    && o.flags.start == o.checksum.end && o.flags.end == o.flags.start + 2
    && o.lower.start == o.flags.end && o.lower.end == o.lower.start + 2
    && o.higher.start == o.lower.end && o.higher.end == o.higher.start + 2
    && o.specialSpace.start == o.higher.end && o.specialSpace.end == o.specialSpace.start + 2
    && o.specialSpace.end == HeaderSize
  }

  function NewStorage(): (s: Storage)
    ensures TilesHeader(s.headerOffsets)
  {
    Storage(HeaderOffsets(
      FieldRange(0, 8), FieldRange(8, 10), FieldRange(10, 12),
      FieldRange(12, 14), FieldRange(14, 16), FieldRange(16, 18)))
  }

  datatype PageHeader = PageHeader(
    lsn: u64,
    checksum: u16,
    flags: u16,
    lower: u16,
    higher: u16,
    specialSpace: u16)

  /** The little-endian u16 stored at `at` (`u16::from_le_bytes`). */
  function ReadU16(page: seq<u8>, at: nat): u16
    requires at + 2 <= |page|
  {
    page[at] as int + 256 * page[at + 1] as int
  }

  /** ReadU16 is the two-byte case of the general little-endian decoder, and
      reads back what `to_le_bytes` of a u16 wrote. */
  lemma ReadU16IsDecode(page: seq<u8>, at: nat)
    requires at + 2 <= |page|
    ensures ReadU16(page, at) == Decode(page[at..at + 2])
    ensures forall v: u16 :: page[at..at + 2] == Encode(v, 2) ==> ReadU16(page, at) == v
  {
    DecodeU16(page[at..at + 2]);
    forall v: u16 | page[at..at + 2] == Encode(v, 2) ensures ReadU16(page, at) == v {
      EncodeU16(v);
      assert page[at] == page[at..at + 2][0] && page[at + 1] == page[at..at + 2][1];
    }
  }

  /** The unsigned little-endian value of one header field. */
  function Field(page: seq<u8>, r: FieldRange): nat
    requires r.start <= r.end <= |page|
  {
    Decode(page[r.start..r.end])
  }

  /** Reads all six fields; any 18-byte prefix decodes (no validation). */
  function DecodeHeader(page: seq<u8>): PageHeader
    requires |page| >= HeaderSize
  {
    var o := NewStorage().headerOffsets;
    Widths();
    PageHeader(
      Field(page, o.lsn), Field(page, o.checksum), Field(page, o.flags),
      Field(page, o.lower), Field(page, o.higher), Field(page, o.specialSpace))
  }

  /** The 18 header bytes holding `h`. */
  function EncodeHeader(h: PageHeader): (r: seq<u8>)
    ensures |r| == HeaderSize
  {
    Encode(h.lsn, 8) + Encode(h.checksum, 2) + Encode(h.flags, 2)
      + Encode(h.lower, 2) + Encode(h.higher, 2) + Encode(h.specialSpace, 2)
  }

  /** Every header survives being written and read back, whatever follows it. */
  lemma DecodeEncodeHeader(h: PageHeader, rest: seq<u8>)
    ensures DecodeHeader(EncodeHeader(h) + rest) == h
  {
    var page := EncodeHeader(h) + rest;
    Widths();
    assert page[0..8] == Encode(h.lsn, 8);
    assert page[8..10] == Encode(h.checksum, 2);
    assert page[10..12] == Encode(h.flags, 2);
    assert page[12..14] == Encode(h.lower, 2);
    assert page[14..16] == Encode(h.higher, 2);
    assert page[16..18] == Encode(h.specialSpace, 2);
    DecodeEncode(h.lsn, 8);
    DecodeEncode(h.checksum, 2);
    DecodeEncode(h.flags, 2);
    DecodeEncode(h.lower, 2);
    DecodeEncode(h.higher, 2);
    DecodeEncode(h.specialSpace, 2);
  }

  /** Every 18-byte prefix is the encoding of the header it decodes to. */
  lemma EncodeDecodeHeader(page: seq<u8>)
    requires |page| >= HeaderSize
    ensures EncodeHeader(DecodeHeader(page)) == page[..HeaderSize]
  {
    EncodeDecode(page[0..8]);
    EncodeDecode(page[8..10]);
    EncodeDecode(page[10..12]);
    EncodeDecode(page[12..14]);
    EncodeDecode(page[14..16]);
    EncodeDecode(page[16..18]);
    assert page[..HeaderSize]
        == page[0..8] + page[8..10] + page[10..12] + page[12..14] + page[14..16] + page[16..18];
  }

  /** The placeholder values a new page starts with: an empty directory
      (`lower` right after the header) and an empty tuple area. */
  function InitialHeader(): PageHeader
  {
    PageHeader(12345678, 42, 40, HeaderSize, PageSize, PageSize)
  }

  /** A freshly created page: the initial header followed by zero bytes. */
  function EmptyPage(): (page: seq<u8>)
    ensures |page| == PageSize
  {
    EncodeHeader(InitialHeader()) + seq(PageSize - HeaderSize, _ => 0)
  }

  /** The little-endian bytes of the initial field values. */
  lemma InitialFieldBytes()
    ensures Encode(12345678, 8) == [0x4E, 0x61, 0xBC, 0, 0, 0, 0, 0]
    ensures Encode(42, 2) == [42, 0] && Encode(40, 2) == [40, 0]
    ensures Encode(18, 2) == [18, 0] && Encode(8192, 2) == [0x00, 0x20]
  {
  }

  /** The initial header's bytes: lsn 12345678, checksum 42, flags 40,
      lower 18, higher 8192 and special space 8192, all little-endian. */
  lemma InitialHeaderBytes()
    ensures EncodeHeader(InitialHeader())
         == [0x4E, 0x61, 0xBC, 0, 0, 0, 0, 0, 42, 0, 40, 0, 18, 0, 0x00, 0x20, 0x00, 0x20]
  {
    InitialFieldBytes();
  }

  /** A fresh page: the initial header's bytes, then zeros to the end of the
      page; reading its header gives back the initial values. */
  lemma EmptyPageLayout()
    ensures EmptyPage()[..HeaderSize]
         == [0x4E, 0x61, 0xBC, 0, 0, 0, 0, 0, 42, 0, 40, 0, 18, 0, 0x00, 0x20, 0x00, 0x20]
    ensures forall i :: HeaderSize <= i < PageSize ==> EmptyPage()[i] == 0
    ensures DecodeHeader(EmptyPage()) == InitialHeader()
  {
    var zeros: seq<u8> := seq(PageSize - HeaderSize, _ => 0);
    var h := EncodeHeader(InitialHeader());
    assert EmptyPage() == h + zeros;
    InitialHeaderBytes();
    DecodeEncodeHeader(InitialHeader(), zeros);
    assert EmptyPage()[..HeaderSize] == h;
    forall i | HeaderSize <= i < PageSize ensures EmptyPage()[i] == 0 {
      assert EmptyPage()[i] == zeros[i - HeaderSize];
    }
  }

  /** The only page with the initial header bytes and zeros after them. */
  lemma FreshPageBytes(page: seq<u8>)
    requires |page| == PageSize
    requires page[..HeaderSize]
          == [0x4E, 0x61, 0xBC, 0, 0, 0, 0, 0, 42, 0, 40, 0, 18, 0, 0x00, 0x20, 0x00, 0x20]
    requires forall i :: HeaderSize <= i < PageSize ==> page[i] == 0
    ensures page == EmptyPage()
  {
    EmptyPageLayout();
    forall i | 0 <= i < PageSize ensures page[i] == EmptyPage()[i] {
      if i < HeaderSize {
        assert page[i] == page[..HeaderSize][i] && EmptyPage()[i] == EmptyPage()[..HeaderSize][i];
      }
    }
  }
}
