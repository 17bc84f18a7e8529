/** What a page means: the pointer directory between the header and `lower`,
    the records it points at, and what one batch write does to the bytes. */
module SlottedPage {
  import opened LittleEndian
  import opened TableCodec
  import opened PageHeaderCodec

  /** End of the directory, as stored in the header's `lower` field. */
  function Lower(page: seq<u8>): nat
    requires |page| >= HeaderSize
  {
    ReadU16(page, NewStorage().headerOffsets.lower.start)
  }

  /** Start of the tuple area, as stored in the header's `higher` field. */
  function Higher(page: seq<u8>): nat
    requires |page| >= HeaderSize
  {
    ReadU16(page, NewStorage().headerOffsets.higher.start)
  }

  /** The two cursors are the `lower` and `higher` fields of the decoded header. */
  lemma CursorsInHeader(page: seq<u8>)
    requires |page| >= HeaderSize
    ensures Lower(page) == DecodeHeader(page).lower
    ensures Higher(page) == DecodeHeader(page).higher
  {
    ReadU16IsDecode(page, 12);
    ReadU16IsDecode(page, 14);
  }

  /** How many 2-byte entries the read path's scan visits: one for each
      offset 18, 20, 22, ... that lies below `lower`. */
  function DirectoryCount(lower: nat): nat
  {
    if lower <= HeaderSize then 0 else (lower - HeaderSize + 1) / 2
  }

  /** The scan visits entry i exactly when its offset is below `lower`; for an
      even `lower` past the header that is (lower - 18) / 2 entries. */
  lemma DirectoryCountExact(lower: nat)
    ensures forall i: nat :: i < DirectoryCount(lower) <==> HeaderSize + 2 * i < lower
    ensures HeaderSize <= lower && lower % 2 == 0 ==> DirectoryCount(lower) == (lower - HeaderSize) / 2
  {
  }

  /** The item pointers in directory order: entry i is the u16 at 18 + 2i. */
  function Directory(page: seq<u8>): (ptrs: seq<nat>)
    requires |page| == PageSize && Lower(page) <= PageSize
    ensures |ptrs| == DirectoryCount(Lower(page))
  {
    var n := DirectoryCount(Lower(page));
    seq(n, i requires 0 <= i < n => ReadU16(page, HeaderSize + 2 * i))
  }

  /** The read path gets through the page without a panic: the scan stays in
      the page and every pointer leads to a record that lies inside it. */
  ghost predicate Readable(page: seq<u8>)
  {
    |page| == PageSize && Lower(page) <= PageSize
    && forall p <- Directory(page) :: DecodeAt(page, p).Some?
  }

  /** What the read path returns: the record at each pointer, in directory order. */
  function ReadTables(page: seq<u8>): (ts: seq<TableMetadata>)
    requires Readable(page)
    ensures |ts| == DirectoryCount(Lower(page))
  {
    var ptrs := Directory(page);
    seq(|ptrs|, i requires 0 <= i < |ptrs| => DecodeAt(page, ptrs[i]).value)
  }

  /** The bytes `e` sit in the page from index `p` on, one by one. */
  predicate BytesAt(page: seq<u8>, p: nat, e: seq<u8>)
    decreases e
  {
    p + |e| <= |page| && (e == [] || (page[p] == e[0] && BytesAt(page, p + 1, e[1..])))
  }

  /** BytesAt says the slice of the page starting at `p` is `e`. */
  lemma {:induction false} BytesAtSlice(page: seq<u8>, p: nat, e: seq<u8>)
    ensures BytesAt(page, p, e) <==> p + |e| <= |page| && page[p..p + |e|] == e
    decreases e
  {
    if e != [] && p + |e| <= |page| {
      BytesAtSlice(page, p + 1, e[1..]);
      assert page[p..p + |e|] == [page[p]] + page[p + 1..p + |e|];
    }
  }

  /** Bytes that are the same in two pages of equal size hold the same data. */
  lemma BytesAtKept(a: seq<u8>, b: seq<u8>, p: nat, e: seq<u8>)
    requires BytesAt(a, p, e) && |a| == |b| && a[p..p + |e|] == b[p..p + |e|]
    ensures BytesAt(b, p, e)
  {
    BytesAtSlice(a, p, e);
    BytesAtSlice(b, p, e);
  }

  /** The encoding of `t` occupies `[p, p + EncodedLength(t))`. */
  predicate StoredAt(page: seq<u8>, p: int, t: TableMetadata)
  {
    0 <= p && BytesAt(page, p, EncodeRecord(t))
  }

  /** StoredAt as a slice of the page. */
  lemma StoredAtSlice(page: seq<u8>, p: nat, t: TableMetadata)
    ensures StoredAt(page, p, t)
        <==> p + EncodedLength(t) <= |page| && page[p..p + EncodedLength(t)] == EncodeRecord(t)
  {
    BytesAtSlice(page, p, EncodeRecord(t));
  }

  /** The page stores exactly `ts`: one directory entry per record, in order,
      each pointing at that record's encoding inside the tuple area. */
  ghost predicate Holds(page: seq<u8>, ts: seq<TableMetadata>)
  {
    |page| == PageSize
    && Lower(page) == HeaderSize + 2 * |ts| && Lower(page) <= Higher(page) <= PageSize
    && forall i :: 0 <= i < |ts| ==>
         Higher(page) <= ReadU16(page, HeaderSize + 2 * i)
         && StoredAt(page, ReadU16(page, HeaderSize + 2 * i), ts[i])
  }

  /** The condition the write path silently relies on: the header's cursors
      are sane and the batch's directory entries and tuples fit between them,
      so `higher` never underflows and the two regions never cross. */
  predicate Fits(page: seq<u8>, tables: seq<TableMetadata>)
  {
    |page| == PageSize && HeaderSize <= Lower(page) && Higher(page) <= PageSize
    && Lower(page) + 2 * |tables| + TotalLength(tables) <= Higher(page)
  }

  /** Where the j-th record of a batch starts: `higher` after it was written. */
  function TupleStart(higher: nat, tables: seq<TableMetadata>, j: nat): int
    requires j < |tables|
  {
    higher - TotalLength(tables[..j + 1])
  }

  /** The effect of writing `tables` onto `before`: `lower` rises by two per
      record, `higher` falls by the batch's size, the j-th new directory entry
      points at the j-th record's encoding just below the previous one, and
      every other byte outside the two header cursors is left alone. */
  ghost predicate Written(before: seq<u8>, after: seq<u8>, tables: seq<TableMetadata>)
    requires Fits(before, tables)
  {
    var lower0, higher0, n := Lower(before), Higher(before), |tables|;
    var o := NewStorage().headerOffsets;
    |after| == PageSize
    && Lower(after) == lower0 + 2 * n
    && Higher(after) == higher0 - TotalLength(tables)
    && (forall j :: 0 <= j < n ==>
          ReadU16(after, lower0 + 2 * j) == TupleStart(higher0, tables, j)
          && StoredAt(after, TupleStart(higher0, tables, j), tables[j]))
    && (forall i :: 0 <= i < PageSize
          && !(o.lower.start <= i < o.higher.end)
          && !(lower0 <= i < lower0 + 2 * n)
          && !(higher0 - TotalLength(tables) <= i < higher0)
          ==> after[i] == before[i])
  }

  /** The page part-way through the write loop, after its first k records:
      their directory entries and tuples are in place, every other byte is as
      before, and the header cursors have not been stored yet. */
  ghost predicate WrittenSoFar(before: seq<u8>, page: seq<u8>, tables: seq<TableMetadata>, k: nat)
    requires Fits(before, tables) && k <= |tables|
  {
    var lower0, higher0 := Lower(before), Higher(before);
    |page| == PageSize
    && (forall j :: 0 <= j < k ==>
          ReadU16(page, lower0 + 2 * j) == TupleStart(higher0, tables, j)
          && StoredAt(page, TupleStart(higher0, tables, j), tables[j]))
    && (forall i :: 0 <= i < PageSize
          && !(lower0 <= i < lower0 + 2 * k)
          && !(higher0 - TotalLength(tables[..k]) <= i < higher0)
          ==> page[i] == before[i])
  }

  /** `b` has the size of `a` and differs from it at most inside the two
      regions `[lo1, hi1)` and `[lo2, hi2)`. */
  predicate KeptOutside(a: seq<u8>, b: seq<u8>, lo1: int, hi1: int, lo2: int, hi2: int)
  {
    |a| == |b|
    && forall i :: 0 <= i < |a| && !(lo1 <= i < hi1) && !(lo2 <= i < hi2) ==> b[i] == a[i]
  }

  /** A span that misses both changed regions keeps its bytes. */
  lemma SpanKept(a: seq<u8>, b: seq<u8>, lo1: int, hi1: int, lo2: int, hi2: int, x: nat, y: nat)
    requires KeptOutside(a, b, lo1, hi1, lo2, hi2) && x <= y <= |a|
    requires (y <= lo1 || hi1 <= x) && (y <= lo2 || hi2 <= x)
    ensures a[x..y] == b[x..y]
  {
    assert forall i :: x <= i < y ==> a[i] == b[i];
  }

  /** A directory entry at `at` pointing at the record of `t` at `p` survives
      a change that misses both the entry and the record. */
  lemma EntryKept(a: seq<u8>, b: seq<u8>, lo1: int, hi1: int, lo2: int, hi2: int,
                  at: nat, p: nat, t: TableMetadata)
    requires KeptOutside(a, b, lo1, hi1, lo2, hi2) && at + 2 <= |a|
    requires (at + 2 <= lo1 || hi1 <= at) && (at + 2 <= lo2 || hi2 <= at)
    requires ReadU16(a, at) == p && StoredAt(a, p, t)
    requires (p + EncodedLength(t) <= lo1 || hi1 <= p) && (p + EncodedLength(t) <= lo2 || hi2 <= p)
    ensures ReadU16(b, at) == p && StoredAt(b, p, t)
  {
    SpanKept(a, b, lo1, hi1, lo2, hi2, at, at + 2);
    SpanKept(a, b, lo1, hi1, lo2, hi2, p, p + EncodedLength(t));
    BytesAtKept(a, b, p, EncodeRecord(t));
  }

  /** Before the k-th record is written there is room for its directory entry
      and its tuple between the two cursors. */
  lemma RoomForNext(before: seq<u8>, tables: seq<TableMetadata>, k: nat)
    requires Fits(before, tables) && k < |tables|
    ensures Lower(before) + 2 * k + 2 + EncodedLength(tables[k])
         <= Higher(before) - TotalLength(tables[..k])
  {
    TotalLengthStep(tables, k);
    TotalLengthPrefix(tables, k);
  }

  /** An earlier record of the batch lies above the point `higher` has reached. */
  lemma EarlierRecordAbove(tables: seq<TableMetadata>, j: nat, k: nat)
    requires j < k <= |tables|
    ensures TotalLength(tables[..j + 1]) <= TotalLength(tables[..k])
  {
    assert tables[..k][..j + 1] == tables[..j + 1];
    TotalLengthPrefix(tables[..k], j);
  }

  /** The loop's k-th turn leaves the j-th entry and record (j < k) in place. */
  lemma StepKeepsEntry(before: seq<u8>, mid: seq<u8>, after: seq<u8>, tables: seq<TableMetadata>,
                       k: nat, lower: nat, higher: nat, j: nat)
    requires Fits(before, tables) && j < k < |tables| && WrittenSoFar(before, mid, tables, k)
    requires lower == Lower(before) + 2 * k && higher == Higher(before) - TotalLength(tables[..k])
    requires KeptOutside(mid, after, lower, lower + 2, higher - EncodedLength(tables[k]), higher)
    ensures ReadU16(after, Lower(before) + 2 * j) == TupleStart(Higher(before), tables, j)
    ensures StoredAt(after, TupleStart(Higher(before), tables, j), tables[j])
  {
    RoomForNext(before, tables, k);
    EarlierRecordAbove(tables, j, k);
    EntryKept(mid, after, lower, lower + 2, higher - EncodedLength(tables[k]), higher,
              Lower(before) + 2 * j, TupleStart(Higher(before), tables, j), tables[j]);
  }

  /** After the loop's k-th turn, only the first k + 1 directory entries and
      the tuples of the first k + 1 records differ from the page before the
      write. */
  lemma StepFrame(before: seq<u8>, mid: seq<u8>, after: seq<u8>, tables: seq<TableMetadata>,
                  k: nat, lower: nat, higher: nat)
    requires Fits(before, tables) && k < |tables| && WrittenSoFar(before, mid, tables, k)
    requires lower == Lower(before) + 2 * k && higher == Higher(before) - TotalLength(tables[..k])
    requires KeptOutside(mid, after, lower, lower + 2, higher - EncodedLength(tables[k]), higher)
    ensures forall i :: 0 <= i < PageSize
                 && !(Lower(before) <= i < Lower(before) + 2 * (k + 1))
                 && !(Higher(before) - TotalLength(tables[..k + 1]) <= i < Higher(before))
                 ==> after[i] == before[i]
  {
    TotalLengthStep(tables, k);
  }

  /** One turn of the write loop: the k-th directory entry and tuple written,
      nothing else touched, extends the loop state from k to k + 1 records. */
  lemma WriteStep(before: seq<u8>, mid: seq<u8>, after: seq<u8>, tables: seq<TableMetadata>,
                  k: nat, lower: nat, higher: nat)
    requires Fits(before, tables) && k < |tables| && WrittenSoFar(before, mid, tables, k)
    requires lower == Lower(before) + 2 * k && higher == Higher(before) - TotalLength(tables[..k])
    requires KeptOutside(mid, after, lower, lower + 2, higher - EncodedLength(tables[k]), higher)
    requires ReadU16(after, lower) == higher - EncodedLength(tables[k])
    requires StoredAt(after, higher - EncodedLength(tables[k]), tables[k])
    ensures higher - EncodedLength(tables[k]) == Higher(before) - TotalLength(tables[..k + 1])
    ensures WrittenSoFar(before, after, tables, k + 1)
  {
    TotalLengthStep(tables, k);
    StepFrame(before, mid, after, tables, k, lower, higher);
    forall j | 0 <= j < k
      ensures ReadU16(after, Lower(before) + 2 * j) == TupleStart(Higher(before), tables, j)
      ensures StoredAt(after, TupleStart(Higher(before), tables, j), tables[j])
    {
      StepKeepsEntry(before, mid, after, tables, k, lower, higher, j);
    }
  }

  /** Storing the cursors leaves the j-th entry and record in place. */
  lemma FinishKeepsEntry(before: seq<u8>, mid: seq<u8>, after: seq<u8>, tables: seq<TableMetadata>, j: nat)
    requires Fits(before, tables) && j < |tables| && WrittenSoFar(before, mid, tables, |tables|)
    requires KeptOutside(mid, after, 12, 16, 12, 16)
    ensures ReadU16(after, Lower(before) + 2 * j) == TupleStart(Higher(before), tables, j)
    ensures StoredAt(after, TupleStart(Higher(before), tables, j), tables[j])
  {
    NewRecordPlace(before, tables, j);
    EntryKept(mid, after, 12, 16, 12, 16,
              Lower(before) + 2 * j, TupleStart(Higher(before), tables, j), tables[j]);
  }

  /** Storing `higher` and then `lower` into the header after the loop
      completes the write. */
  lemma WriteFinish(before: seq<u8>, mid: seq<u8>, mid2: seq<u8>, after: seq<u8>,
                    tables: seq<TableMetadata>, lower: u16, higher: u16)
    requires Fits(before, tables) && WrittenSoFar(before, mid, tables, |tables|)
    requires lower == Lower(before) + 2 * |tables|
    requires higher == Higher(before) - TotalLength(tables[..|tables|])
    requires KeptOutside(mid, mid2, 14, 16, 14, 16) && mid2[14..16] == Encode(higher, 2)
    requires KeptOutside(mid2, after, 12, 14, 12, 14) && after[12..14] == Encode(lower, 2)
    ensures Written(before, after, tables)
  {
    assert tables[..|tables|] == tables;
    assert KeptOutside(mid, after, 12, 16, 12, 16);
    EncodeU16(lower);
    EncodeU16(higher);
    assert after[12] == after[12..14][0] && after[13] == after[12..14][1];
    assert after[14] == mid2[14] == mid2[14..16][0] && after[15] == mid2[15] == mid2[14..16][1];
    forall j | 0 <= j < |tables|
      ensures ReadU16(after, Lower(before) + 2 * j) == TupleStart(Higher(before), tables, j)
      ensures StoredAt(after, TupleStart(Higher(before), tables, j), tables[j])
    {
      FinishKeepsEntry(before, mid, after, tables, j);
    }
  }

  /** A page that holds `ts` reads back as exactly `ts`. */
  lemma HoldsReadsBack(page: seq<u8>, ts: seq<TableMetadata>)
    requires Holds(page, ts)
    ensures Readable(page) && ReadTables(page) == ts
  {
    DirectoryCountExact(Lower(page));
    var ptrs := Directory(page);
    assert |ptrs| == |ts|;
    forall i | 0 <= i < |ts| ensures DecodeAt(page, ptrs[i]) == Some(ts[i]) {
      StoredAtSlice(page, ptrs[i], ts[i]);
      DecodeEncodedAt(page, ptrs[i], ts[i]);
    }
  }

  /** A fresh page holds no records and reads back as the empty list. */
  lemma EmptyPageHoldsNothing()
    ensures Holds(EmptyPage(), [])
    ensures Readable(EmptyPage()) && ReadTables(EmptyPage()) == []
  {
    EmptyPageLayout();
    CursorsInHeader(EmptyPage());
    HoldsReadsBack(EmptyPage(), []);
  }

  /** A batch fits on a fresh page exactly when its directory entries and
      tuples fit into the 8192 - 18 bytes after the header. */
  lemma FitsEmptyPage(tables: seq<TableMetadata>)
    ensures Fits(EmptyPage(), tables) <==> HeaderSize + 2 * |tables| + TotalLength(tables) <= PageSize
  {
    EmptyPageLayout();
    CursorsInHeader(EmptyPage());
  }

  /** Two byte ranges of the page that agree byte for byte hold the same u16. */
  lemma SameU16(a: seq<u8>, b: seq<u8>, at: nat)
    requires at + 2 <= |a| == |b| && a[at] == b[at] && a[at + 1] == b[at + 1]
    ensures ReadU16(a, at) == ReadU16(b, at)
  {
    assert a[at..at + 2] == b[at..at + 2];
  }

  /** A write changes only `lower` and `higher` in the header: lsn, checksum,
      flags and special space keep their values. */
  lemma WriteKeepsHeader(before: seq<u8>, after: seq<u8>, tables: seq<TableMetadata>)
    requires Fits(before, tables) && Written(before, after, tables)
    ensures DecodeHeader(after)
         == DecodeHeader(before).(lower := Lower(after), higher := Higher(after))
  {
    CursorsInHeader(before);
    CursorsInHeader(after);
    assert after[0..12] == before[0..12];
    assert after[16..18] == before[16..18];
    assert after[0..8] == after[0..12][0..8] && before[0..8] == before[0..12][0..8];
    assert after[8..10] == after[0..12][8..10] && before[8..10] == before[0..12][8..10];
    assert after[10..12] == after[0..12][10..12] && before[10..12] == before[0..12][10..12];
  }

  /** Records already on the page stay where they were and keep their bytes,
      since a write touches only fresh directory slots and the space below
      the old `higher`. */
  lemma WriteKeepsOldRecords(before: seq<u8>, after: seq<u8>, ts: seq<TableMetadata>,
                             tables: seq<TableMetadata>, i: nat)
    requires Holds(before, ts) && Fits(before, tables) && Written(before, after, tables)
    requires i < |ts|
    ensures ReadU16(after, HeaderSize + 2 * i) == ReadU16(before, HeaderSize + 2 * i)
    ensures StoredAt(after, ReadU16(after, HeaderSize + 2 * i), ts[i])
  {
    var at := HeaderSize + 2 * i;
    SameU16(before, after, at);
    var p := ReadU16(before, at);
    var len := EncodedLength(ts[i]);
    assert after[p..p + len] == before[p..p + len];
    BytesAtKept(before, after, p, EncodeRecord(ts[i]));
  }

  /** The j-th new record sits inside the new tuple area, below the old one. */
  lemma NewRecordPlace(before: seq<u8>, tables: seq<TableMetadata>, j: nat)
    requires Fits(before, tables) && j < |tables|
    ensures Higher(before) - TotalLength(tables) <= TupleStart(Higher(before), tables, j)
    ensures TupleStart(Higher(before), tables, j) + EncodedLength(tables[j]) <= Higher(before)
  {
    TotalLengthPrefix(tables, j);
    TotalLengthStep(tables, j);
  }

  /** After the write, entry i of `ts + tables` points into the new tuple area
      at the encoding of the i-th record. */
  lemma AppendedEntry(before: seq<u8>, after: seq<u8>, ts: seq<TableMetadata>,
                      tables: seq<TableMetadata>, i: nat)
    requires Holds(before, ts) && Fits(before, tables) && Written(before, after, tables)
    requires i < |ts| + |tables|
    ensures Higher(after) <= ReadU16(after, HeaderSize + 2 * i)
    ensures StoredAt(after, ReadU16(after, HeaderSize + 2 * i), (ts + tables)[i])
  {
    if i < |ts| {
      WriteKeepsOldRecords(before, after, ts, tables, i);
    } else {
      NewEntryHeld(before, after, tables, i - |ts|);
    }
  }

  /** The j-th new directory entry points into the new tuple area. */
  lemma NewEntryHeld(before: seq<u8>, after: seq<u8>, tables: seq<TableMetadata>, j: nat)
    requires Fits(before, tables) && Written(before, after, tables) && j < |tables|
    ensures Higher(after) <= ReadU16(after, Lower(before) + 2 * j)
    ensures StoredAt(after, ReadU16(after, Lower(before) + 2 * j), tables[j])
  {
    NewRecordPlace(before, tables, j);
  }

  /** Appending: a page holding `ts` holds `ts + tables` after the write. */
  lemma WriteAppends(before: seq<u8>, after: seq<u8>, ts: seq<TableMetadata>, tables: seq<TableMetadata>)
    requires Holds(before, ts) && Fits(before, tables) && Written(before, after, tables)
    ensures Holds(after, ts + tables)
  {
    forall i | 0 <= i < |ts| + |tables|
      ensures Higher(after) <= ReadU16(after, HeaderSize + 2 * i)
      ensures StoredAt(after, ReadU16(after, HeaderSize + 2 * i), (ts + tables)[i])
    {
      AppendedEntry(before, after, ts, tables, i);
    }
  }

  /** Reading after a write returns the records stored before it followed by
      the new ones, in the order they were written. */
  lemma ReadAfterWrite(before: seq<u8>, after: seq<u8>, ts: seq<TableMetadata>, tables: seq<TableMetadata>)
    requires Holds(before, ts) && Fits(before, tables) && Written(before, after, tables)
    ensures Readable(after) && ReadTables(after) == ts + tables
  {
    WriteAppends(before, after, ts, tables);
    HoldsReadsBack(after, ts + tables);
  }

  /** Create, write a batch, read: the batch comes back unchanged. */
  lemma CreateWriteRead(after: seq<u8>, tables: seq<TableMetadata>)
    requires Fits(EmptyPage(), tables) && Written(EmptyPage(), after, tables)
    ensures Readable(after) && ReadTables(after) == tables
  {
    EmptyPageHoldsNothing();
    ReadAfterWrite(EmptyPage(), after, [], tables);
    assert [] + tables == tables;
  }
}
