/** The tuple layout of one `TableMetadata` record: a u32 id, then the table
    name and the data-file path, each preceded by its u16 byte length. */
module TableCodec {
  import opened LittleEndian

  datatype Option<T> = None | Some(value: T)

  /** Strings are kept as the bytes `as_bytes` yields. */
  datatype TableMetadata = TableMetadata(tableId: u32, tableName: seq<u8>, dataFilePath: seq<u8>)

  /** Both length prefixes can be written without the `as u16` cast losing bits. */
  predicate Encodable(t: TableMetadata)
  {
    |t.tableName| < 0x1_0000 && |t.dataFilePath| < 0x1_0000
  }

  /** The byte count the write path subtracts from `higher` for one record. */
  function EncodedLength(t: TableMetadata): nat
  {
    4 + 2 + |t.tableName| + 2 + |t.dataFilePath|
  }

  /** The bytes copied into the tuple area for one record, in write order. */
  function EncodeRecord(t: TableMetadata): (r: seq<u8>)
    ensures |r| == EncodedLength(t)
  {
    Encode(t.tableId, 4)
      + Encode(AsU16(|t.tableName|), 2) + t.tableName
      + Encode(AsU16(|t.dataFilePath|), 2) + t.dataFilePath
  }

  /** A record's encoding is contiguous: the id in bytes 0..4, the name's
      length in 4..6, the name, the path's length in the next two bytes, then
      the path to the end. */
  lemma EncodeRecordLayout(t: TableMetadata)
    ensures var r, n := EncodeRecord(t), |t.tableName|;
      && r[..4] == Encode(t.tableId, 4)
      && r[4..6] == Encode(AsU16(n), 2)
      && r[6..6 + n] == t.tableName
      && r[6 + n..8 + n] == Encode(AsU16(|t.dataFilePath|), 2)
      && r[8 + n..] == t.dataFilePath
  {
  }

  /** Decodes the record whose first byte is at `p`, reading the fields in the
      read path's order; None where a slice of the read path would run past
      the end of the page (a panic in the source). */
  function DecodeAt(page: seq<u8>, p: nat): (r: Option<TableMetadata>)
    ensures r.Some? ==> p + EncodedLength(r.value) <= |page|
  {
    if p + 6 > |page| then None
    else
      var nameEnd := p + 6 + Decode(page[p + 4..p + 6]);
      if nameEnd + 2 > |page| then None
      else
        var pathEnd := nameEnd + 2 + Decode(page[nameEnd..nameEnd + 2]);
        if pathEnd > |page| then None
        else
          Widths();
          Some(TableMetadata(Decode(page[p..p + 4]), page[p + 6..nameEnd], page[nameEnd + 2..pathEnd]))
  }

  /** Where a record's encoding sits at `p`, each field sits at its offset
      from `p`. */
  lemma FieldsAt(page: seq<u8>, p: nat, t: TableMetadata)
    requires p + EncodedLength(t) <= |page|
    requires page[p..p + EncodedLength(t)] == EncodeRecord(t)
    ensures var n, m := |t.tableName|, |t.dataFilePath|;
      && page[p..p + 4] == Encode(t.tableId, 4)
      && page[p + 4..p + 6] == Encode(AsU16(n), 2)
      && page[p + 6..p + 6 + n] == t.tableName
      && page[p + 6 + n..p + 8 + n] == Encode(AsU16(m), 2)
      && page[p + 8 + n..p + 8 + n + m] == t.dataFilePath
  {
    var n := |t.tableName|;
    var len := EncodedLength(t);
    EncodeRecordLayout(t);
    Subslice(page, p, len, 0, 4);
    Subslice(page, p, len, 4, 6);
    Subslice(page, p, len, 6, 6 + n);
    Subslice(page, p, len, 6 + n, 8 + n);
    Subslice(page, p, len, 8 + n, len);
  }

  /** Round trip: a record whose encoding sits at `p` decodes back to itself. */
  lemma DecodeEncodedAt(page: seq<u8>, p: nat, t: TableMetadata)
    requires Encodable(t)
    requires p + EncodedLength(t) <= |page|
    requires page[p..p + EncodedLength(t)] == EncodeRecord(t)
    ensures DecodeAt(page, p) == Some(t)
  {
    FieldsAt(page, p, t);
    Widths();
    DecodeEncode(t.tableId, 4);
    DecodeEncode(|t.tableName|, 2);
    DecodeEncode(|t.dataFilePath|, 2);
  }

  /** The converse of FieldsAt: fields at their offsets from `p` make up the
      record's encoding. */
  lemma FieldsMakeRecord(page: seq<u8>, p: nat, t: TableMetadata)
    requires p + EncodedLength(t) <= |page|
    requires var n, m := |t.tableName|, |t.dataFilePath|;
      && page[p..p + 4] == Encode(t.tableId, 4)
      && page[p + 4..p + 6] == Encode(AsU16(n), 2)
      && page[p + 6..p + 6 + n] == t.tableName
      && page[p + 6 + n..p + 8 + n] == Encode(AsU16(m), 2)
      && page[p + 8 + n..p + 8 + n + m] == t.dataFilePath
    ensures page[p..p + EncodedLength(t)] == EncodeRecord(t)
  {
    var n, len := |t.tableName|, EncodedLength(t);
    var s := page[p..p + len];
    EncodeRecordLayout(t);
    Subslice(page, p, len, 0, 4);
    Subslice(page, p, len, 4, 6);
    Subslice(page, p, len, 6, 6 + n);
    Subslice(page, p, len, 6 + n, 8 + n);
    Subslice(page, p, len, 8 + n, len);
    AgreeByParts(s, EncodeRecord(t), 4, 6, 6 + n, 8 + n);
  }

  /** The converse: whatever decodes at `p` is stored there in exactly the
      layout the write path produces. */
  lemma EncodeDecodedAt(page: seq<u8>, p: nat)
    requires DecodeAt(page, p).Some?
    ensures var t := DecodeAt(page, p).value;
      Encodable(t) && page[p..p + EncodedLength(t)] == EncodeRecord(t)
  {
    var t := DecodeAt(page, p).value;
    var n := |t.tableName|;
    Widths();
    EncodeDecode(page[p..p + 4]);
    EncodeDecode(page[p + 4..p + 6]);
    EncodeDecode(page[p + 6 + n..p + 8 + n]);
    FieldsMakeRecord(page, p, t);
  }

  lemma Subslice(page: seq<u8>, p: nat, len: nat, a: nat, b: nat)
    requires p + len <= |page| && a <= b <= len
    ensures page[p..p + len][a..b] == page[p + a..p + b]
  {
    var x, y := page[p..p + len][a..b], page[p + a..p + b];
    forall i | 0 <= i < |x| ensures x[i] == y[i] {
      assert x[i] == page[p..p + len][a + i];
    }
  }

  /** Two sequences of equal length that agree on each of the five pieces cut
      at c1 <= c2 <= c3 <= c4 are equal. */
  lemma AgreeByParts(s: seq<u8>, e: seq<u8>, c1: nat, c2: nat, c3: nat, c4: nat)
    requires |s| == |e| && c1 <= c2 <= c3 <= c4 <= |s|
    requires s[..c1] == e[..c1] && s[c1..c2] == e[c1..c2] && s[c2..c3] == e[c2..c3]
    requires s[c3..c4] == e[c3..c4] && s[c4..] == e[c4..]
    ensures s == e
  {
    forall i | 0 <= i < |s| ensures s[i] == e[i] {
      if i < c1 {
        assert s[..c1][i] == e[..c1][i];
      } else if i < c2 {
        assert s[c1..c2][i - c1] == e[c1..c2][i - c1];
      } else if i < c3 {
        assert s[c2..c3][i - c2] == e[c2..c3][i - c2];
      } else if i < c4 {
        assert s[c3..c4][i - c3] == e[c3..c4][i - c3];
      } else {
        assert s[c4..][i - c4] == e[c4..][i - c4];
      }
    }
  }

  /** The bytes a batch of records takes in the tuple area. */
  function TotalLength(ts: seq<TableMetadata>): nat
  {
    if ts == [] then 0 else TotalLength(ts[..|ts| - 1]) + EncodedLength(ts[|ts| - 1])
  }

  /** Each record written moves `higher` down by its own encoded length. */
  lemma TotalLengthStep(ts: seq<TableMetadata>, k: nat)
    requires k < |ts|
    ensures TotalLength(ts[..k + 1]) == TotalLength(ts[..k]) + EncodedLength(ts[k])
  {
    assert ts[..k + 1][..k] == ts[..k];
  }

  /** A prefix of a batch never needs more room than the whole batch, and a
      record needs no more room than the batch that holds it. */
  lemma {:induction false} TotalLengthPrefix(ts: seq<TableMetadata>, k: nat)
    requires k < |ts|
    ensures TotalLength(ts[..k + 1]) <= TotalLength(ts)
    ensures EncodedLength(ts[k]) <= TotalLength(ts)
  {
    TotalLengthStep(ts, k);
    if k + 1 < |ts| {
      var init := ts[..|ts| - 1];
      assert init[..k + 1] == ts[..k + 1];
      TotalLengthPrefix(init, k);
      assert init[k] == ts[k];
    } else {
      assert ts[..k + 1] == ts;
    }
  }

  /** Room taken by two batches written one after the other. */
  lemma {:induction false} TotalLengthAppend(a: seq<TableMetadata>, b: seq<TableMetadata>)
    ensures TotalLength(a + b) == TotalLength(a) + TotalLength(b)
  {
    if b != [] {
      var init := b[..|b| - 1];
      assert (a + b)[..|a + b| - 1] == a + init;
      TotalLengthAppend(a, init);
    } else {
      assert a + b == a;
    }
  }
}
