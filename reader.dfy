/** `lance::io::FileReader` (`lance/io/reader.cc`): opening a file from its footer, and
    reading record batches, tables and single rows through the per-field reads of
    `PageRead`. The file is its bytes; the metadata, manifest and page-table decoders are
    not part of this model and are given as `FileFormat`. The reads the source runs in
    parallel (`std::async`) are modelled in order: the first failed status in field order
    is the one returned, as in the source's loops over the futures. */
module Reader {
  import opened Wrappers
  import opened Bytes
  import opened ArrowType
  import opened LanceSchema
  import opened SchemaProjection
  import opened ColumnData
  import opened PageRead
  import opened ReadPlan

  /** `kMagic`: every file ends with the four bytes "LANC". */
  const Magic: seq<byte> := [0x4C, 0x41, 0x4E, 0x43]

  /** `kPrefetchSize`: `Open` reads at most the last 64 KiB of the file at once. */
  const PrefetchSize: int := 1024 * 64

  // ---------------------------------------------------------------------------
  // The footer.

  /** `ReadFooter`: a buffer holding the end of a file must end with the magic number;
      the metadata offset is the int64 16 bytes before its end. */
  function ReadFooter(buf: seq<byte>): (r: Result<int>)
    requires |buf| >= 16
    ensures r.Err? <==> buf[|buf| - 4..] != Magic
    ensures r.Err? ==> r.error.IOError?
    ensures r.Ok? ==> r.value == ReadInt64(buf, |buf| - 16) && INT64_MIN <= r.value <= INT64_MAX
  {
    if buf[|buf| - 4..] != Magic then Err(IOError("Invalidate file format: MAGIC NUM is not LANC"))
    else Ok(ReadInt64(buf, |buf| - 16))
  }

  /** A footer written as the metadata offset, four more bytes and the magic number reads
      back as that offset, whatever precedes it. */
  lemma FooterRoundTrip(before: seq<byte>, metadataOffset: int, middle: seq<byte>)
    requires INT64_MIN <= metadataOffset <= INT64_MAX && |middle| == 4
    ensures ReadFooter(before + EncodeInt64(metadataOffset) + middle + Magic) == Ok(metadataOffset)
  {
    var buf := before + EncodeInt64(metadataOffset) + middle + Magic;
    assert buf[|buf| - 4..] == Magic;
    Int64RoundTrip(before, metadataOffset, middle + Magic);
    assert before + EncodeInt64(metadataOffset) + (middle + Magic) == buf;
  }

  // ---------------------------------------------------------------------------
  // Opening a file.

  /** The decoders `Open` relies on: `Metadata::Make` over the bytes from the metadata
      offset on, `Metadata::GetManifest`, and `PageTable::Make` given the page-table
      position, the column count and the batch count. */
  datatype FileFormat = FileFormat(
    makeMetadata: seq<byte> -> Result<Metadata>,
    readManifest: Metadata -> Result<Schema>,
    readPageTable: (int, int, int) -> Result<map<(int, int), PageInfo>>)

  /** The members `Open` sets: `cached_last_page_`, `metadata_`, the manifest's schema and
      `page_table_`. */
  datatype ReaderState = ReaderState(
    cachedLastPage: seq<byte>,
    metadata: Metadata,
    schema: Schema,
    pageTable: map<(int, int), PageInfo>)

  /** `footer_read_len`: the bytes `Open` reads from the end of the file. */
  function FooterReadLength(size: int): int {
    Min(size, PrefetchSize)
  }

  /** `FileReader::Open` from state `st`: its status and the state it leaves, each member
      being set as soon as it is read, so a failure keeps what was read before it. */
  function OpenFile(file: seq<byte>, io: FileFormat, st: ReaderState): (r: (Outcome, ReaderState))
  {
    var size := |file|;
    var footerLen := FooterReadLength(size);
    if footerLen < 16 then (Fail(IOError("Invalidate file format: file size < 16")), st)
    else
      match FileReadAt(file, size - footerLen, footerLen)
      case Err(e) => (Fail(e), st)
      case Ok(page) => OpenFromFooter(io, size, page, st.(cachedLastPage := page))
  }

  /** The rest of `Open` once the last `|page|` bytes of a file of `size` bytes are read:
      the footer, then the metadata it points at. */
  function OpenFromFooter(io: FileFormat, size: int, page: seq<byte>, st: ReaderState): (r: (Outcome, ReaderState))
    requires |page| >= 16
  {
    match ReadFooter(page)
    case Err(e) => (Fail(e), st)
    case Ok(metadataOffset) =>
      var inbufOffset := |page| - (size - metadataOffset);
      if !(0 <= inbufOffset <= |page|) then
        (Fail(IOError("Metadata is not in the prefetched footer")), st)
      else
        match io.makeMetadata(page[inbufOffset..])
        case Err(e) => (Fail(e), st)
        case Ok(m) => OpenFromMetadata(io, m, st.(metadata := m))
  }

  /** The rest of `Open` once the metadata is decoded: the manifest, then the page table. */
  function OpenFromMetadata(io: FileFormat, m: Metadata, st: ReaderState): (r: (Outcome, ReaderState))
  {
    match io.readManifest(m)
    case Err(e) => (Fail(e), st)
    case Ok(schema) =>
      var st1 := st.(schema := schema);
      match io.readPageTable(m.pageTablePosition, GetFieldsCount(schema), |m.batchLengths|)
      case Err(e) => (Fail(e), st1)
      case Ok(table) => (Pass, st1.(pageTable := table))
  }

  /** A file of at least 16 bytes has its last page read whole, and `Open` continues from
      the footer in it. */
  lemma OpenReadsLastPage(file: seq<byte>, io: FileFormat, st: ReaderState)
    requires |file| >= 16
    ensures var page := file[|file| - FooterReadLength(|file|)..];
      && |page| == FooterReadLength(|file|) >= 16
      && OpenFile(file, io, st) == OpenFromFooter(io, |file|, page, st.(cachedLastPage := page))
  {
    var size := |file|;
    var footerLen := FooterReadLength(size);
    var page := file[size - footerLen..];
    assert file[size - footerLen..size - footerLen + footerLen] == page;
    assert FileReadAt(file, size - footerLen, footerLen) == Ok(page);
  }

  /** `Open` fails with an IOError, keeping the state, on a file shorter than the
      footer, and, with only the last page read, on a file without the magic number; an
      open that succeeds has read the last page of a file that ends with it. */
  lemma OpenChecksFooter(file: seq<byte>, io: FileFormat, st: ReaderState)
    ensures |file| < 16 ==>
      var r := OpenFile(file, io, st);
      r.0.Fail? && r.0.error.IOError? && r.1 == st
    ensures |file| >= 16 && file[|file| - 4..] != Magic ==>
      var r := OpenFile(file, io, st);
      && r.0.Fail? && r.0.error.IOError?
      && r.1 == st.(cachedLastPage := file[|file| - FooterReadLength(|file|)..])
    ensures OpenFile(file, io, st).0.Pass? ==>
      && |file| >= 16 && file[|file| - 4..] == Magic
      && OpenFile(file, io, st).1.cachedLastPage == file[|file| - FooterReadLength(|file|)..]
  {
    if |file| >= 16 {
      var size := |file|;
      var page := file[size - FooterReadLength(size)..];
      OpenReadsLastPage(file, io, st);
      assert page[|page| - 4..] == file[size - 4..];
      assert ReadFooter(page).Err? <==> file[size - 4..] != Magic;
    }
  }

  /** An open that succeeds decodes the metadata from the bytes at the offset the footer
      records, which lies in the prefetched end of the file, and the manifest and page
      table from that metadata. */
  lemma OpenDecodesFooterMetadata(file: seq<byte>, io: FileFormat, st: ReaderState)
    requires OpenFile(file, io, st).0.Pass?
    ensures
      var reached := OpenFile(file, io, st).1;
      var metadataOffset := ReadInt64(file, |file| - 16);
      && |file| - FooterReadLength(|file|) <= metadataOffset <= |file|
      && io.makeMetadata(file[metadataOffset..]) == Ok(reached.metadata)
      && io.readManifest(reached.metadata) == Ok(reached.schema)
      && io.readPageTable(reached.metadata.pageTablePosition, GetFieldsCount(reached.schema),
                          |reached.metadata.batchLengths|) == Ok(reached.pageTable)
  {
    OpenChecksFooter(file, io, st);
    var size := |file|;
    var page := file[size - FooterReadLength(size)..];
    OpenReadsLastPage(file, io, st);
    var st1 := st.(cachedLastPage := page);
    OpenFromFooterPasses(io, size, page, st1);
    LastPageOffsets(file);
    var metadataOffset := ReadInt64(file, size - 16);
    var inbufOffset := |page| - (size - metadataOffset);
    var m := io.makeMetadata(page[inbufOffset..]).value;
    var st2 := st1.(metadata := m);
    OpenFromMetadataPasses(io, m, st2);
  }

  /** The last page of a file holds its last 16 bytes, and a metadata offset that lies in
      the page is read from the same bytes there as in the file. */
  lemma LastPageOffsets(file: seq<byte>)
    requires |file| >= 16
    ensures var page := file[|file| - FooterReadLength(|file|)..];
      var metadataOffset := ReadInt64(file, |file| - 16);
      var inbufOffset := |page| - (|file| - metadataOffset);
      && ReadInt64(page, |page| - 16) == metadataOffset
      && (0 <= inbufOffset <= |page| ==> page[inbufOffset..] == file[metadataOffset..])
  {
    var size := |file|;
    var page := file[size - FooterReadLength(size)..];
    assert page[|page| - 16..|page| - 8] == file[size - 16..size - 8];
  }

  /** The footer stage of an open that succeeds: the offset the footer records lies in
      the page, and the metadata decoded from there is handed on. */
  lemma OpenFromFooterPasses(io: FileFormat, size: int, page: seq<byte>, st: ReaderState)
    requires |page| >= 16 && OpenFromFooter(io, size, page, st).0.Pass?
    ensures var inbufOffset := |page| - (size - ReadInt64(page, |page| - 16));
      && 0 <= inbufOffset <= |page|
      && io.makeMetadata(page[inbufOffset..]).Ok?
      && var m := io.makeMetadata(page[inbufOffset..]).value;
         OpenFromFooter(io, size, page, st) == OpenFromMetadata(io, m, st.(metadata := m))
  {
  }

  /** The last stage of an open that succeeds: the metadata is kept, and the manifest and
      page table are decoded from it. */
  lemma OpenFromMetadataPasses(io: FileFormat, m: Metadata, st: ReaderState)
    requires OpenFromMetadata(io, m, st).0.Pass?
    ensures var reached := OpenFromMetadata(io, m, st).1;
      && reached.metadata == st.metadata
      && io.readManifest(m) == Ok(reached.schema)
      && io.readPageTable(m.pageTablePosition, GetFieldsCount(reached.schema), |m.batchLengths|) == Ok(reached.pageTable)
  {
  }

  /** The end of a file written as a body, the metadata offset, four more bytes and the
      magic number, as `Open` reads it. */
  lemma WellFormedFooter(body: seq<byte>, metadataOffset: int, middle: seq<byte>)
    requires |middle| == 4 && 0 <= metadataOffset <= INT64_MAX
    ensures var file := body + EncodeInt64(metadataOffset) + middle + Magic;
      var size := |file|;
      var footerLen := FooterReadLength(size);
      && size >= 16 && footerLen >= 16
      && FileReadAt(file, size - footerLen, footerLen) == Ok(file[size - footerLen..])
      && ReadFooter(file[size - footerLen..]) == Ok(metadataOffset)
      && (size - footerLen <= metadataOffset <= size ==>
            file[size - footerLen..][footerLen - (size - metadataOffset)..] == file[metadataOffset..])
  {
    var file := body + EncodeInt64(metadataOffset) + middle + Magic;
    var size := |file|;
    var footerLen := FooterReadLength(size);
    var tail := EncodeInt64(metadataOffset) + middle + Magic;
    assert file == body + tail;
    var pre := body[|body| - (footerLen - 16)..];
    var page := file[size - footerLen..];
    assert page == pre + tail;
    assert page == pre + EncodeInt64(metadataOffset) + middle + Magic;
    FooterRoundTrip(pre, metadataOffset, middle);
    assert file[size - footerLen..size - footerLen + footerLen] == page;
  }

  /** A file whose footer points at its metadata within the last 64 KiB opens when its
      decoders succeed, and the metadata is the one decoded from the bytes at that
      offset. */
  lemma OpenWellFormedFile(body: seq<byte>, metadataOffset: int, middle: seq<byte>,
                           io: FileFormat, st: ReaderState)
    requires |middle| == 4 && 0 <= metadataOffset <= INT64_MAX
    requires var size := |body| + 16;
      size - FooterReadLength(size) <= metadataOffset <= size
    requires var file := body + EncodeInt64(metadataOffset) + middle + Magic;
      && io.makeMetadata(file[metadataOffset..]).Ok?
      && io.readManifest(io.makeMetadata(file[metadataOffset..]).value).Ok?
      && var m := io.makeMetadata(file[metadataOffset..]).value;
         io.readPageTable(m.pageTablePosition, GetFieldsCount(io.readManifest(m).value), |m.batchLengths|).Ok?
    ensures var file := body + EncodeInt64(metadataOffset) + middle + Magic;
      && OpenFile(file, io, st).0 == Pass
      && OpenFile(file, io, st).1.metadata == io.makeMetadata(file[metadataOffset..]).value
  {
    WellFormedFooter(body, metadataOffset, middle);
  }

  // ---------------------------------------------------------------------------
  // Offsets of list arrays.

  /** `ResetOffsets`: the offsets moved to start at zero, one int32 subtraction each. */
  method ResetOffsets(offsets: seq<int>) returns (r: seq<int>)
    requires |offsets| >= 1
    ensures r == Rebased(offsets)
  {
    var startPos := offsets[0];
    r := [];
    var i := 0;
    while i < |offsets|
      invariant 0 <= i <= |offsets|
      invariant r == Rebased(offsets)[..i]
    {
      r := r + [Wrap32(offsets[i] - startPos)];
      i := i + 1;
    }
  }

  // ---------------------------------------------------------------------------
  // Record batches and tables.

  /** `arrow::RecordBatch`: a schema, a row count and one array per field. */
  datatype RecordBatch = RecordBatch(schema: ArrowSchema, numRows: int, columns: seq<Column>)

  /** `arrow::Table`: a schema and one chunked array (a sequence of arrays) per field. */
  datatype Table = Table(schema: ArrowSchema, columns: seq<seq<Column>>)

  /** The rows of batch `b`, as the metadata records them. */
  function BatchLength(m: Metadata, b: int): nat {
    if 0 <= b < |m.batchLengths| then m.batchLengths[b] else 0
  }

  /** `arrow::Concatenate` of a read's chunks, with a single chunk taken as it is: either
      way the rows of all chunks in order. */
  function Concatenate(chunks: seq<Column>): (c: Column)
    requires |chunks| >= 1
    ensures c == Flatten(chunks)
  {
    if |chunks| > 1 then Flatten(chunks)
    else
      assert chunks[1..] == [];
      chunks[0]
  }

  /** The read of one piece of a `ReadAt` plan. */
  function PieceRead(src: Pages, f: Field, p: Piece): Result<Column> {
    GetArray(src, f, p.batch, Range(p.start, Some(p.length)))
  }

  function PieceReads(src: Pages, f: Field, pieces: seq<Piece>): (rs: seq<Result<Column>>)
    ensures |rs| == |pieces| && forall k :: 0 <= k < |pieces| ==> rs[k] == PieceRead(src, f, pieces[k])
  {
    seq(|pieces|, k requires 0 <= k < |pieces| => PieceRead(src, f, pieces[k]))
  }

  /** One field of `ReadAt`: every piece read in order, then concatenated. */
  function ReadAtColumn(src: Pages, f: Field, pieces: seq<Piece>): (r: Result<Column>)
    requires |pieces| >= 1
  {
    var chunks :- Collect(PieceReads(src, f, pieces));
    Ok(Concatenate(chunks))
  }

  function ReadAtColumns(src: Pages, fs: seq<Field>, pieces: seq<Piece>): (rs: seq<Result<Column>>)
    requires |pieces| >= 1
    ensures |rs| == |fs| && forall j :: 0 <= j < |fs| ==> rs[j] == ReadAtColumn(src, fs[j], pieces)
  {
    seq(|fs|, j requires 0 <= j < |fs| => ReadAtColumn(src, fs[j], pieces))
  }

  /** `FileReader::ReadAt(schema, offset, length)`: each field read over the pieces of
      the plan, and the row count taken from the first field. */
  function ReadAtSpec(src: Pages, m: Metadata, schema: Schema, offset: int, length: int): (r: Result<RecordBatch>)
    requires |schema.fields| >= 1 && length >= 1
    ensures !(0 <= offset < Sum(m.batchLengths)) ==> r.Err? && r.error.IndexError?
    ensures r.Ok? ==>
      && r.value.schema == ToArrow(schema)
      && |r.value.columns| == |schema.fields|
      && r.value.numRows == |r.value.columns[0]|
  {
    var pieces :- ReadAtPlan(m, offset, length);
    var columns :- Collect(ReadAtColumns(src, schema.fields, pieces));
    Ok(RecordBatch(ToArrow(schema), |columns[0]|, columns))
  }

  /** `ReadAtSpec` once the plan and the per-field reads are known. */
  lemma ReadAtSpecOf(src: Pages, m: Metadata, schema: Schema, offset: int, length: int,
                     pieces: seq<Piece>, columns: seq<Column>)
    requires |schema.fields| >= 1 && length >= 1
    requires ReadAtPlan(m, offset, length) == Ok(pieces) && |pieces| >= 1
    requires Collect(ReadAtColumns(src, schema.fields, pieces)) == Ok(columns)
    ensures ReadAtSpec(src, m, schema, offset, length) == Ok(RecordBatch(ToArrow(schema), |columns[0]|, columns))
  {
  }

  /** `ReadAtSpec` when one field's read fails. */
  lemma ReadAtSpecFails(src: Pages, m: Metadata, schema: Schema, offset: int, length: int,
                        pieces: seq<Piece>, e: Error)
    requires |schema.fields| >= 1 && length >= 1
    requires ReadAtPlan(m, offset, length) == Ok(pieces) && |pieces| >= 1
    requires Collect(ReadAtColumns(src, schema.fields, pieces)) == Err(e)
    ensures ReadAtSpec(src, m, schema, offset, length) == Err(e)
  {
  }

  /** Chunks each no longer than its piece concatenate to no more rows than the plan
      reads. */
  lemma {:induction false} FlattenWithinPlan(chunks: seq<Column>, pieces: seq<Piece>)
    requires |chunks| == |pieces|
    requires forall k :: 0 <= k < |chunks| ==> |chunks[k]| <= pieces[k].length
    ensures |Flatten(chunks)| <= PlanLength(pieces)
  {
    if chunks != [] {
      FlattenWithinPlan(chunks[1..], pieces[1..]);
    }
  }

  /** A `ReadAt` that succeeds returns at most the clamped number of rows: never more
      than were asked for, and never past the end of the file. */
  lemma ReadAtRowBound(src: Pages, m: Metadata, schema: Schema, offset: int, length: int)
    requires |schema.fields| >= 1 && length >= 1
    requires ReadAtSpec(src, m, schema, offset, length).Ok?
    ensures 0 <= ReadAtSpec(src, m, schema, offset, length).value.numRows <= ClampedLength(m, offset, length)
    ensures ClampedLength(m, offset, length) <= length
  {
    ReadAtPlanCoversRange(m, offset, length);
    var pieces := ReadAtPlan(m, offset, length).value;
    var columns := Collect(ReadAtColumns(src, schema.fields, pieces)).value;
    assert ReadAtColumn(src, schema.fields[0], pieces) == Ok(columns[0]);
    var chunks := Collect(PieceReads(src, schema.fields[0], pieces)).value;
    assert columns[0] == Flatten(chunks);
    forall k | 0 <= k < |chunks| ensures |chunks[k]| <= pieces[k].length {
      var p := pieces[k];
      RangeRowBound(src, schema.fields[0], p.batch, p.start, p.length);
    }
    FlattenWithinPlan(chunks, pieces);
  }

  function ChunkReads(src: Pages, fs: seq<Field>, batchId: int, params: ReadParams): (rs: seq<Result<Column>>)
    ensures |rs| == |fs| && forall j :: 0 <= j < |fs| ==> rs[j] == GetArray(src, fs[j], batchId, params)
  {
    seq(|fs|, j requires 0 <= j < |fs| => GetArray(src, fs[j], batchId, params))
  }

  /** The rows a chunk read with these parameters covers in a batch of `batchLength`
      rows: one per index, or the rows of the range that lie in the batch. */
  function ExpectedRows(params: ReadParams, batchLength: int): (n: int)
    ensures n >= 0
  {
    match params
    case Indices(indices) => |indices|
    case Range(offset, length) =>
      if !(0 <= offset <= batchLength) then 0
      else if length.None? then batchLength - offset
      else Max(0, Min(length.value, batchLength - offset))
  }

  /** The row count `ReadChunk` gives its record batch, as written: the length of the
      first array, which does not exist when the schema has no fields. */
  function ChunkRowsAsWritten(columns: seq<Column>): (n: Option<int>)
    ensures n.None? <==> columns == []
  {
    if |columns| == 0 then None else Some(|columns[0]|)
  }

  /** The corrected row count: the first array's length, or, with no arrays, the rows the
      read parameters cover. */
  function ChunkRows(m: Metadata, batchId: int, params: ReadParams, columns: seq<Column>): (n: int)
    ensures columns != [] ==> Some(n) == ChunkRowsAsWritten(columns)
    ensures columns == [] ==> n == ExpectedRows(params, BatchLength(m, batchId))
  {
    if |columns| > 0 then |columns[0]| else ExpectedRows(params, BatchLength(m, batchId))
  }

  /** `FileReader::ReadChunk(schema, batchId, params)`, with the corrected row count. */
  function ReadChunkSpec(src: Pages, m: Metadata, schema: Schema, batchId: int, params: ReadParams): (r: Result<RecordBatch>)
    ensures r.Ok? <==> forall j :: 0 <= j < |schema.fields| ==> GetArray(src, schema.fields[j], batchId, params).Ok?
    ensures r.Ok? ==>
      && r.value.schema == ToArrow(schema)
      && |r.value.columns| == |schema.fields|
      && (forall j :: 0 <= j < |schema.fields| ==>
           GetArray(src, schema.fields[j], batchId, params) == Ok(r.value.columns[j]))
      && (|schema.fields| >= 1 ==> r.value.numRows == |r.value.columns[0]|)
      && (|schema.fields| == 0 ==> r.value.numRows == ExpectedRows(params, BatchLength(m, batchId)))
  {
    var columns :- Collect(ChunkReads(src, schema.fields, batchId, params));
    Ok(RecordBatch(ToArrow(schema), ChunkRows(m, batchId, params, columns), columns))
  }

  /** A chunk read by indices has one row per index, in the record batch and in every
      array of it, also when the schema has no fields. */
  lemma ReadChunkByIndicesRowCount(src: Pages, m: Metadata, schema: Schema, batchId: int, indices: seq<int>)
    requires ReadChunkSpec(src, m, schema, batchId, Indices(indices)).Ok?
    ensures var rb := ReadChunkSpec(src, m, schema, batchId, Indices(indices)).value;
      && rb.numRows == |indices|
      && forall j :: 0 <= j < |rb.columns| ==> |rb.columns[j]| == |indices|
  {
    var rb := ReadChunkSpec(src, m, schema, batchId, Indices(indices)).value;
    forall j | 0 <= j < |rb.columns| ensures |rb.columns[j]| == |indices| {
      IndicesRowCount(src, schema.fields[j], batchId, indices);
    }
  }

  /** As written, `ReadChunk` over a schema without fields reads the first array of an
      empty list for its row count (reader.cc:284). */
  lemma EmptySchemaChunkAsWritten(src: Pages, m: Metadata, batchId: int, params: ReadParams)
    ensures ReadChunkSpec(src, m, Schema([]), batchId, params).Ok?
    ensures ReadChunkSpec(src, m, Schema([]), batchId, params).value.columns == []
    ensures ChunkRowsAsWritten(ReadChunkSpec(src, m, Schema([]), batchId, params).value.columns).None?
  {
    assert Collect(ChunkReads(src, [], batchId, params)) == Ok([]);
  }

  function BatchReads(src: Pages, f: Field, numBatches: nat): (rs: seq<Result<Column>>)
    ensures |rs| == numBatches && forall b :: 0 <= b < numBatches ==> rs[b] == GetArray(src, f, b, Range(0, None))
  {
    seq(numBatches, b requires 0 <= b < numBatches => GetArray(src, f, b, Range(0, None)))
  }

  lemma BatchReadsOk(src: Pages, f: Field, n: nat)
    ensures Collect(BatchReads(src, f, n)).Ok? <==>
      forall b :: 0 <= b < n ==> GetArray(src, f, b, Range(0, None)).Ok?
  {
    var batches := BatchReads(src, f, n);
    if Collect(batches).Ok? {
      forall b | 0 <= b < n ensures GetArray(src, f, b, Range(0, None)).Ok? {
        assert batches[b].Ok?;
      }
    } else {
      var b :| 0 <= b < n && !batches[b].Ok?;
      assert batches[b] == GetArray(src, f, b, Range(0, None));
    }
  }

  function TableReads(src: Pages, fs: seq<Field>, numBatches: nat): (rs: seq<Result<seq<Column>>>)
    ensures |rs| == |fs| && forall j :: 0 <= j < |fs| ==> rs[j] == Collect(BatchReads(src, fs[j], numBatches))
  {
    seq(|fs|, j requires 0 <= j < |fs| => Collect(BatchReads(src, fs[j], numBatches)))
  }

  lemma TableReadsOk(src: Pages, fs: seq<Field>, n: nat)
    ensures Collect(TableReads(src, fs, n)).Ok? <==>
      forall j, b :: 0 <= j < |fs| && 0 <= b < n ==> GetArray(src, fs[j], b, Range(0, None)).Ok?
  {
    var fieldReads := TableReads(src, fs, n);
    forall j | 0 <= j < |fs|
      ensures fieldReads[j].Ok? <==> forall b :: 0 <= b < n ==> GetArray(src, fs[j], b, Range(0, None)).Ok?
    {
      BatchReadsOk(src, fs[j], n);
    }
    if !Collect(fieldReads).Ok? {
      var j :| 0 <= j < |fs| && !fieldReads[j].Ok?;
      BatchReadsOk(src, fs[j], n);
      assert !Collect(BatchReads(src, fs[j], n)).Ok?;
      var b :| 0 <= b < n && !GetArray(src, fs[j], b, Range(0, None)).Ok?;
    } else {
      forall j, b | 0 <= j < |fs| && 0 <= b < n ensures GetArray(src, fs[j], b, Range(0, None)).Ok? {
        assert fieldReads[j].Ok?;
      }
    }
  }

  /** `FileReader::ReadTable(schema)`: every batch of every field, read whole. */
  function ReadTableSpec(src: Pages, m: Metadata, schema: Schema): (r: Result<Table>)
    ensures r.Ok? <==>
      forall j, b :: 0 <= j < |schema.fields| && 0 <= b < |m.batchLengths| ==>
        GetArray(src, schema.fields[j], b, Range(0, None)).Ok?
    ensures r.Ok? ==>
      && r.value.schema == ToArrow(schema)
      && |r.value.columns| == |schema.fields|
      && forall j :: 0 <= j < |schema.fields| ==> |r.value.columns[j]| == |m.batchLengths|
    ensures r.Ok? ==>
      forall j, b :: 0 <= j < |schema.fields| && 0 <= b < |m.batchLengths| ==>
        GetArray(src, schema.fields[j], b, Range(0, None)) == Ok(r.value.columns[j][b])
  {
    var n := |m.batchLengths|;
    var fieldReads := TableReads(src, schema.fields, n);
    TableReadsOk(src, schema.fields, n);
    var columns :- Collect(fieldReads);
    Ok(Table(ToArrow(schema), columns))
  }

  function ScalarReads(src: Pages, fs: seq<Field>, batchId: int, idx: int): (rs: seq<Result<Value>>)
    ensures |rs| == |fs| && forall j :: 0 <= j < |fs| ==> rs[j] == GetScalar(src, fs[j], batchId, idx)
  {
    seq(|fs|, j requires 0 <= j < |fs| => GetScalar(src, fs[j], batchId, idx))
  }

  /** `FileReader::Get(idx, schema)`: the value of every field at global row `idx`, read
      from the batch that holds the row. */
  function GetSpec(src: Pages, m: Metadata, schema: Schema, idx: int): (r: Result<seq<Value>>)
    ensures !(0 <= idx < Sum(m.batchLengths)) ==> r.Err? && r.error.IndexError?
    ensures r.Ok? ==>
      && 0 <= idx < Sum(m.batchLengths)
      && |r.value| == |schema.fields|
      && var (b, i) := LocateChunk(m.batchLengths, idx).value;
         forall j :: 0 <= j < |schema.fields| ==> GetScalar(src, schema.fields[j], b, i) == Ok(r.value[j])
  {
    var (b, i) :- LocateChunk(m.batchLengths, idx);
    Collect(ScalarReads(src, schema.fields, b, i))
  }

  // ---------------------------------------------------------------------------
  // The reader.

  class FileReader {
    /** The file's bytes and the decoders of its metadata. */
    const file: seq<byte>
    const io: FileFormat
    /** The page decoders, by field. */
    const decoderError: Field -> Option<Error>
    const pageRows: (Field, PageInfo) -> Column

    var cachedLastPage: seq<byte>
    var metadata: Metadata
    var manifestSchema: Schema
    var pageTable: map<(int, int), PageInfo>

    function State(): ReaderState
      reads this
    {
      ReaderState(cachedLastPage, metadata, manifestSchema, pageTable)
    }

    /** What the per-field reads see of this reader. */
    function Source(): Pages
      reads this
    {
      Pages(pageTable, decoderError, pageRows)
    }

    constructor(file: seq<byte>, io: FileFormat, decoderError: Field -> Option<Error>,
                pageRows: (Field, PageInfo) -> Column)
      ensures this.file == file && this.io == io
      ensures this.decoderError == decoderError && this.pageRows == pageRows
      ensures State() == ReaderState([], Metadata([], 0), Schema([]), map[])
    {
      this.file := file;
      this.io := io;
      this.decoderError := decoderError;
      this.pageRows := pageRows;
      cachedLastPage := [];
      metadata := Metadata([], 0);
      manifestSchema := Schema([]);
      pageTable := map[];
    }

    /** `FileReader::Open`. */
    method Open() returns (status: Outcome)
      modifies this
      ensures (status, State()) == OpenFile(file, io, old(State()))
    {
      ghost var st := State();
      var size := |file|;
      var footerLen := Min(size, PrefetchSize);
      if footerLen < 16 {
        return Fail(IOError("Invalidate file format: file size < 16"));
      }
      var page := FileReadAt(file, size - footerLen, footerLen);
      if page.Err? {
        return Fail(page.error);
      }
      ghost var afterPage := st.(cachedLastPage := page.value);
      assert OpenFile(file, io, st) == OpenFromFooter(io, size, page.value, afterPage);
      cachedLastPage := page.value;
      var metadataOffset := ReadFooter(cachedLastPage);
      if metadataOffset.Err? {
        return Fail(metadataOffset.error);
      }
      var inbufOffset := footerLen - (size - metadataOffset.value);
      if !(0 <= inbufOffset <= footerLen) {
        return Fail(IOError("Metadata is not in the prefetched footer"));
      }
      var m := io.makeMetadata(cachedLastPage[inbufOffset..]);
      if m.Err? {
        return Fail(m.error);
      }
      assert OpenFromFooter(io, size, cachedLastPage, afterPage) == OpenFromMetadata(io, m.value, afterPage.(metadata := m.value));
      metadata := m.value;
      var manifest := io.readManifest(metadata);
      if manifest.Err? {
        return Fail(manifest.error);
      }
      manifestSchema := manifest.value;
      var numColumns := GetFieldsCount(manifestSchema);
      var table := io.readPageTable(metadata.pageTablePosition, numColumns, |metadata.batchLengths|);
      if table.Err? {
        return Fail(table.error);
      }
      pageTable := table.value;
      status := Pass;
    }

    /** The inner loop of `ReadAt` for one field: `len` rows from row `idxInChunk` of
        batch `batchId` on, one read per batch, each capped by the rows of the batch it
        reads (the source caps every read by batch `batchId`; see `ReadPlan`). */
    method ReadAtChunks(field: Field, batchId: int, idxInChunk: int, len0: int) returns (r: Result<seq<Column>>)
      requires 0 <= batchId < |metadata.batchLengths|
      ensures r == Collect(PieceReads(Source(), field, Plan(metadata.batchLengths, batchId, idxInChunk, len0)))
    {
      var lengths := metadata.batchLengths;
      ghost var pieces := Plan(lengths, batchId, idxInChunk, len0);
      ghost var pieceReads := PieceReads(Source(), field, pieces);
      var len := len0;
      var chunks: seq<Column> := [];
      var ckid := batchId;
      var ckIndex := idxInChunk;
      while len > 0 && ckid < |lengths|
        invariant batchId <= ckid <= |lengths| && |chunks| <= |pieces|
        invariant Plan(lengths, ckid, ckIndex, len) == pieces[|chunks|..]
        invariant forall k :: 0 <= k < |chunks| ==> pieceReads[k] == Ok(chunks[k])
        decreases |lengths| - ckid
      {
        var pageLength := lengths[ckid];
        var lengthInChunk := Min(len, pageLength - ckIndex);
        PlanStep(lengths, ckid, ckIndex, len, pieces, |chunks|);
        var arr := GetArray(Source(), field, ckid, Range(ckIndex, Some(lengthInChunk)));
        assert arr == pieceReads[|chunks|];
        if arr.Err? {
          CollectFirstError(pieceReads, |chunks|);
          return Err(arr.error);
        }
        len := len - lengthInChunk;
        ckid := ckid + 1;
        ckIndex := 0;
        chunks := chunks + [arr.value];
      }
      assert pieces[|chunks|..] == [];
      CollectAllOk(pieceReads, chunks);
      r := Ok(chunks);
    }

    /** The loop of `ReadAt` over the fields, each read over the same pieces. */
    method ReadAtFields(fields: seq<Field>, batchId: int, idxInChunk: int, len: int) returns (r: Result<seq<Column>>)
      requires 0 <= batchId < |metadata.batchLengths|
      requires |Plan(metadata.batchLengths, batchId, idxInChunk, len)| >= 1
      ensures r == Collect(ReadAtColumns(Source(), fields, Plan(metadata.batchLengths, batchId, idxInChunk, len)))
    {
      ghost var pieces := Plan(metadata.batchLengths, batchId, idxInChunk, len);
      ghost var columnReads := ReadAtColumns(Source(), fields, pieces);
      var arrs: seq<Column> := [];
      var i := 0;
      while i < |fields|
        invariant 0 <= i <= |fields| && |arrs| == i
        invariant forall j :: 0 <= j < i ==> columnReads[j] == Ok(arrs[j])
      {
        var chunks := ReadAtChunks(fields[i], batchId, idxInChunk, len);
        assert columnReads[i] == ReadAtColumn(Source(), fields[i], pieces);
        if chunks.Err? {
          CollectFirstError(columnReads, i);
          return Err(chunks.error);
        }
        var column := if |chunks.value| > 1 then Flatten(chunks.value) else chunks.value[0];
        assert column == Concatenate(chunks.value);
        arrs := arrs + [column];
        i := i + 1;
      }
      CollectAllOk(columnReads, arrs);
      r := Ok(arrs);
    }

    /** `FileReader::ReadAt(schema, offset, length)`. */
    method ReadAt(schema: Schema, offset: int, length: int) returns (r: Result<RecordBatch>)
      requires |schema.fields| >= 1 && length >= 1
      ensures r == ReadAtSpec(Source(), metadata, schema, offset, length)
    {
      var located := LocateChunk(metadata.batchLengths, offset);
      if located.Err? {
        return Err(located.error);
      }
      var (batchId, idxInChunk) := located.value;
      var len := Min(length, Sum(metadata.batchLengths) - offset);
      ghost var pieces := Plan(metadata.batchLengths, batchId, idxInChunk, len);
      assert ReadAtPlan(metadata, offset, length) == Ok(pieces);
      var arrs := ReadAtFields(schema.fields, batchId, idxInChunk, len);
      if arrs.Err? {
        ReadAtSpecFails(Source(), metadata, schema, offset, length, pieces, arrs.error);
        return Err(arrs.error);
      }
      ReadAtSpecOf(Source(), metadata, schema, offset, length, pieces, arrs.value);
      r := Ok(RecordBatch(ToArrow(schema), |arrs.value[0]|, arrs.value));
    }

    /** `FileReader::ReadChunk(schema, batchId, params)`. */
    method ReadChunk(schema: Schema, batchId: int, params: ReadParams) returns (r: Result<RecordBatch>)
      ensures r == ReadChunkSpec(Source(), metadata, schema, batchId, params)
    {
      ghost var fieldReads := ChunkReads(Source(), schema.fields, batchId, params);
      var arrs: seq<Column> := [];
      var i := 0;
      while i < |schema.fields|
        invariant 0 <= i <= |schema.fields| && |arrs| == i
        invariant forall j :: 0 <= j < i ==> fieldReads[j] == Ok(arrs[j])
      {
        var arr := GetArray(Source(), schema.fields[i], batchId, params);
        assert arr == fieldReads[i];
        if arr.Err? {
          CollectFirstError(fieldReads, i);
          return Err(arr.error);
        }
        arrs := arrs + [arr.value];
        i := i + 1;
      }
      CollectAllOk(fieldReads, arrs);
      var numRows := if |arrs| > 0 then |arrs[0]| else ExpectedRows(params, BatchLength(metadata, batchId));
      assert numRows == ChunkRows(metadata, batchId, params, arrs);
      r := Ok(RecordBatch(ToArrow(schema), numRows, arrs));
    }

    /** `FileReader::ReadChunk(schema, batchId, length)`: the batch from its first row. */
    method ReadChunkRange(schema: Schema, batchId: int, length: Option<int>) returns (r: Result<RecordBatch>)
      ensures r == ReadChunkSpec(Source(), metadata, schema, batchId, Range(0, length))
    {
      r := ReadChunk(schema, batchId, Range(0, length));
    }

    /** `FileReader::ReadChunk(schema, batchId, indices)`. */
    method ReadChunkIndices(schema: Schema, batchId: int, indices: seq<int>) returns (r: Result<RecordBatch>)
      ensures r == ReadChunkSpec(Source(), metadata, schema, batchId, Indices(indices))
      ensures r.Ok? ==> r.value.numRows == |indices|
    {
      r := ReadChunk(schema, batchId, Indices(indices));
      if r.Ok? {
        ReadChunkByIndicesRowCount(Source(), metadata, schema, batchId, indices);
      }
    }

    /** The inner loop of `ReadTable(schema)`: every batch of one field, read whole. */
    method ReadBatches(field: Field) returns (r: Result<seq<Column>>)
      ensures r == Collect(BatchReads(Source(), field, |metadata.batchLengths|))
    {
      var numBatches := |metadata.batchLengths|;
      ghost var batchReads := BatchReads(Source(), field, numBatches);
      var chunks: seq<Column> := [];
      var b := 0;
      while b < numBatches
        invariant 0 <= b <= numBatches && |chunks| == b
        invariant forall k :: 0 <= k < b ==> batchReads[k] == Ok(chunks[k])
      {
        var arr := GetArray(Source(), field, b, Range(0, None));
        assert arr == batchReads[b];
        if arr.Err? {
          CollectFirstError(batchReads, b);
          return Err(arr.error);
        }
        chunks := chunks + [arr.value];
        b := b + 1;
      }
      CollectAllOk(batchReads, chunks);
      r := Ok(chunks);
    }

    /** `FileReader::ReadTable(schema)`. */
    method ReadTable(schema: Schema) returns (r: Result<Table>)
      ensures r == ReadTableSpec(Source(), metadata, schema)
    {
      ghost var fieldReads := TableReads(Source(), schema.fields, |metadata.batchLengths|);
      var columns: seq<seq<Column>> := [];
      var i := 0;
      while i < |schema.fields|
        invariant 0 <= i <= |schema.fields| && |columns| == i
        invariant forall j :: 0 <= j < i ==> fieldReads[j] == Ok(columns[j])
      {
        var chunks := ReadBatches(schema.fields[i]);
        assert chunks == fieldReads[i];
        if chunks.Err? {
          CollectFirstError(fieldReads, i);
          return Err(chunks.error);
        }
        columns := columns + [chunks.value];
        i := i + 1;
      }
      CollectAllOk(fieldReads, columns);
      r := Ok(Table(ToArrow(schema), columns));
    }

    /** `FileReader::ReadTable(columns)`: the projection of the file's schema onto the
        named columns, read whole. */
    method ReadTableColumns(columns: seq<string>) returns (r: Result<Table>)
      ensures Project(manifestSchema, columns).Err? ==> r == Err(Project(manifestSchema, columns).error)
      ensures Project(manifestSchema, columns).Ok? ==>
        r == ReadTableSpec(Source(), metadata, Project(manifestSchema, columns).value)
    {
      var projection := Project(manifestSchema, columns);
      if projection.Err? {
        return Err(projection.error);
      }
      r := ReadTable(projection.value);
    }

    /** `FileReader::ReadTable()`: the whole file. */
    method ReadWholeTable() returns (r: Result<Table>)
      ensures r == ReadTableSpec(Source(), metadata, manifestSchema)
    {
      r := ReadTable(manifestSchema);
    }

    /** `FileReader::Get(idx, schema)`. */
    method Get(idx: int, schema: Schema) returns (r: Result<seq<Value>>)
      ensures r == GetSpec(Source(), metadata, schema, idx)
    {
      var located := LocateChunk(metadata.batchLengths, idx);
      if located.Err? {
        return Err(located.error);
      }
      var (batchId, idxInChunk) := located.value;
      ghost var fieldReads := ScalarReads(Source(), schema.fields, batchId, idxInChunk);
      var row: seq<Value> := [];
      var i := 0;
      while i < |schema.fields|
        invariant 0 <= i <= |schema.fields| && |row| == i
        invariant forall j :: 0 <= j < i ==> fieldReads[j] == Ok(row[j])
      {
        var v := GetScalar(Source(), schema.fields[i], batchId, idxInChunk);
        assert v == fieldReads[i];
        if v.Err? {
          CollectFirstError(fieldReads, i);
          return Err(v.error);
        }
        row := row + [v.value];
        i := i + 1;
      }
      CollectAllOk(fieldReads, row);
      r := Ok(row);
    }

    /** `FileReader::Get(idx, columns)`: the named columns of one row. */
    method GetColumns(idx: int, columns: seq<string>) returns (r: Result<seq<Value>>)
      ensures Project(manifestSchema, columns).Err? ==> r == Err(Project(manifestSchema, columns).error)
      ensures Project(manifestSchema, columns).Ok? ==>
        r == GetSpec(Source(), metadata, Project(manifestSchema, columns).value, idx)
    {
      var projection := Project(manifestSchema, columns);
      if projection.Err? {
        return Err(projection.error);
      }
      r := Get(idx, projection.value);
    }

    /** `FileReader::Get(idx)`: every column of one row. */
    method GetRow(idx: int) returns (r: Result<seq<Value>>)
      ensures r == GetSpec(Source(), metadata, manifestSchema, idx)
    {
      r := Get(idx, manifestSchema);
    }
  }
}
