/** Reading one field of one batch: the page lookup and the type dispatch of
    `FileReader::GetArray` and `FileReader::GetScalar` (`lance/io/reader.cc:103-172,
    287-395`). The page table and the page decoders are not part of this model: the
    table is a map from (field id, batch id) to a page, and a decoder is the rows its
    page decodes to, or the error opening it raises. */
module PageRead {
  import opened Wrappers
  import opened ArrowType
  import opened LanceSchema
  import opened ColumnData

  /** A page's position and length in the file. */
  datatype PageInfo = PageInfo(position: int, length: int)

  /** `ArrayReadParams`: a row range (an offset and an optional length) or row indices. */
  datatype ReadParams =
    | Range(offset: int, length: Option<int>)
    | Indices(indices: seq<int>)

  /** What the reader knows about the pages of an open file. */
  datatype Pages = Pages(
    table: map<(int, int), PageInfo>,
    decoderError: Field -> Option<Error>,
    pageRows: (Field, PageInfo) -> Column)

  /** `FileReader::GetPageInfo`: the page of a field in a batch, or Invalid when the page
      table has none. */
  function GetPageInfo(pages: Pages, fieldId: int, batchId: int): (r: Result<PageInfo>)
    ensures r.Ok? <==> (fieldId, batchId) in pages.table
    ensures r.Ok? ==> r.value == pages.table[(fieldId, batchId)]
    ensures r.Err? ==> r.error.Invalid?
  {
    if (fieldId, batchId) in pages.table then Ok(pages.table[(fieldId, batchId)])
    else Err(Invalid("Invalid access for chunk offset"))
  }

  /** `Field::GetDecoder`: fails with the field's decoder error, if it has one. */
  function OpenDecoder(pages: Pages, f: Field): (r: Result<Field>)
    ensures r.Ok? <==> pages.decoderError(f).None?
    ensures r.Err? ==> r.error == pages.decoderError(f).value
  {
    match pages.decoderError(f)
    case Some(e) => Err(e)
    case None => Ok(f)
  }

  function Names(fs: seq<Field>): (r: seq<string>)
    ensures |r| == |fs| && forall j :: 0 <= j < |fs| ==> r[j] == fs[j].name
  {
    seq(|fs|, j requires 0 <= j < |fs| => fs[j].name)
  }

  // ---------------------------------------------------------------------------
  // Arrays.

  /** `GetPrimitiveArray`: look up the page, open the decoder, then take the indices or
      decode the range. */
  function GetPrimitiveArray(pages: Pages, f: Field, batchId: int, params: ReadParams): (r: Result<Column>)
    ensures (f.id, batchId) !in pages.table ==> r == Err(GetPageInfo(pages, f.id, batchId).error)
    ensures (f.id, batchId) in pages.table && pages.decoderError(f).Some? ==> r == Err(pages.decoderError(f).value)
    ensures params.Indices? && r.Ok? ==> |r.value| == |params.indices|
  {
    var page :- GetPageInfo(pages, f.id, batchId);
    var _ :- OpenDecoder(pages, f);
    var rows := pages.pageRows(f, page);
    match params
    case Indices(ix) => TakeRows(rows, ix)
    case Range(offset, length) => DecodeRange(rows, offset, length)
  }

  /** `GetDictionaryArray`: a dictionary field is read as its primitive indices. */
  function GetDictionaryArray(pages: Pages, f: Field, batchId: int, params: ReadParams): Result<Column>
    requires IsDictionary(f.typeId)
  {
    GetPrimitiveArray(pages, f, batchId, params)
  }

  /** `GetArray`: dispatch on the field's Arrow type, in the order struct, list,
      dictionary, primitive. */
  function GetArray(pages: Pages, f: Field, batchId: int, params: ReadParams): Result<Column>
    decreases f, 3
  {
    var dtype := TypeOf(f);
    if IsStruct(dtype) then GetStructArray(pages, f, batchId, params)
    else if IsList(dtype) then GetListArray(pages, f, batchId, params)
    else if IsDictionary(dtype.id) then GetDictionaryArray(pages, f, batchId, params)
    else GetPrimitiveArray(pages, f, batchId, params)
  }

  /** `GetStructArray`: read every child with the same parameters, then build the struct. */
  function GetStructArray(pages: Pages, f: Field, batchId: int, params: ReadParams): Result<Column>
    decreases f, 2
  {
    var children :- GetChildArrays(pages, f.children, batchId, params);
    StructArrayMake(children, Names(f.children))
  }

  /** The arrays of `fs`, in order; the first failure is returned. */
  function GetChildArrays(pages: Pages, fs: seq<Field>, batchId: int, params: ReadParams): (r: Result<seq<Column>>)
    ensures r.Ok? ==> |r.value| == |fs|
    ensures r.Ok? ==> forall j :: 0 <= j < |fs| ==> GetArray(pages, fs[j], batchId, params) == Ok(r.value[j])
    ensures r.Err? ==> exists j :: (0 <= j < |fs| && GetArray(pages, fs[j], batchId, params) == Err(r.error) &&
      forall k :: 0 <= k < j ==> GetArray(pages, fs[k], batchId, params).Ok?)
    decreases fs, 0
  {
    if fs == [] then Ok([])
    else
      var first :- GetArray(pages, fs[0], batchId, params);
      var rest :- GetChildArrays(pages, fs[1..], batchId, params);
      assert forall j :: 1 <= j < |fs| ==> fs[j] == fs[1..][j - 1];
      Ok([first] + rest)
  }

  /** `GetListArray`. With indices: an IndexError for none; otherwise the list rows of the
      whole batch at the indices (the corrected form of reader.cc:339-344, see
      `ListIndicesAsWritten`). With a range: read the offsets, read the child values the
      offsets cover, and rebase the offsets. */
  function GetListArray(pages: Pages, f: Field, batchId: int, params: ReadParams): Result<Column>
    decreases f, if params.Indices? then 2 else 1
  {
    match params
    case Indices(ix) =>
      if |ix| == 0 then Err(IndexError("FileReader::GetListArray: indices is empty"))
      else TakeOver(GetListArray(pages, f, batchId, Range(0, None)), ix)
    case Range(_, _) =>
      var offsetRows :- GetPrimitiveArray(pages, f, batchId, params);
      GetListValues(pages, f, batchId, offsetRows)
  }

  /** The range from `xs[0]`, as long as the int32 difference between the last of `xs`
      and the first: the window the source reads for indices and for list offsets. */
  function Span(xs: seq<int>): ReadParams
    requires |xs| >= 1
  {
    Range(xs[0], Some(Wrap32(xs[|xs| - 1] - xs[0])))
  }

  /** The rows at the indices of a read, or the failure of that read. */
  function TakeOver(unfiltered: Result<Column>, ix: seq<int>): (r: Result<Column>)
    ensures unfiltered.Err? ==> r == Err(unfiltered.error)
    ensures unfiltered.Ok? ==> r == TakeRows(unfiltered.value, ix)
    ensures r.Ok? ==> |r.value| == |ix|
  {
    var rows :- unfiltered;
    TakeRows(rows, ix)
  }

  /** The range branch of `GetListArray` once the offsets are read: the child values
      they cover, read as one window, under the rebased offsets. */
  function GetListValues(pages: Pages, f: Field, batchId: int, offsetRows: Column): (r: Result<Column>)
    ensures r.Ok? ==> |r.value| == |offsetRows| - 1
    decreases f, 0
  {
    match AsInt32s(offsetRows)
    case None => Err(Invalid("List offsets are not int32"))
    case Some(offsets) =>
      if |offsets| == 0 then Err(IndexError("List offsets are empty"))
      else if |f.children| == 0 then Err(Invalid("List field has no child"))
      else
        var values :- GetArray(pages, f.children[0], batchId, Span(offsets));
        ListFromArrays(Rebased(offsets), values)
  }

  // ---------------------------------------------------------------------------
  // The indices branch of `GetListArray` as written (reader.cc:339-344).

  /** As written: read the list range from the first index, as long as the last index
      minus the first, and take the indices, not moved by the first, from that range. */
  function ListIndicesAsWritten(pages: Pages, f: Field, batchId: int, ix: seq<int>): Result<Column>
    requires |ix| >= 1
  {
    TakeOver(GetListArray(pages, f, batchId, Span(ix)), ix)
  }

  /** A list range read of `n` rows from `start` reads at most `n` offsets from a start
      inside the page, and so gives at most `n - 1` lists. */
  lemma ListRangeShort(pages: Pages, f: Field, batchId: int, start: int, n: int)
    requires GetListArray(pages, f, batchId, Range(start, Some(n))).Ok?
    ensures 0 <= start
    ensures |GetListArray(pages, f, batchId, Range(start, Some(n))).value| <= n - 1
  {
    var params := Range(start, Some(n));
    var offsetRows := GetPrimitiveArray(pages, f, batchId, params);
    assert offsetRows.Ok?;
    var page := GetPageInfo(pages, f.id, batchId).value;
    assert offsetRows == DecodeRange(pages.pageRows(f, page), start, Some(n));
  }

  /** As written, every list read by a non-empty set of indices fails: the range read
      ends one row before the last index, and the indices are not moved to the range's
      start, so the last index always falls outside what was read. Reading indices [0]
      reads an empty range and then fails to take row 0 of it. */
  lemma ListIndicesAsWrittenFails(pages: Pages, f: Field, batchId: int, ix: seq<int>)
    requires |ix| >= 1
    ensures ListIndicesAsWritten(pages, f, batchId, ix).Err?
  {
    var first, last := ix[0], ix[|ix| - 1];
    var n := Wrap32(last - first);
    var unfiltered := GetListArray(pages, f, batchId, Span(ix));
    if unfiltered.Ok? {
      ListRangeShort(pages, f, batchId, first, n);
    }
  }

  /** Corrected: a list read by indices gives the list rows of the whole batch at those
      indices, one row per index, and fails exactly when the whole read fails or an
      index lies outside the batch. */
  lemma ListIndicesTakeBatchRows(pages: Pages, f: Field, batchId: int, ix: seq<int>)
    requires IsList(TypeOf(f)) && |ix| >= 1
    ensures GetArray(pages, f, batchId, Indices(ix)) == TakeOver(GetArray(pages, f, batchId, Range(0, None)), ix)
    ensures GetArray(pages, f, batchId, Indices(ix)).Ok? <==>
      GetArray(pages, f, batchId, Range(0, None)).Ok? &&
      forall i :: 0 <= i < |ix| ==> 0 <= ix[i] < |GetArray(pages, f, batchId, Range(0, None)).value|
    ensures GetArray(pages, f, batchId, Indices(ix)).Ok? ==>
      var whole := GetArray(pages, f, batchId, Range(0, None)).value;
      var r := GetArray(pages, f, batchId, Indices(ix)).value;
      |r| == |ix| && forall i :: 0 <= i < |ix| ==> r[i] == whole[ix[i]]
  {
    assert !IsStruct(TypeOf(f));
    assert GetArray(pages, f, batchId, Indices(ix)) == GetListArray(pages, f, batchId, Indices(ix));
    assert GetArray(pages, f, batchId, Range(0, None)) == GetListArray(pages, f, batchId, Range(0, None));
  }

  // ---------------------------------------------------------------------------
  // Scalars.

  /** `GetScalar`: dispatch on the logical type: "struct", then "list" or "list.struct",
      then primitive. */
  function GetScalar(pages: Pages, f: Field, batchId: int, idx: int): Result<Value>
    decreases f, 2
  {
    if f.logicalType == "struct" then GetStructScalar(pages, f, batchId, idx)
    else if f.logicalType == "list" || f.logicalType == "list.struct" then GetListScalar(pages, f, batchId, idx)
    else GetPrimitiveScalar(pages, f, batchId, idx)
  }

  /** `GetPrimitiveScalar`: open the decoder, look up the page, decode one row. */
  function GetPrimitiveScalar(pages: Pages, f: Field, batchId: int, idx: int): (r: Result<Value>)
    ensures pages.decoderError(f).Some? ==> r == Err(pages.decoderError(f).value)
    ensures pages.decoderError(f).None? && (f.id, batchId) in pages.table ==>
      r == DecodeScalar(pages.pageRows(f, pages.table[(f.id, batchId)]), idx)
  {
    var _ :- OpenDecoder(pages, f);
    var page :- GetPageInfo(pages, f.id, batchId);
    DecodeScalar(pages.pageRows(f, page), idx)
  }

  /** `GetStructScalar`: the scalars of all children at the same row. */
  function GetStructScalar(pages: Pages, f: Field, batchId: int, idx: int): Result<Value>
    decreases f, 1
  {
    var values :- GetChildScalars(pages, f.children, batchId, idx);
    Ok(StructVal(Names(f.children), values))
  }

  /** The scalars of `fs` at the same row, in order; the first failure is returned. */
  function GetChildScalars(pages: Pages, fs: seq<Field>, batchId: int, idx: int): (r: Result<seq<Value>>)
    ensures r.Ok? ==> |r.value| == |fs|
    ensures r.Ok? ==> forall j :: 0 <= j < |fs| ==> GetScalar(pages, fs[j], batchId, idx) == Ok(r.value[j])
    ensures r.Err? ==> exists j :: (0 <= j < |fs| && GetScalar(pages, fs[j], batchId, idx) == Err(r.error) &&
      forall k :: 0 <= k < j ==> GetScalar(pages, fs[k], batchId, idx).Ok?)
    decreases fs, 0
  {
    if fs == [] then Ok([])
    else
      var first :- GetScalar(pages, fs[0], batchId, idx);
      var rest :- GetChildScalars(pages, fs[1..], batchId, idx);
      assert forall j :: 1 <= j < |fs| ==> fs[j] == fs[1..][j - 1];
      Ok([first] + rest)
  }

  /** `GetListScalar`: read the two offsets around the row, read the child values between
      them, check that they form a list, and return those values. */
  function GetListScalar(pages: Pages, f: Field, batchId: int, idx: int): Result<Value>
    decreases f, 1
  {
    var _ :- OpenDecoder(pages, f);
    var page :- GetPageInfo(pages, f.id, batchId);
    var offsetRows :- DecodeRange(pages.pageRows(f, page), idx, Some(2));
    match AsInt32s(offsetRows)
    case None => Err(Invalid("List offsets are not int32"))
    case Some(offsets) =>
      if |offsets| < 2 then Err(IndexError("List offsets are missing"))
      else if |f.children| == 0 then Err(Invalid("List field has no child"))
      else
        var values :- GetArray(pages, f.children[0], batchId, Range(offsets[0], Some(Wrap32(offsets[1] - offsets[0]))));
        var _ :- ListFromArrays(Rebased(offsets), values);
        Ok(ListVal(values))
  }

  // ---------------------------------------------------------------------------
  // Properties of the dispatch.

  /** A field that is neither a struct nor a list is read from its own page: dictionary
      fields and primitive fields alike. */
  lemma FlatFieldsReadTheirPage(pages: Pages, f: Field, batchId: int, params: ReadParams)
    requires !IsStruct(TypeOf(f)) && !IsList(TypeOf(f))
    ensures GetArray(pages, f, batchId, params) == GetPrimitiveArray(pages, f, batchId, params)
  {
  }

  /** A dictionary field is read as its indices, from its own page: a range of the
      page's rows or the rows at the indices. */
  lemma DictionaryFieldReadsItsPage(pages: Pages, f: Field, batchId: int, params: ReadParams)
    requires IsDictionary(f.typeId)
    requires (f.id, batchId) in pages.table && pages.decoderError(f).None?
    ensures var rows := pages.pageRows(f, pages.table[(f.id, batchId)]);
      GetArray(pages, f, batchId, params) ==
        match params
        case Range(offset, length) => DecodeRange(rows, offset, length)
        case Indices(ix) => TakeRows(rows, ix)
  {
    assert !IsList(TypeOf(f)) && !IsStruct(TypeOf(f));
    assert GetArray(pages, f, batchId, params) == GetDictionaryArray(pages, f, batchId, params);
  }

  /** A struct field is read child by child with the same parameters. The read succeeds
      exactly when there is a child, every child reads, and all children have as many
      rows as the first; row `i` then holds every child's row `i` under the children's
      names. */
  lemma StructArrayRows(pages: Pages, f: Field, batchId: int, params: ReadParams)
    requires IsStruct(TypeOf(f))
    ensures GetArray(pages, f, batchId, params).Ok? <==>
      && |f.children| >= 1
      && forall j :: 0 <= j < |f.children| ==>
           && GetArray(pages, f.children[j], batchId, params).Ok?
           && GetArray(pages, f.children[0], batchId, params).Ok?
           && |GetArray(pages, f.children[j], batchId, params).value| == |GetArray(pages, f.children[0], batchId, params).value|
    ensures GetArray(pages, f, batchId, params).Ok? ==>
      var rows := GetArray(pages, f, batchId, params).value;
      && |rows| == |GetArray(pages, f.children[0], batchId, params).value|
      && forall i :: 0 <= i < |rows| ==>
           && rows[i].StructVal? && rows[i].names == Names(f.children) && |rows[i].fields| == |f.children|
           && forall j :: 0 <= j < |f.children| ==> rows[i].fields[j] == GetArray(pages, f.children[j], batchId, params).value[i]
  {
    assert GetArray(pages, f, batchId, params) == GetStructArray(pages, f, batchId, params);
    var kids := GetChildArrays(pages, f.children, batchId, params);
    if kids.Ok? {
      var children := kids.value;
      var made := StructArrayMake(children, Names(f.children));
      if made.Ok? {
        forall i | 0 <= i < |made.value|
          ensures made.value[i] == StructRow(children, Names(f.children), i)
        {
        }
      }
    }
  }

  /** A struct scalar holds every child's scalar at the same row, under the children's
      names; it fails with the first child, in order, that fails. */
  lemma StructScalarFields(pages: Pages, f: Field, batchId: int, idx: int)
    requires f.logicalType == "struct"
    ensures GetScalar(pages, f, batchId, idx).Ok? <==>
      forall j :: 0 <= j < |f.children| ==> GetScalar(pages, f.children[j], batchId, idx).Ok?
    ensures GetScalar(pages, f, batchId, idx).Ok? ==>
      var v := GetScalar(pages, f, batchId, idx).value;
      && v.StructVal? && v.names == Names(f.children) && |v.fields| == |f.children|
      && forall j :: 0 <= j < |f.children| ==> GetScalar(pages, f.children[j], batchId, idx) == Ok(v.fields[j])
    ensures GetScalar(pages, f, batchId, idx).Err? ==>
      exists j :: 0 <= j < |f.children| && GetScalar(pages, f.children[j], batchId, idx) == Err(GetScalar(pages, f, batchId, idx).error) &&
        forall k :: 0 <= k < j ==> GetScalar(pages, f.children[k], batchId, idx).Ok?
  {
    assert GetScalar(pages, f, batchId, idx) == GetStructScalar(pages, f, batchId, idx);
  }

  /** A field of any other logical type gives the row of its own page at the index, and
      an IndexError for an index outside the page. */
  lemma FlatScalarReadsItsRow(pages: Pages, f: Field, batchId: int, idx: int)
    requires f.logicalType != "struct" && f.logicalType != "list" && f.logicalType != "list.struct"
    requires (f.id, batchId) in pages.table && pages.decoderError(f).None?
    ensures var rows := pages.pageRows(f, pages.table[(f.id, batchId)]);
      && (GetScalar(pages, f, batchId, idx).Ok? <==> 0 <= idx < |rows|)
      && (GetScalar(pages, f, batchId, idx).Ok? ==> GetScalar(pages, f, batchId, idx).value == rows[idx])
      && (GetScalar(pages, f, batchId, idx).Err? ==> GetScalar(pages, f, batchId, idx).error.IndexError?)
  {
    assert GetScalar(pages, f, batchId, idx) == GetPrimitiveScalar(pages, f, batchId, idx);
  }

  /** Reading a list field at no indices is an IndexError. */
  lemma ListWithoutIndicesFails(pages: Pages, f: Field, batchId: int)
    requires f.typeId == List || f.typeId == LargeList
    ensures GetArray(pages, f, batchId, Indices([])).Err?
    ensures GetArray(pages, f, batchId, Indices([])).error.IndexError?
  {
  }

  /** A read by indices returns exactly one row per index, whatever the field's type. */
  lemma {:induction false} IndicesRowCount(pages: Pages, f: Field, batchId: int, indices: seq<int>)
    ensures GetArray(pages, f, batchId, Indices(indices)).Ok? ==>
      |GetArray(pages, f, batchId, Indices(indices)).value| == |indices|
    decreases f, 1
  {
    var params := Indices(indices);
    var dtype := TypeOf(f);
    if IsStruct(dtype) {
      ChildIndicesRowCount(pages, f.children, batchId, indices);
      assert GetArray(pages, f, batchId, params) == GetStructArray(pages, f, batchId, params);
    } else if IsList(dtype) {
      ListIndicesRowCount(pages, f, batchId, indices);
    } else {
      assert GetArray(pages, f, batchId, params) == GetPrimitiveArray(pages, f, batchId, params);
    }
  }

  lemma ListIndicesRowCount(pages: Pages, f: Field, batchId: int, indices: seq<int>)
    requires IsList(TypeOf(f))
    ensures GetArray(pages, f, batchId, Indices(indices)).Ok? ==>
      |GetArray(pages, f, batchId, Indices(indices)).value| == |indices|
  {
    var params := Indices(indices);
    assert GetArray(pages, f, batchId, params) == GetListArray(pages, f, batchId, params);
  }

  lemma {:induction false} ChildIndicesRowCount(pages: Pages, fs: seq<Field>, batchId: int, indices: seq<int>)
    ensures GetChildArrays(pages, fs, batchId, Indices(indices)).Ok? ==>
      forall j :: 0 <= j < |fs| ==> |GetChildArrays(pages, fs, batchId, Indices(indices)).value[j]| == |indices|
    decreases fs, 0
  {
    forall j | 0 <= j < |fs| {
      IndicesRowCount(pages, fs[j], batchId, indices);
    }
  }

  /** A read of a range of `n` rows never returns more than `n` rows. */
  lemma {:induction false} RangeRowBound(pages: Pages, f: Field, batchId: int, offset: int, n: int)
    ensures GetArray(pages, f, batchId, Range(offset, Some(n))).Ok? ==>
      |GetArray(pages, f, batchId, Range(offset, Some(n))).value| <= n
    decreases f, 1
  {
    var params := Range(offset, Some(n));
    var dtype := TypeOf(f);
    if IsStruct(dtype) {
      ChildRangeRowBound(pages, f.children, batchId, offset, n);
      assert GetArray(pages, f, batchId, params) == GetStructArray(pages, f, batchId, params);
    } else if IsList(dtype) {
      assert GetArray(pages, f, batchId, params) == GetListArray(pages, f, batchId, params);
      var offsetRows := GetPrimitiveArray(pages, f, batchId, params);
      if offsetRows.Ok? {
        assert GetListArray(pages, f, batchId, params) == GetListValues(pages, f, batchId, offsetRows.value);
      }
    } else {
      assert GetArray(pages, f, batchId, params) == GetPrimitiveArray(pages, f, batchId, params);
    }
  }

  lemma {:induction false} ChildRangeRowBound(pages: Pages, fs: seq<Field>, batchId: int, offset: int, n: int)
    ensures GetChildArrays(pages, fs, batchId, Range(offset, Some(n))).Ok? ==>
      forall j :: 0 <= j < |fs| ==> |GetChildArrays(pages, fs, batchId, Range(offset, Some(n))).value[j]| <= n
    decreases fs, 0
  {
    forall j | 0 <= j < |fs| {
      RangeRowBound(pages, fs[j], batchId, offset, n);
    }
  }

  /** The rows `first` to `last` of a page, read as a range of it. */
  lemma FlatChildWindow(pages: Pages, child: Field, batchId: int, first: int, last: int)
    requires (child.id, batchId) in pages.table && pages.decoderError(child).None?
    requires 0 <= first <= last <= |pages.pageRows(child, pages.table[(child.id, batchId)])|
    ensures GetPrimitiveArray(pages, child, batchId, Range(first, Some(last - first))) ==
      Ok(pages.pageRows(child, pages.table[(child.id, batchId)])[first..last])
  {
    var rows := pages.pageRows(child, pages.table[(child.id, batchId)]);
    assert GetPrimitiveArray(pages, child, batchId, Range(first, Some(last - first))) ==
      DecodeRange(rows, first, Some(last - first));
  }

  /** A list field whose child is a flat column: the list rows read for a range are
      the slices of the child's page between consecutive stored offsets. Reading only the
      covered child values and rebasing the offsets loses nothing. */
  lemma ListOverFlatChild(pages: Pages, f: Field, batchId: int, params: ReadParams, offsets: seq<int>)
    requires params.Range?
    requires f.typeId == List || f.typeId == LargeList
    requires |f.children| >= 1
    requires !IsStruct(TypeOf(f.children[0])) && !IsList(TypeOf(f.children[0]))
    requires GetPrimitiveArray(pages, f, batchId, params).Ok?
    requires AsInt32s(GetPrimitiveArray(pages, f, batchId, params).value) == Some(offsets)
    requires (f.children[0].id, batchId) in pages.table && pages.decoderError(f.children[0]).None?
    requires ValidOffsets(offsets, |pages.pageRows(f.children[0], pages.table[(f.children[0].id, batchId)])|)
    ensures GetArray(pages, f, batchId, params) ==
      Ok(ListRows(offsets, pages.pageRows(f.children[0], pages.table[(f.children[0].id, batchId)])))
  {
    var child := f.children[0];
    var all := pages.pageRows(child, pages.table[(child.id, batchId)]);
    var rows := GetPrimitiveArray(pages, f, batchId, params).value;
    var first := offsets[0];
    var last := offsets[|offsets| - 1];
    ListRangeReadsOffsets(pages, f, batchId, params);
    ListValuesReadWindow(pages, f, batchId, rows, offsets);
    assert first <= last && IsInt32(last);
    FlatChildSpan(pages, child, batchId, offsets);
    ListOverWindow(offsets, all);
  }

  /** The child values covered by valid int32 offsets, read from a flat child's page. */
  lemma FlatChildSpan(pages: Pages, child: Field, batchId: int, offsets: seq<int>)
    requires !IsStruct(TypeOf(child)) && !IsList(TypeOf(child))
    requires (child.id, batchId) in pages.table && pages.decoderError(child).None?
    requires |offsets| >= 1 && 0 <= offsets[0] <= offsets[|offsets| - 1]
    requires offsets[|offsets| - 1] <= |pages.pageRows(child, pages.table[(child.id, batchId)])|
    requires IsInt32(offsets[|offsets| - 1])
    ensures GetArray(pages, child, batchId, Span(offsets)) ==
      Ok(pages.pageRows(child, pages.table[(child.id, batchId)])[offsets[0]..offsets[|offsets| - 1]])
  {
    var first, last := offsets[0], offsets[|offsets| - 1];
    FlatFieldsReadTheirPage(pages, child, batchId, Span(offsets));
    assert Span(offsets) == Range(first, Some(last - first)) by {
      assert Wrap32(last - first) == last - first;
    }
    FlatChildWindow(pages, child, batchId, first, last);
  }

  /** Int32 offsets valid for a column, rebased over the window they cover, give the
      same list rows as over the whole column. */
  lemma ListOverWindow(offsets: seq<int>, all: Column)
    requires ValidOffsets(offsets, |all|)
    requires forall i :: 0 <= i < |offsets| ==> IsInt32(offsets[i])
    ensures ListFromArrays(Rebased(offsets), all[offsets[0]..offsets[|offsets| - 1]]) == Ok(ListRows(offsets, all))
  {
    RebasePreservesRows(offsets, all);
  }

  /** A list read over a range reads its offsets, then the values they cover. */
  lemma ListRangeReadsOffsets(pages: Pages, f: Field, batchId: int, params: ReadParams)
    requires params.Range?
    requires f.typeId == List || f.typeId == LargeList
    requires GetPrimitiveArray(pages, f, batchId, params).Ok?
    ensures GetArray(pages, f, batchId, params) ==
      GetListValues(pages, f, batchId, GetPrimitiveArray(pages, f, batchId, params).value)
  {
    assert GetArray(pages, f, batchId, params) == GetListArray(pages, f, batchId, params);
  }

  /** The values of a list are read from the child as the one window its int32 offsets
      cover. */
  lemma ListValuesReadWindow(pages: Pages, f: Field, batchId: int, offsetRows: Column, offsets: seq<int>)
    requires |f.children| >= 1 && |offsets| >= 1
    requires AsInt32s(offsetRows) == Some(offsets)
    ensures var values := GetArray(pages, f.children[0], batchId, Span(offsets));
      && (values.Err? ==> GetListValues(pages, f, batchId, offsetRows) == Err(values.error))
      && (values.Ok? ==> GetListValues(pages, f, batchId, offsetRows) == ListFromArrays(Rebased(offsets), values.value))
  {
  }

  /** A list row of a list field whose child is a flat column: the scalar at row `idx`
      is the list of the child rows between the two offsets stored at `idx` and
      `idx + 1`. */
  lemma ListScalarOverFlatChild(pages: Pages, f: Field, batchId: int, idx: int)
    requires f.logicalType == "list" && |f.children| >= 1
    requires !IsStruct(TypeOf(f.children[0])) && !IsList(TypeOf(f.children[0]))
    requires (f.id, batchId) in pages.table && pages.decoderError(f).None?
    requires (f.children[0].id, batchId) in pages.table && pages.decoderError(f.children[0]).None?
    requires 0 <= idx && idx + 2 <= |pages.pageRows(f, pages.table[(f.id, batchId)])|
    requires var rows := pages.pageRows(f, pages.table[(f.id, batchId)]);
      && rows[idx].Int? && rows[idx + 1].Int?
      && 0 <= rows[idx].v <= rows[idx + 1].v && IsInt32(rows[idx + 1].v)
      && rows[idx + 1].v <= |pages.pageRows(f.children[0], pages.table[(f.children[0].id, batchId)])|
    ensures var rows := pages.pageRows(f, pages.table[(f.id, batchId)]);
      var values := pages.pageRows(f.children[0], pages.table[(f.children[0].id, batchId)]);
      GetScalar(pages, f, batchId, idx) == Ok(ListVal(values[rows[idx].v..rows[idx + 1].v]))
  {
    var rows := pages.pageRows(f, pages.table[(f.id, batchId)]);
    var o0, o1 := rows[idx].v, rows[idx + 1].v;
    ListScalarOffsets(rows, idx);
    ListScalarWindow(pages, f.children[0], batchId, o0, o1);
    assert GetScalar(pages, f, batchId, idx) == GetListScalar(pages, f, batchId, idx);
  }

  /** The two offset rows at `idx` and `idx + 1`, read as a range and decoded as int32. */
  lemma ListScalarOffsets(rows: Column, idx: int)
    requires 0 <= idx && idx + 2 <= |rows|
    requires rows[idx].Int? && rows[idx + 1].Int? && IsInt32(rows[idx + 1].v) && 0 <= rows[idx].v <= rows[idx + 1].v
    ensures DecodeRange(rows, idx, Some(2)) == Ok([rows[idx], rows[idx + 1]])
    ensures AsInt32s([rows[idx], rows[idx + 1]]) == Some([rows[idx].v, rows[idx + 1].v])
  {
    var pair := [rows[idx], rows[idx + 1]];
    assert rows[idx..idx + 2] == pair;
    assert DecodeRange(rows, idx, Some(2)) == Ok(rows[idx..idx + 2]);
    assert IsInt32(rows[idx].v);
    assert pair[0].Int? && pair[1].Int?;
    assert AsInt32s(pair).Some?;
    var o := AsInt32s(pair).value;
    assert o[0] == rows[idx].v && o[1] == rows[idx + 1].v;
    assert o == [rows[idx].v, rows[idx + 1].v];
  }

  /** The child window between two offsets of a flat child, read and checked against
      the rebased offsets. */
  lemma ListScalarWindow(pages: Pages, child: Field, batchId: int, o0: int, o1: int)
    requires !IsStruct(TypeOf(child)) && !IsList(TypeOf(child))
    requires (child.id, batchId) in pages.table && pages.decoderError(child).None?
    requires 0 <= o0 <= o1 <= |pages.pageRows(child, pages.table[(child.id, batchId)])| && IsInt32(o1)
    ensures var values := pages.pageRows(child, pages.table[(child.id, batchId)]);
      && GetArray(pages, child, batchId, Range(o0, Some(Wrap32(o1 - o0)))) == Ok(values[o0..o1])
      && ListFromArrays(Rebased([o0, o1]), values[o0..o1]).Ok?
  {
    assert Wrap32(o1 - o0) == o1 - o0;
    FlatChildWindow(pages, child, batchId, o0, o1);
    FlatFieldsReadTheirPage(pages, child, batchId, Range(o0, Some(o1 - o0)));
    var values := pages.pageRows(child, pages.table[(child.id, batchId)]);
    OffsetPairValid(o0, o1, values[o0..o1]);
  }

  /** Two int32 offsets, moved to start at zero, cover exactly the window between them. */
  lemma OffsetPairValid(o0: int, o1: int, window: Column)
    requires 0 <= o0 <= o1 && IsInt32(o1) && |window| == o1 - o0
    ensures ListFromArrays(Rebased([o0, o1]), window).Ok?
  {
    assert Rebased([o0, o1]) == [0, o1 - o0];
  }
}
