/** `lance::io::Project` (`lance/io/project.cc`): the columns a scan reads from each chunk.
    The projected schema is the dataset schema projected onto the scan's Arrow schema;
    with a filter, the filter's own columns come from the filter, so the scan schema is
    the projected schema without them. The filter (`lance/io/filter.h`) and
    `MergeRecordBatches` (`lance/arrow/utils.h`) are not part of this model: the filter is
    its schema and its outcome on each chunk, and the merge gets the minimal meaning
    stated on it here. */
module ScanProject {
  import opened Wrappers
  import opened ArrowType
  import opened LanceSchema
  import opened SchemaProjection
  import opened PageRead
  import opened ReadPlan
  import opened Reader

  /** A built filter: the columns it reads, and what `Filter::Execute` gives on the
      reader for each chunk: the indices of the selected rows and the filter columns'
      values at those rows. */
  datatype Filter = Filter(schema: Schema, select: int -> Result<(seq<int>, RecordBatch)>)

  /** The members the constructor sets once. */
  datatype Project = Project(
    datasetSchema: Schema,
    projectedSchema: Schema,
    scanSchema: Schema,
    filter: Option<Filter>)

  /** `Project::Make(schema, scan_options)`, given the outcome of `Filter::Make` on the
      scan's filter expression (no filter when there is none) and the scan's projected
      Arrow schema. */
  function Make(schema: Schema, filterMade: Result<Option<Filter>>, projected: ArrowSchema): (r: Result<Project>)
    ensures filterMade.Err? ==> r == Err(filterMade.error)
    ensures filterMade.Ok? && ProjectArrow(schema, projected).Err? ==> r == Err(ProjectArrow(schema, projected).error)
    ensures r.Ok? <==> filterMade.Ok? && ProjectArrow(schema, projected).Ok?
    ensures r.Ok? ==>
      && r.value.datasetSchema == schema
      && r.value.projectedSchema == ProjectArrow(schema, projected).value
      && r.value.filter == filterMade.value
    ensures r.Ok? && r.value.filter.None? ==> r.value.scanSchema == r.value.projectedSchema
  {
    var filter :- filterMade;
    var projectedSchema :- ProjectArrow(schema, projected);
    var scanSchema := if filter.Some? then Exclude(projectedSchema, filter.value.schema) else projectedSchema;
    Ok(Project(schema, projectedSchema, scanSchema, filter))
  }

  /** With a filter, the scan reads none of the filter's columns (a struct may stay, for
      its children that are not), keeps every projected field the filter does not read,
      and brings in nothing that was not projected. */
  lemma MakeExcludesFilterColumns(schema: Schema, filterMade: Result<Option<Filter>>, projected: ArrowSchema)
    requires Make(schema, filterMade, projected).Ok?
    requires filterMade.value.Some?
    ensures
      var p := Make(schema, filterMade, projected).value;
      var filterIds := IdSet(filterMade.value.value.schema.fields);
      && (forall g :: g in PreorderAll(p.scanSchema.fields) && g.children == [] ==> g.id !in filterIds)
      && (forall g :: g in PreorderAll(p.projectedSchema.fields) && g.id !in filterIds ==>
            g.id in IdSet(p.scanSchema.fields))
      && (forall g :: g in PreorderAll(p.scanSchema.fields) ==> g.id in IdSet(p.projectedSchema.fields))
  {
    var p := Make(schema, filterMade, projected).value;
    var filterIds := IdSet(filterMade.value.value.schema.fields);
    assert p.scanSchema.fields == ExcludeForest(p.projectedSchema.fields, filterIds);
    ExcludeRemovesColumns(p.projectedSchema.fields, filterIds);
    ExcludeKeepsOthers(p.projectedSchema.fields, filterIds);
    ExcludeOnlyRemoves(p.projectedSchema.fields, filterIds);
  }

  /** The ids of a field's subtree are ids of any forest holding it. */
  lemma {:induction false} IdSetSplit(fs: seq<Field>)
    requires fs != []
    ensures fs[0].id in IdSet(fs)
    ensures IdSet(fs[0].children) <= IdSet(fs)
    ensures IdSet(fs[1..]) <= IdSet(fs)
  {
    assert PreorderAll(fs) == [fs[0]] + PreorderAll(fs[0].children) + PreorderAll(fs[1..]);
    assert fs[0] in PreorderAll(fs);
  }

  /** Excluding every id of a forest, or more, leaves nothing. */
  lemma {:induction false} ExcludeCovered(fs: seq<Field>, excluded: set<int>)
    requires IdSet(fs) <= excluded
    ensures ExcludeForest(fs, excluded) == []
    decreases fs
  {
    if fs != [] {
      IdSetSplit(fs);
      ExcludeCovered(fs[0].children, excluded);
      ExcludeCovered(fs[1..], excluded);
    }
  }

  /** A filter that reads every projected column leaves the scan schema without fields. */
  lemma MakeWithFilterOverProjection(schema: Schema, filterMade: Result<Option<Filter>>, projected: ArrowSchema)
    requires Make(schema, filterMade, projected).Ok?
    requires filterMade.value.Some?
    requires IdSet(ProjectArrow(schema, projected).value.fields) <= IdSet(filterMade.value.value.schema.fields)
    ensures Make(schema, filterMade, projected).value.scanSchema.fields == []
  {
    ExcludeCovered(ProjectArrow(schema, projected).value.fields, IdSet(filterMade.value.value.schema.fields));
  }

  /** `lance::arrow::MergeRecordBatches(left, right)`: the columns of `left`, then those of
      `right`, over the same rows; batches of different row counts do not merge. */
  function MergeRecordBatches(left: RecordBatch, right: RecordBatch): (r: Result<RecordBatch>)
    ensures r.Ok? <==> left.numRows == right.numRows
    ensures r.Err? ==> r.error.Invalid?
    ensures r.Ok? ==>
      && r.value.numRows == left.numRows
      && r.value.schema.fields == left.schema.fields + right.schema.fields
      && r.value.columns == left.columns + right.columns
  {
    if left.numRows != right.numRows then Err(Invalid("Merge: record batches have different row counts"))
    else Ok(RecordBatch(ArrowSchema(left.schema.fields + right.schema.fields), left.numRows, left.columns + right.columns))
  }

  /** `Project::Execute(reader, chunk_idx)` on a reader whose per-field reads are `src` and
      whose metadata is `m`: with a filter, the selected rows of the scan schema merged
      after the filter's values; without one, the whole chunk of the scan schema. */
  function Execute(p: Project, src: Pages, m: Metadata, chunkIdx: int): (r: Result<RecordBatch>)
    ensures p.filter.None? ==> r == ReadChunkSpec(src, m, p.scanSchema, chunkIdx, Range(0, None))
    ensures p.filter.Some? && p.filter.value.select(chunkIdx).Err? ==>
      r == Err(p.filter.value.select(chunkIdx).error)
  {
    match p.filter
    case None => ReadChunkSpec(src, m, p.scanSchema, chunkIdx, Range(0, None))
    case Some(filter) =>
      var (indices, values) :- filter.select(chunkIdx);
      var batch :- ReadChunkSpec(src, m, p.scanSchema, chunkIdx, Indices(indices));
      MergeRecordBatches(values, batch)
  }

  /** With a filter, a chunk read succeeds exactly when the filter succeeds, every scan
      column reads at the selected indices, and the filter's values have one row per
      selected index; the result is the filter's values followed by the scan columns at
      those indices, one row per index. */
  lemma ExecuteWithFilter(p: Project, src: Pages, m: Metadata, chunkIdx: int)
    requires p.filter.Some? && p.filter.value.select(chunkIdx).Ok?
    ensures
      var (indices, values) := p.filter.value.select(chunkIdx).value;
      var fs := p.scanSchema.fields;
      var r := Execute(p, src, m, chunkIdx);
      && (r.Ok? <==>
            (forall j :: 0 <= j < |fs| ==> GetArray(src, fs[j], chunkIdx, Indices(indices)).Ok?) &&
            values.numRows == |indices|)
      && (r.Ok? ==>
            && r.value.numRows == |indices|
            && |r.value.columns| == |values.columns| + |fs|
            && r.value.columns[..|values.columns|] == values.columns
            && forall j :: 0 <= j < |fs| ==>
                 && GetArray(src, fs[j], chunkIdx, Indices(indices)) == Ok(r.value.columns[|values.columns| + j])
                 && |r.value.columns[|values.columns| + j]| == |indices|)
  {
    var (indices, values) := p.filter.value.select(chunkIdx).value;
    var fs := p.scanSchema.fields;
    var batch := ReadChunkSpec(src, m, p.scanSchema, chunkIdx, Indices(indices));
    if batch.Ok? {
      ReadChunkByIndicesRowCount(src, m, p.scanSchema, chunkIdx, indices);
      var r := Execute(p, src, m, chunkIdx);
      assert r == MergeRecordBatches(values, batch.value);
      if r.Ok? {
        forall j | 0 <= j < |fs|
          ensures GetArray(src, fs[j], chunkIdx, Indices(indices)) == Ok(r.value.columns[|values.columns| + j])
        {
          assert r.value.columns[|values.columns| + j] == batch.value.columns[j];
        }
      }
    }
  }

  /** When the filter reads every projected column, the scan schema has no field and the
      chunk is the filter's values alone (given the corrected row count of `ReadChunk`). */
  lemma ExecuteFilterOnlyColumns(p: Project, src: Pages, m: Metadata, chunkIdx: int)
    requires p.filter.Some? && p.scanSchema.fields == []
    requires p.filter.value.select(chunkIdx).Ok?
    requires p.filter.value.select(chunkIdx).value.1.numRows == |p.filter.value.select(chunkIdx).value.0|
    ensures Execute(p, src, m, chunkIdx).Ok?
    ensures Execute(p, src, m, chunkIdx).value.columns == p.filter.value.select(chunkIdx).value.1.columns
  {
    var (indices, values) := p.filter.value.select(chunkIdx).value;
    assert Collect(ChunkReads(src, [], chunkIdx, Indices(indices))) == Ok([]);
    assert values.columns + [] == values.columns;
  }
}
