# Lance native reader, modelled in Dafny

This project models the core of the native C++ reader of the Lance columnar file format, and proves properties of the model. The pieces are:

- The **file reader** (`FileReader`). It opens a file from its footer: the 64 KiB prefetch, the 16-byte minimum, the `"LANC"` magic number, the int64 metadata offset 16 bytes from the end, then the metadata, manifest and page table.
  - It looks up pages in the page table.
  - It dispatches each field read on its Arrow type: struct, list, dictionary, primitive.
  - It dispatches each scalar read on the field's logical type.
  - It reads list arrays through their int32 offsets, and rebases those offsets with `ResetOffsets`.
  - It cuts a global row range into per-batch pieces (`ReadAt`).
  - It reads record batches, tables, chunks and single rows (`ReadChunk`, `ReadTable`, `Get`).
- The **schema tree** (`Schema` and `Field`). This covers field counting, lookup by id, by name and by dotted path, equality with or without ids, `AddField` and `AddChild`, removal, and pre-order id assignment (`AssignIds` and `SetId`). It also covers projection onto column names or onto an Arrow schema, exclusion, and conversion to an Arrow schema.
- The **scan projection** (`Project::Make` and `Project::Execute`). The scan schema is the projected schema minus the filter's columns. A chunk is either read whole or read at the filter's selected rows and merged after the filter's values.
- The **`Limit` and `Offset` cursors** of the scan, each a class with a running count, as their tests state them.
- **Length-prefixed protobuf framing** (`ParseProto` on a buffer and on a file).
- The **schema-to-Arrow visitor** (`ToArrowVisitor`) and the **type predicates** `is_list`, `is_struct` and `is_map`.

How the model is built:

- A file is its bytes (`seq<byte>`).
- An Arrow array is its rows (`seq<Value>`).
- A schema is a tree of `Field` values.
- The methods of `FileReader`, `Limit`, `Offset` and `ToArrowVisitor` change the fields of their classes, as the source does. Each one is proved against a specification function: `OpenFile`, `ReadAtSpec`, `ReadChunkSpec`, `ReadTableSpec`, `GetSpec`, `LimitRun`, `OffsetRun` and `VisitAll`.
- The decoders the reader calls are parameters: the metadata, manifest and page-table decoders in `FileFormat`, and the page decoders in `Pages`.
- A failure carries the Arrow status code the code raises (IOError, Invalid, IndexError), not a format-level error name.
- The footer is only the magic number and the int64 metadata offset that `ReadFooter` reads.

## Model

| member | source | states |
|---|---|---|
| `Wrappers.Collect` | cpp/src/lance/io/reader.cc:280-283 | a loop that stops at the first failed read gives every value in order exactly when all reads succeed, one value per read |
| `Wrappers.CollectFirstError` | cpp/src/lance/io/reader.cc:187-190 | when the reads before `j` succeed and read `j` fails, the loop returns read `j`'s status |
| `Wrappers.CollectAllOk` | cpp/src/lance/io/reader.cc:221-227 | when every read succeeds, the loop yields exactly their values |
| `Bytes.Int32RoundTrip` | cpp/src/lance/io/pb.h:21 | `ReadInt<int32_t>` at any position reads back the int32 stored there |
| `Bytes.Int64RoundTrip` | cpp/src/lance/io/reader.cc:58 | `ReadInt<int64_t>` at any position reads back the int64 stored there |
| `Bytes.LittleEndianRoundTrip` | cpp/src/lance/io/reader.cc:58 | the little-endian decoding of the encoding of a value that fits is that value |
| `Bytes.FileReadAt` | cpp/src/lance/io/reader.cc:74 | `ReadAt` succeeds exactly when the range lies in the file, and returns those bytes; otherwise it fails with IOError |
| `Bytes.FileReadInt32` | cpp/src/lance/io/pb.h:32 | reading an int32 at an offset succeeds exactly when four bytes are there, and fails with the read's status otherwise |
| `ArrowType.TypePredicatesDisjoint` | cpp/src/lance/arrow/type.h:53-65 | no type is at once two of list, struct and map |
| `LanceSchema.GetFieldsCount` | cpp/src/lance/format/schema.h:78-79 | the count is the number of all fields of the tree in pre-order, nested ones included |
| `LanceSchema.CountAllIsPreorderLength` | cpp/src/lance/format/schema.h:196 | counting a field and all its descendants gives the length of their pre-order listing |
| `LanceSchema.FieldGetById` | cpp/src/lance/format/schema.h:124 | `Field::Get(id)` is the first field below the field, in pre-order, with that id |
| `LanceSchema.GetFieldById` | cpp/src/lance/format/schema.h:72-73 | `GetField(id)` finds a field at any depth: a field exactly when some field of the tree has that id, and then one with that id |
| `LanceSchema.FirstWithIdFound` | cpp/src/lance/format/schema.h:72-73 | a search by id finds a field exactly when the id occurs, and the field found has that id |
| `LanceSchema.AssignedIdsResolve` | cpp/src/lance/format/schema.h:72-73 | once ids are assigned, `GetField(k)` is the k-th field of the tree in pre-order |
| `LanceSchema.EqualsWithIdsIsIdentity` | cpp/src/lance/format/schema.h:166-173 | equality with ids holds exactly when the two trees are identical |
| `LanceSchema.EqualsWithoutIdsIgnoresIds` | cpp/src/lance/format/schema.h:166-173 | equality without ids holds exactly when the trees agree in everything but ids and parent ids |
| `LanceSchema.SchemaEqualsWithIdsImpliesWithout` | cpp/src/lance/format/schema.h:89-91 | schemas equal with ids are also equal without them |
| `LanceSchema.SchemaEqualsSpec` | cpp/src/lance/format/schema.h:89-91 | schemas are equal with ids exactly when they are the same schema, and equal without ids exactly when they agree once every id and parent id is cleared |
| `LanceSchema.NewField` | cpp/src/lance/format/schema.h:201-202 | a new field has id -1 and parent id -1, its own name and types, and no children, so the one-field tree it forms is entirely unassigned |
| `LanceSchema.AddChild` | cpp/src/lance/format/schema.h:122 | the child is appended after the existing children, and nothing else of the field changes |
| `LanceSchema.AddField` | cpp/src/lance/format/schema.h:69-70 | the field is appended after the existing top-level fields |
| `LanceSchema.UnassignedPreserved` | cpp/src/lance/format/schema.h:97-98 | ids stay -1 while a tree is built with `AddChild` and `AddField`, until they are assigned |
| `LanceSchema.AddFieldCount` | cpp/src/lance/format/schema.h:69-79 | adding a field adds it and all its descendants to the field count |
| `LanceSchema.RemoveFromForestSpec` | cpp/src/lance/format/schema.h:194 | a removal reports success exactly when some field of the tree has the id; it then removes as many fields as that field's subtree holds, and otherwise returns the fields unchanged |
| `LanceSchema.RemoveCutsSubtree` | cpp/src/lance/format/schema.h:194 | removing an id that is present takes out exactly the first field with the id in pre-order and its descendants: the subtree is the block of the pre-order listing that starts at that field, and the ids left are all the others, in their order |
| `LanceSchema.RemoveFieldSpec` | cpp/src/lance/format/schema.h:103 | `RemoveField` succeeds exactly when `GetField(id)` finds a field; it then removes that field and its subtree and keeps every other id in pre-order; otherwise the schema is unchanged |
| `LanceSchema.SetId` | cpp/src/lance/format/schema.h:192 | the field gets the current id and its descendants the following ones in pre-order; parent ids link each child to its parent; the counter advances by the subtree's size; nothing but ids changes |
| `LanceSchema.AssignIds` | cpp/src/lance/format/schema.h:97-98 | the whole tree is numbered 0, 1, ... in pre-order; top-level fields get parent id -1 and every other field its parent's id; nothing but ids changes |
| `LanceSchema.ToArrowFieldsAt` | cpp/src/lance/format/schema.h:126 | the i-th Arrow field of a field list is the Arrow form of the i-th field |
| `LanceSchema.ToArrow` | cpp/src/lance/format/schema.h:46-47 | one Arrow field per top-level field, in order, each the Arrow form of that field |
| `SchemaProjection.SplitPath` | cpp/src/lance/format/schema.h:81-85 | a dotted name splits into components with no dot, which joined with dots give the name back |
| `SchemaProjection.SplitJoinPath` | cpp/src/lance/format/schema.h:81-85 | splitting the dotted form of a path whose names hold no dot gives the path back |
| `SchemaProjection.FirstNamed` | cpp/src/lance/format/schema.h:163-164 | the first field with the name, which exists exactly when some field has it |
| `SchemaProjection.FieldGetByName` | cpp/src/lance/format/schema.h:163-164 | `Field::Get(name)` returns only a direct child with that name, and none exactly when no child has it |
| `SchemaProjection.LookupPathExact` | cpp/src/lance/format/schema.h:180-181 | with sibling names unique, following a path finds exactly the field at that path |
| `SchemaProjection.GetFieldByQualifiedName` | cpp/src/lance/format/schema.h:81-85 | with sibling names unique, the dotted name of a path finds exactly the field at that path |
| `SchemaProjection.GetFieldByNameExact` | cpp/src/lance/format/schema.h:85 | with sibling names unique, any name finds exactly the field at the path its dot-separated components spell, and nothing when no field is there |
| `SchemaProjection.Project` | cpp/src/lance/format/schema.h:52-58 | fails with Invalid exactly when some name does not resolve; otherwise it keeps exactly the fields on the way to, or below, a requested column |
| `SchemaProjection.ProjectPaths` | cpp/src/lance/format/schema.h:52-58 | the paths of the projection are exactly the schema's paths related to a requested path |
| `SchemaProjection.ProjectKeepsRequested` | cpp/src/lance/format/schema.h:52-58 | every requested path that resolves in the schema resolves in the projection to a field with the same id |
| `SchemaProjection.ProjectResolvesNames` | cpp/src/lance/format/schema.h:52-58 | every requested name finds its column in the projected schema |
| `SchemaProjection.FirstNamedProject` | cpp/src/lance/format/schema.h:52-58 | projection keeps the first field of a selected name, projected |
| `SchemaProjection.ProjectByArrow` | cpp/src/lance/format/schema.h:60-61 | an Arrow field that names no field of the level makes the projection fail |
| `SchemaProjection.ProjectByArrowSpec` | cpp/src/lance/format/schema.h:60-61 | projecting onto Arrow fields succeeds exactly when every Arrow field names a field at its level, at every level below; then the result holds the named fields in schema order, each with its id, name and types, and its children projected onto the Arrow field's type children |
| `SchemaProjection.KeepByArrowSpec` | cpp/src/lance/format/schema.h:186-187 | keeping the named fields succeeds exactly when the children of each named field resolve against its Arrow field; then each kept field keeps everything but its children, which are projected |
| `SchemaProjection.ProjectArrowSpec` | cpp/src/lance/format/schema.h:61 | `Project(arrow_schema)` succeeds exactly when the Arrow schema resolves against the schema at every level, and the projected schema holds the named fields, with their ids, in schema order |
| `SchemaProjection.KeepByArrowOwn` | cpp/src/lance/format/schema.h:186-187 | a field projected onto its own Arrow form is kept whole |
| `SchemaProjection.ProjectByArrowOwn` | cpp/src/lance/format/schema.h:60-61 | with unique names, projecting fields onto their own Arrow form gives them back |
| `SchemaProjection.ProjectArrowOwn` | cpp/src/lance/format/schema.h:60-61 | with unique names, a schema projected onto its own Arrow schema is that schema |
| `SchemaProjection.ExcludeField` | cpp/src/lance/format/schema.h:63-67 | exclusion keeps a field's name, types and ids, and only prunes its children |
| `SchemaProjection.ExcludeRemovesColumns` | cpp/src/lance/format/schema.h:63-67 | no leaf of the result is a column of `other` |
| `SchemaProjection.ExcludeKeepsOthers` | cpp/src/lance/format/schema.h:63-67 | every field whose id is not in `other` is still in the result |
| `SchemaProjection.ExcludeOnlyRemoves` | cpp/src/lance/format/schema.h:63-67 | every id of the result is an id of the schema |
| `Visitors.DoVisit` | cpp/src/lance/format/visitors.cc:35-38 | `DoVisit` does not fail and gives an Arrow field with the node's name and type |
| `Visitors.VisitAll` | cpp/src/lance/format/visitors.cc:26-29 | the visit produces one field per child, in order, up to the first failure, which it returns |
| `Visitors.VisitStopsAtFailure` | cpp/src/lance/format/visitors.cc:27 | when child `k` fails, the visit returns that failure and keeps exactly the fields of the children before `k` |
| `Visitors.DoVisitAll` | cpp/src/lance/format/visitors.cc:25-31 | with `DoVisit`, every direct child is visited and turned into its Arrow field, and nothing below them |
| `Visitors.ToArrowVisitor.constructor` | cpp/src/lance/format/visitors.cc:28 | a new visitor holds no fields |
| `Visitors.ToArrowVisitor.VisitWith` | cpp/src/lance/format/visitors.cc:25-31 | the loop appends the produced fields to those already held and returns the visit's status |
| `Visitors.ToArrowVisitor.Visit` | cpp/src/lance/format/visitors.cc:25-31 | `Visit` succeeds and appends the Arrow fields of the direct children, keeping earlier ones |
| `Visitors.ToArrowVisitor.Finish` | cpp/src/lance/format/visitors.cc:33 | the schema's fields are exactly the accumulated list, in order |
| `Visitors.SchemaToArrow` | cpp/src/lance/format/visitors.cc:25-33 | a fresh visitor over the top-level fields yields the schema's Arrow form |
| `Visitors.VisitTwice` | cpp/src/lance/format/visitors.cc:28 | two visits with one visitor accumulate: the second visit's fields follow the first's |
| `Protobuf.ParseProtoBuffer` | cpp/src/lance/io/pb.h:19-27 | the message is parsed from the int32-sized bytes after the prefix; a parse failure is Invalid |
| `Protobuf.ParseProtoFile` | cpp/src/lance/io/pb.h:29-42 | a failed prefix read returns its status; success means the size and payload lie in the file and parse; Invalid means they lie in the file and do not parse |
| `Protobuf.BufferRoundTrip` | cpp/src/lance/io/pb.h:19-27 | a framed message at the head of a buffer parses back to the message |
| `Protobuf.FileRoundTrip` | cpp/src/lance/io/pb.h:29-42 | a framed message stored anywhere in a file parses back from its offset |
| `Protobuf.TruncatedMessageIsIOError` | cpp/src/lance/io/pb.h:34-37 | with the exact-range file read that stands in for `ReadAt`, a negative size, or one running past the end of the file, fails with the read's IOError before any parse |
| `ColumnData.Wrap32` | cpp/src/lance/io/reader.cc:143 | int32 arithmetic: the result is an int32, and the value itself when it already is one |
| `ColumnData.Wrap32Congruent` | cpp/src/lance/io/reader.cc:143 | the wrapped value differs from the exact one by a multiple of 2^32 |
| `ColumnData.AsInt32s` | cpp/src/lance/io/reader.cc:351 | an array reads as an `Int32Array` exactly when every row is an int32 value, giving those values in order |
| `ColumnData.DecodeRange` | cpp/src/lance/io/reader.cc:392 | a range decode succeeds exactly for a start inside the page and a non-negative length, and gives the rows from the start, at most the length |
| `ColumnData.TakeRows` | cpp/src/lance/io/reader.cc:342-343 | `take` succeeds exactly when every index is in range, and gives the rows at the indices, in their order |
| `ColumnData.DecodeScalar` | cpp/src/lance/io/reader.cc:121 | a scalar decode gives the row at the index, or IndexError outside the page |
| `ColumnData.StructArrayMake` | cpp/src/lance/io/reader.cc:324 | a struct array has one row per row of its children, each row holding the children's values at that row |
| `ColumnData.ListFromArrays` | cpp/src/lance/io/reader.cc:359 | a list array builds exactly when the offsets are valid for the values, and row i holds the values between offsets i and i + 1 |
| `ColumnData.Rebased` | cpp/src/lance/io/reader.cc:138-148 | rebased offsets keep the length and start at 0 |
| `ColumnData.RebasedExact` | cpp/src/lance/io/reader.cc:138-148 | for int32 offsets never below the first, the rebased offsets are `in[i] - in[0]` and the consecutive differences are kept |
| `ColumnData.RebasePreservesRows` | cpp/src/lance/io/reader.cc:350-359 | reading only the values the offsets cover and rebasing the offsets gives the same list rows as the full values with the original offsets |
| `PageRead.GetPageInfo` | cpp/src/lance/io/reader.cc:287-295 | the page-table entry of the field and batch when there is one, and Invalid otherwise |
| `PageRead.OpenDecoder` | cpp/src/lance/io/reader.cc:386 | opening the decoder fails exactly with the field's decoder error |
| `PageRead.GetPrimitiveArray` | cpp/src/lance/io/reader.cc:379-395 | a missing page gives GetPageInfo's error; a decoder error is returned as it is; a read by indices gives one row per index |
| `PageRead.GetChildArrays` | cpp/src/lance/io/reader.cc:317-323 | the children are read in order with the same parameters; the first failure is returned |
| `PageRead.TakeOver` | cpp/src/lance/io/reader.cc:341-344 | a failed range read is returned as it is; otherwise the rows are taken at the indices, one per index |
| `PageRead.GetListValues` | cpp/src/lance/io/reader.cc:350-368 | a list read over a range has one row fewer than its offsets |
| `PageRead.GetPrimitiveScalar` | cpp/src/lance/io/reader.cc:114-122 | a decoder error is returned as it is; with the page found, the scalar is the row decoded at the index |
| `PageRead.GetChildScalars` | cpp/src/lance/io/reader.cc:124-136 | every child's scalar at the same row, in order; the first failure is returned |
| `PageRead.FlatFieldsReadTheirPage` | cpp/src/lance/io/reader.cc:301-310 | a field that is neither struct nor list (a dictionary or primitive field) is read from its own page |
| `PageRead.DictionaryFieldReadsItsPage` | cpp/src/lance/io/reader.cc:371-377 | a dictionary field is read from its own page: the page's rows over the range, or the rows at the indices |
| `PageRead.StructArrayRows` | cpp/src/lance/io/reader.cc:313-326 | a struct read succeeds exactly when the field has a child, every child reads and all have the first child's length; row i then holds every child's row i under the children's names |
| `PageRead.StructScalarFields` | cpp/src/lance/io/reader.cc:124-136 | a struct scalar succeeds exactly when every child's scalar does, holds them in order under the children's names, and otherwise fails with the first failing child's error |
| `PageRead.FlatScalarReadsItsRow` | cpp/src/lance/io/reader.cc:103-122 | a field of any other logical type gives the row of its page at the index exactly when the index is inside the page, and an IndexError otherwise |
| `PageRead.ListWithoutIndicesFails` | cpp/src/lance/io/reader.cc:335-338 | reading a list field at an empty index array is an IndexError |
| `PageRead.IndicesRowCount` | cpp/src/lance/io/reader.cc:297-311 | a read by indices that succeeds has exactly one row per index, whatever the field's type |
| `PageRead.ListIndicesRowCount` | cpp/src/lance/io/reader.cc:332-345 | a list read by indices that succeeds has one row per index |
| `PageRead.ListIndicesTakeBatchRows` | cpp/src/lance/io/reader.cc:332-345 | a list read by indices succeeds exactly when the whole batch reads and every index lies inside it; row i is then the batch's list at index i |
| `PageRead.ListIndicesAsWrittenFails` | cpp/src/lance/io/reader.cc:339-344 | as written, a list read by any non-empty indices fails, because the last index falls outside the range read |
| `PageRead.ListRangeShort` | cpp/src/lance/io/reader.cc:347-355 | a list range read of n rows starts inside the page and gives at most n - 1 lists |
| `PageRead.ChildIndicesRowCount` | cpp/src/lance/io/reader.cc:317-323 | child reads by indices that succeed have one row per index each |
| `PageRead.RangeRowBound` | cpp/src/lance/io/reader.cc:297-311 | a read of a range of n rows never returns more than n rows |
| `PageRead.ChildRangeRowBound` | cpp/src/lance/io/reader.cc:317-323 | child reads of a range of n rows never return more than n rows each |
| `PageRead.FlatChildWindow` | cpp/src/lance/io/reader.cc:379-395 | reading rows `first` to `last` of a page as a range gives exactly those rows |
| `PageRead.ListRangeReadsOffsets` | cpp/src/lance/io/reader.cc:350-355 | a list read over a range first reads its offsets from its own page with the same parameters |
| `PageRead.ListValuesReadWindow` | cpp/src/lance/io/reader.cc:352-355 | the values of a list are read from its child as the one window its offsets cover |
| `PageRead.ListOverWindow` | cpp/src/lance/io/reader.cc:352-359 | int32 offsets valid for a column give, once rebased over the window they cover, the list rows of the whole column |
| `PageRead.ListOverFlatChild` | cpp/src/lance/io/reader.cc:347-369 | a list over a flat child, read over a range with valid offsets, gives row i as the child values between offsets i and i + 1 |
| `PageRead.ListScalarOverFlatChild` | cpp/src/lance/io/reader.cc:150-172 | the list scalar at row `idx` is the list of the child rows between the offsets at `idx` and `idx + 1` |
| `ReadPlan.LocateChunk` | cpp/src/lance/io/reader.cc:234-235 | a global row is located exactly when it is in the file; it is then in batch b at index i, with b's start plus i equal to the row; otherwise IndexError |
| `ReadPlan.ReadAtPlanAsWritten` | cpp/src/lance/io/reader.cc:238-252 | the loop as written yields at least one piece for a located start, and fails exactly when the start is not in the file |
| `ReadPlan.ReadAtPlan` | cpp/src/lance/io/reader.cc:238-252 | the intended loop does the same, with IndexError for a start not in the file |
| `ReadPlan.PlanPiecesInBatches` | cpp/src/lance/io/reader.cc:244-251 | every piece lies inside its batch, and every piece after the first starts at row 0 of the next batch |
| `ReadPlan.PlanCoversRows` | cpp/src/lance/io/reader.cc:238-252 | the pieces read exactly the `len` consecutive global rows from the start, `len` rows in all |
| `ReadPlan.ReadAtPlanCoversRange` | cpp/src/lance/io/reader.cc:232-253 | from a located offset, `ReadAt` covers exactly the rows `[offset, offset + min(length, total - offset))`, in at least one piece |
| `ReadPlan.PlansAgreeFrom` | cpp/src/lance/io/reader.cc:244-251 | under equal-sized batches (a shorter last one allowed), the loop as written plans the same pieces as the intended one |
| `ReadPlan.ReadAtAsWrittenUnderUniformBatches` | cpp/src/lance/io/reader.cc:245 | under equal-sized batches (a shorter last one allowed), `ReadAt` as written is the intended read |
| `ReadPlan.ReadAtAsWrittenDropsRows` | cpp/src/lance/io/reader.cc:245 | with batches of 2 and 4 rows, `ReadAt(0, 6)` as written reads 4 rows where 6 are asked for and exist |
| `Reader.ReadFooter` | cpp/src/lance/io/reader.cc:50-59 | IOError exactly when the last four bytes are not the magic number; otherwise the int64 at `size - 16` |
| `Reader.FooterRoundTrip` | cpp/src/lance/io/reader.cc:50-59 | a footer written as the offset, four bytes and the magic number reads back as the offset |
| `Reader.OpenReadsLastPage` | cpp/src/lance/io/reader.cc:66-74 | a file of at least 16 bytes has its last `min(size, 64 KiB)` bytes read, and that read succeeds |
| `Reader.OpenChecksFooter` | cpp/src/lance/io/reader.cc:65-76 | a file under 16 bytes fails with IOError and changes nothing; a file without the magic number fails with IOError after the last page is cached; a successful open read a file that ends with the magic number |
| `Reader.OpenFromFooterPasses` | cpp/src/lance/io/reader.cc:76-83 | an open that gets past the footer has a metadata offset inside the prefetched bytes and decoded the metadata there |
| `Reader.OpenFromMetadataPasses` | cpp/src/lance/io/reader.cc:85-93 | an open that gets past the metadata decoded the manifest from it, and the page table for the manifest's field count and the metadata's batch count |
| `Reader.OpenDecodesFooterMetadata` | cpp/src/lance/io/reader.cc:76-93 | a successful open decoded the metadata from the bytes at the footer's offset, which lies in the last 64 KiB, and the manifest and page table from that metadata |
| `Reader.WellFormedFooter` | cpp/src/lance/io/reader.cc:66-83 | a file ending with a written footer passes the size check and the magic check, and gives its metadata offset |
| `Reader.OpenWellFormedFile` | cpp/src/lance/io/reader.cc:65-95 | a file whose footer points into its last 64 KiB opens when its decoders succeed, with the metadata decoded at that offset |
| `Reader.ResetOffsets` | cpp/src/lance/io/reader.cc:138-148 | the loop yields one int32 subtraction of the first offset per offset |
| `Reader.Concatenate` | cpp/src/lance/io/reader.cc:254-259 | one chunk is taken as it is and several are concatenated: the rows of all the chunks, in order |
| `Reader.ReadAtSpec` | cpp/src/lance/io/reader.cc:232-262 | an offset outside the file is an IndexError; a success has the schema's Arrow form, one column per field, and the first column's length as its row count |
| `Reader.ReadAtSpecOf` | cpp/src/lance/io/reader.cc:261 | once the plan and every field's read succeed, the batch holds those columns |
| `Reader.ReadAtSpecFails` | cpp/src/lance/io/reader.cc:247 | the first failed piece read is the status of `ReadAt` |
| `Reader.ReadAtRowBound` | cpp/src/lance/io/reader.cc:238-239 | a `ReadAt` that succeeds returns no more rows than asked for, and none past the end of the file |
| `Reader.ChunkRowsAsWritten` | cpp/src/lance/io/reader.cc:284 | the row count as written exists exactly when there is at least one array |
| `Reader.ChunkRows` | cpp/src/lance/io/reader.cc:284 | the corrected row count is the first array's length, or without arrays the rows the read covers |
| `Reader.ReadChunkSpec` | cpp/src/lance/io/reader.cc:276-285 | succeeds exactly when every field reads; then one column per field, in schema order, each that field's read, and a row count equal to the first column's length, or, with no fields, to the rows the parameters cover |
| `Reader.ReadChunkByIndicesRowCount` | cpp/src/lance/io/reader.cc:269-285 | a chunk read by indices has one row per index, in the batch and in every column |
| `Reader.EmptySchemaChunkAsWritten` | cpp/src/lance/io/reader.cc:284 | over a schema without fields the reads succeed with no array, so the row count as written reads an array that does not exist |
| `Reader.BatchReadsOk` | cpp/src/lance/io/reader.cc:223-226 | the reads of every batch of a field succeed exactly when each batch reads |
| `Reader.TableReadsOk` | cpp/src/lance/io/reader.cc:221-228 | the reads of every field succeed exactly when every batch of every field reads |
| `Reader.ReadTableSpec` | cpp/src/lance/io/reader.cc:218-230 | succeeds exactly when every batch of every field reads; then one column per field, each with one chunk per batch, chunk b being batch b read whole |
| `Reader.GetSpec` | cpp/src/lance/io/reader.cc:174-193 | a row outside the file is an IndexError; a success has one value per field, each that field's scalar at the located batch and index |
| `Reader.FileReader.constructor` | cpp/src/lance/io/reader.cc:61-63 | a new reader holds the file and nothing read from it |
| `Reader.FileReader.Open` | cpp/src/lance/io/reader.cc:65-95 | the status and the members set are those of `OpenFile` |
| `Reader.FileReader.ReadAtChunks` | cpp/src/lance/io/reader.cc:240-252 | the inner loop reads the plan's pieces in order, stopping at the first failure |
| `Reader.FileReader.ReadAtFields` | cpp/src/lance/io/reader.cc:237-260 | the outer loop reads every field over the same pieces, stopping at the first failure |
| `Reader.FileReader.ReadAt` | cpp/src/lance/io/reader.cc:232-262 | the method gives `ReadAtSpec` |
| `Reader.FileReader.ReadChunk` | cpp/src/lance/io/reader.cc:276-285 | the method gives `ReadChunkSpec` |
| `Reader.FileReader.ReadChunkRange` | cpp/src/lance/io/reader.cc:264-267 | a range read from the batch's first row |
| `Reader.FileReader.ReadChunkIndices` | cpp/src/lance/io/reader.cc:269-274 | a read at the indices, with one row per index |
| `Reader.FileReader.ReadBatches` | cpp/src/lance/io/reader.cc:222-226 | every batch of one field, read whole, in order |
| `Reader.FileReader.ReadTable` | cpp/src/lance/io/reader.cc:218-230 | the method gives `ReadTableSpec` |
| `Reader.FileReader.ReadTableColumns` | cpp/src/lance/io/reader.cc:211-216 | a failed projection returns its error; otherwise the table of the projected schema |
| `Reader.FileReader.ReadWholeTable` | cpp/src/lance/io/reader.cc:206-209 | the table of the file's whole schema |
| `Reader.FileReader.Get` | cpp/src/lance/io/reader.cc:174-193 | the method gives `GetSpec` |
| `Reader.FileReader.GetColumns` | cpp/src/lance/io/reader.cc:195-200 | a failed projection returns its error; otherwise the row of the projected schema |
| `Reader.FileReader.GetRow` | cpp/src/lance/io/reader.cc:202-204 | the row of the file's whole schema |
| `LimitOffset.Limit.constructor` | cpp/src/lance/io/limit_offset_test.cc:26 | a new limit has emitted nothing |
| `LimitOffset.Limit.Execute` | cpp/src/lance/io/limit_offset_test.cc:25-32 | the rows to emit are `min(length, remaining)`, and the count grows by that many |
| `LimitOffset.Limit.ExecuteArray` | cpp/src/lance/io/limit_offset_test.cc:34-43 | null stays null; once the limit is reached every array is null; otherwise the array is cut to the rows still allowed |
| `LimitOffset.LimitTake` | cpp/src/lance/io/limit_offset_test.cc:25-32 | never more than the chunk, never past the limit, and all of the chunk unless the limit is reached |
| `LimitOffset.LimitRunTotal` | cpp/src/lance/io/limit_offset_test.cc:25-32 | over any run of chunks a limit emits `min(limit, total)` rows in all |
| `LimitOffset.LimitOverLengths` | cpp/src/lance/io/limit_offset_test.cc:25-32 | a fresh limit shown the chunk lengths one by one answers `LimitRun` |
| `LimitOffset.LimitWithLengthCase` | cpp/src/lance/io/limit_offset_test.cc:25-32 | a limit of 100 over 10, 80, 20 and 30 rows emits 10, 80, 10 and 0 |
| `LimitOffset.LimitOverArrayCase` | cpp/src/lance/io/limit_offset_test.cc:34-43 | a limit of 10 gives null, the array, its slice, its first two rows, then null |
| `LimitOffset.Offset.constructor` | cpp/src/lance/io/limit_offset_test.cc:46 | a new offset has seen no rows |
| `LimitOffset.Offset.Execute` | cpp/src/lance/io/limit_offset_test.cc:45-53 | the start is `OffsetStart` of the rows seen, and the count grows by the chunk's length |
| `LimitOffset.Offset.ExecuteArray` | cpp/src/lance/io/limit_offset_test.cc:55-72 | null stays null and leaves the count; an array lying before the offset becomes empty; otherwise its rows from the start |
| `LimitOffset.OffsetStart` | cpp/src/lance/io/limit_offset_test.cc:45-53 | none exactly while the chunk ends at or before the offset; otherwise `max(0, n - seen)` |
| `LimitOffset.OffsetEmitted` | cpp/src/lance/io/limit_offset_test.cc:55-72 | the rows of a chunk that are emitted, at most the chunk |
| `LimitOffset.OffsetRunTotal` | cpp/src/lance/io/limit_offset_test.cc:55-72 | over chunks totalling T rows an offset of n emits `max(0, T - n)` rows |
| `LimitOffset.LimitAfterOffset` | cpp/src/lance/io/limit_offset_test.cc:25-72 | a limit applied after an offset emits `min(L, max(0, T - O))` rows in all |
| `LimitOffset.OffsetOverLengths` | cpp/src/lance/io/limit_offset_test.cc:45-53 | a fresh offset shown the chunk lengths one by one emits `OffsetRun` |
| `LimitOffset.OffsetsCase` | cpp/src/lance/io/limit_offset_test.cc:45-53 | an offset of 100 over 20, 70, 30, 15 and 200 rows gives none, none, 10, 0 and 0 |
| `LimitOffset.OffsetOverArraysCase` | cpp/src/lance/io/limit_offset_test.cc:55-72 | an offset of 40 gives null, then arrays of 0, 0, 15 and 20 rows |
| `ScanProject.Make` | cpp/src/lance/io/project.cc:35-47 | a failed filter or projection aborts with that error; otherwise the projected schema, the filter, and without a filter a scan schema equal to the projected one |
| `ScanProject.MakeExcludesFilterColumns` | cpp/src/lance/io/project.cc:41-44 | with a filter, the scan reads none of the filter's columns, keeps every other projected field, and reads nothing that was not projected |
| `ScanProject.MakeWithFilterOverProjection` | cpp/src/lance/io/project.cc:41-44 | a filter that reads every projected column leaves a scan schema without fields |
| `ScanProject.MergeRecordBatches` | cpp/src/lance/io/project.cc:59 | batches merge exactly when their row counts agree: the left columns and then the right ones |
| `ScanProject.Execute` | cpp/src/lance/io/project.cc:49-65 | without a filter it is the whole-chunk read of the scan schema; a failed filter is returned unchanged |
| `ScanProject.ExecuteWithFilter` | cpp/src/lance/io/project.cc:51-60 | with a filter, it succeeds exactly when every scan column reads at the selected indices and the filter's values have one row per index; then the filter's values come first and the scan columns after, one row per index |
| `ScanProject.ExecuteFilterOnlyColumns` | cpp/src/lance/io/project.cc:57-60 | with the corrected row count, a scan schema without fields gives the filter's values alone |

## Left out

- Files, I/O and decoders: a file is its bytes. A read of a range that is not inside the file fails with an IOError, where Arrow's `ReadAt` returns the bytes that exist. The metadata, manifest and page-table decoders, and the page decoders (`Decoder::ToArray`, `Take`, `GetScalar`), are parameters with the minimal meaning stated on `DecodeRange`, `TakeRows` and `DecodeScalar`.
- Arrow's compute and builders (`Concatenate`, `take`, `ListArray::FromArrays`, `StructArray::Make`) get the minimal meaning stated on their stand-ins. Validity bitmaps, null rows and memory pools are not modelled.
- `Filter` and `MergeRecordBatches` are not part of this model. The filter is its schema plus its outcome on each chunk; the merge gets the minimal meaning stated on it.
- `Metadata::LocateChunk`, `Metadata::length` and the page table are not part of this model. The first two are derived from the batch lengths, the page table is a map from field and batch to page, and `GetBatchLength` is a batch's length.
- The second assert of `Open` (the page table at least `size - 64 KiB` into the file) does nothing, so the model ignores it. The first (`inbuf_offset >= 0`) is modelled as an IOError, because a negative slice start is not defined behaviour; see also the `Reader.OpenFromFooter` line.
- `ReadAt`'s `static_cast<int32_t>` of the clamped length: lengths and offsets are unbounded integers there.
- Reader.ReadAtSpec requires at least one field and a length of at least 1, and so does Reader.FileReader.ReadAt, because the source's `assert(!chunks.empty())` and `arrs[0]` have no defined behaviour on an empty schema or an empty range.
- PageRead.GetListArray: the indices branch reads the whole batch's lists and takes the indices from them, the corrected form of reader.cc:339-344 recorded under Findings.
- PageRead.GetListValues: a range of L rows reads L offsets and gives L - 1 lists, as the code is written. Whether a list page holds one more offset than it has lists is a property of the writer, which is not part of this model.
- PageRead.GetListValues: offsets of a type other than int32 give Invalid, where the source's `static_pointer_cast` has no defined behaviour.
- PageRead.GetListValues: an empty offsets array gives an IndexError, where the source's `Value(0)` has no defined behaviour.
- PageRead.GetListValues: a list field without a child gives Invalid, where the source's `fields()[0]` has no defined behaviour.
- PageRead.GetListScalar: a list field without a child gives Invalid, where the source's `fields()[0]` has no defined behaviour.
- Reader.ReadAtSpec: builds on the corrected plan `ReadAtPlan`, which caps each piece by the length of the batch being read, not by that of the first batch as reader.cc:245 does (see Findings).
- Reader.FileReader.ReadAt: gives `ReadAtSpec`, so it returns the rows of the corrected plan.
- Reader.FileReader.ReadAtChunks: the loop reads the length of batch `ckid`, the corrected plan, not that of `batch_id`.
- Reader.FileReader.ReadAtFields: reads every field over the pieces of the corrected plan.
- Reader.ReadChunkSpec: with no fields it returns a batch whose row count is the rows the parameters cover, where reader.cc:284 has no defined behaviour (see Findings).
- Reader.FileReader.ReadChunk: gives `ReadChunkSpec`, so it also returns a batch for a schema without fields.
- Reader.OpenFromFooter: an in-buffer metadata offset past the end of the prefetched bytes gives an IOError, where the source slices past its buffer.
- LimitOffset.Limit.constructor: requires a limit that is not negative. The scanner checks only the offset (`cpp/src/lance/arrow/scanner.cc:40-42`) and passes the limit on unchecked; `limit_offset.h`, which says what a negative limit does, is not part of this model, and the tests (`cpp/src/lance/io/limit_offset_test.cc:25-43`) use only positive limits.
- Protobuf.ParseProtoBuffer: requires a length prefix that is not negative and that fits in the buffer. The source passes any prefix to `ParseFromArray`, and what the protobuf library does with a negative size or a size past the buffer is not part of this model.
- Protobuf.TruncatedMessageIsIOError: holds because the file read fails on a range not inside the file. Arrow's `ReadAt` returns the shorter buffer at the end of a file, and the source then parses that buffer.
- SchemaProjection.ProjectByArrow: keeps the named fields in schema order, not in the Arrow schema's order; the declaration does not say which, and `schema.cc` is not part of this model.
- LanceSchema.Field: has no encoding and no dictionary (`encoding_`, `dictionary_offset_`, `dictionary_page_length_`, `dictionary_`), so `FieldEquals` compares fewer members than the source's `Equals` may.
- PageRead.GetListScalar gives an IndexError when fewer than two offsets are decoded at the row, where the source reads past the decoded array.
- SchemaProjection.Exclude does not check that `other` is a strict subset of the schema. `Project::Make` calls it with the filter's schema, which need not be one.
- Removal of a field by id, id lookup, dotted-path lookup, projection, exclusion and id assignment are modelled from their declarations and comments, because `schema.cc` is not part of this model.
- Fields are values, not shared references: updates in place and aliasing between schemas are not modelled.
- The `std::async` reads of `Get` and `GetStructScalar` are modelled in order. The first failed status in field order is the one returned, as in the source's loops over the futures.
- Debug printing and formatting.
- ColumnData.Wrap32: the int32 wrap of offset differences is stated by its range and `Wrap32Congruent`, not bit by bit.

## Findings

| source | as written | input that shows it | evidently intended | confidence | as-written member | corrected member |
|---|---|---|---|---|---|---|
| cpp/src/lance/io/reader.cc:245 | the `ReadAt` loop takes the page length of the first batch, `batch_id`, for every batch it reads | batches of 2 and 4 rows, `ReadAt(offset 0, length 6)`: the pieces are 2 rows of batch 0 and 2 rows of batch 1, so 4 rows are returned where 6 exist | take the page length of the batch being read, `ckid` | not executed | `ReadPlan.ReadAtAsWrittenDropsRows` (over `ReadPlan.ReadAtPlanAsWritten`) | `ReadPlan.ReadAtPlanCoversRange` (over `ReadPlan.ReadAtPlan`) |
| cpp/src/lance/io/reader.cc:284 | `ReadChunk` takes the batch's row count from `arrs[0]`, which does not exist when the schema has no fields | `Project::Execute` with a filter that reads every projected column: the scan schema is empty, so `ReadChunk` builds no array | a row count for an empty schema from the rows the read covers | not executed | `Reader.EmptySchemaChunkAsWritten` (over `Reader.ChunkRowsAsWritten`) | `Reader.ReadChunkByIndicesRowCount` (over `Reader.ChunkRows`) |
| cpp/src/lance/io/reader.cc:339-344 | `GetListArray` with indices reads a list range from the first index, as long as the last index minus the first, then takes the indices, not moved by the first, from it | a list column and indices `[0, 2]`: the range read has 2 offsets and so 1 list, and taking row 2 of it fails; indices `[0]` read no offsets at all | the list rows of the batch at the indices, one per index | not executed; rests on the decoder reading `length` offsets for a range of `length` rows | `PageRead.ListIndicesAsWrittenFails` (over `PageRead.ListIndicesAsWritten`) | `PageRead.ListIndicesTakeBatchRows` (over `PageRead.GetListArray`) |
