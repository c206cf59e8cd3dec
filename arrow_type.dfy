/** Arrow data types as the reader sees them, and the type predicates of
    `lance/arrow/type.h`. Only the type id and the child fields of a type are kept. */
module ArrowType {

  /** `arrow::Type::type`, the id of an Arrow data type. */
  datatype TypeId =
    | Na | Bool | UInt8 | Int8 | UInt16 | Int16 | UInt32 | Int32 | UInt64 | Int64
    | HalfFloat | Float | Double | String | Binary | FixedSizeBinary
    | Date32 | Date64 | Timestamp | Time32 | Time64
    | IntervalMonths | IntervalDayTime | Decimal128 | Decimal256
    | List | Struct | SparseUnion | DenseUnion | Dictionary | Map | Extension
    | FixedSizeList | Duration | LargeString | LargeBinary | LargeList
    | IntervalMonthDayNano

  /** An Arrow data type: its id and, for nested types, its child fields. */
  datatype DataType = DataType(id: TypeId, children: seq<ArrowField>)

  /** `arrow::Field`: a name and a type. */
  datatype ArrowField = ArrowField(name: string, dtype: DataType)

  /** `arrow::Schema`: an ordered list of fields. */
  datatype ArrowSchema = ArrowSchema(fields: seq<ArrowField>)

  /** `is_list`: true for LIST and LARGE_LIST. */
  predicate IsList(dtype: DataType) {
    dtype.id == List || dtype.id == LargeList
  }

  /** `is_struct`: true for STRUCT. */
  predicate IsStruct(dtype: DataType) {
    dtype.id == Struct
  }

  /** `is_map`: true for MAP. */
  predicate IsMap(dtype: DataType) {
    dtype.id == Map
  }

  /** Arrow's `is_dictionary` on a type id. */
  predicate IsDictionary(id: TypeId) {
    id == Dictionary
  }

  /** No type is at the same time a list, a struct or a map. */
  lemma TypePredicatesDisjoint(dtype: DataType)
    ensures !(IsList(dtype) && IsStruct(dtype))
    ensures !(IsList(dtype) && IsMap(dtype))
    ensures !(IsStruct(dtype) && IsMap(dtype))
  {
  }
}
