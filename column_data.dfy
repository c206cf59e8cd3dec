/** Column contents as the reader builds them. An Arrow array is modelled by its rows:
    a primitive row is an integer, a struct row the values of its children, a list row
    the values of its elements. The Arrow builders the reader calls (`StructArray::Make`,
    `ListArray::FromArrays`, `take`) and the plain page decoder are not part of this
    model; they get the minimal meaning stated on each function here. */
module ColumnData {
  import opened Wrappers
  import opened Bytes

  datatype Value =
    | Int(v: int)
    | StructVal(names: seq<string>, fields: seq<Value>)
    | ListVal(items: seq<Value>)

  /** The rows of an array. */
  type Column = seq<Value>

  predicate IsInt32(x: int) {
    INT32_MIN <= x <= INT32_MAX
  }

  /** `int32_t` arithmetic: the value modulo 2^32, in the signed range. */
  function Wrap32(x: int): (r: int)
    ensures IsInt32(r)
    ensures IsInt32(x) ==> r == x
  {
    (x - INT32_MIN) % 0x1_0000_0000 + INT32_MIN
  }

  /** A wrapped value differs from the exact one by a multiple of 2^32. */
  lemma Wrap32Congruent(x: int)
    ensures (Wrap32(x) - x) % 0x1_0000_0000 == 0
  {
  }

  /** The values of an `Int32Array`, or none when some row is not an int32 value. */
  function AsInt32s(rows: Column): (r: Option<seq<int>>)
    ensures r.Some? <==> forall i :: 0 <= i < |rows| ==> rows[i].Int? && IsInt32(rows[i].v)
    ensures r.Some? ==> |r.value| == |rows| && forall i :: 0 <= i < |rows| ==> r.value[i] == rows[i].v
    ensures r.Some? ==> forall i :: 0 <= i < |r.value| ==> IsInt32(r.value[i])
  {
    if forall i :: 0 <= i < |rows| ==> rows[i].Int? && IsInt32(rows[i].v) then
      Some(seq(|rows|, i requires 0 <= i < |rows| && rows[i].Int? => rows[i].v))
    else
      None
  }

  // ---------------------------------------------------------------------------
  // The page decoder, over the rows a page decodes to.

  /** `Decoder::ToArray(start, length)`: the rows from `start`, at most `length` of them
      (all of them when no length is given). A start outside the page or a negative
      length is an IndexError. */
  function DecodeRange(rows: Column, start: int, length: Option<int>): (r: Result<Column>)
    ensures r.Ok? <==> 0 <= start <= |rows| && (length.Some? ==> length.value >= 0)
    ensures r.Err? ==> r.error.IndexError?
    ensures r.Ok? && length.None? ==> r.value == rows[start..]
    ensures r.Ok? && length.Some? ==>
      |r.value| == Min(length.value, |rows| - start) && r.value <= rows[start..]
  {
    if !(0 <= start <= |rows|) then Err(IndexError("Decoder: start out of range"))
    else if length.Some? && length.value < 0 then Err(IndexError("Decoder: negative length"))
    else
      var end := if length.Some? then Min(|rows|, start + length.value) else |rows|;
      Ok(rows[start..end])
  }

  /** `take` (and `Decoder::Take`): the rows at the given indices, in their order. An
      index outside the array is an IndexError. */
  function TakeRows(rows: Column, indices: seq<int>): (r: Result<Column>)
    ensures r.Ok? <==> forall i :: 0 <= i < |indices| ==> 0 <= indices[i] < |rows|
    ensures r.Err? ==> r.error.IndexError?
    ensures r.Ok? ==> |r.value| == |indices| && forall i :: 0 <= i < |indices| ==> r.value[i] == rows[indices[i]]
  {
    if forall i :: 0 <= i < |indices| ==> 0 <= indices[i] < |rows| then
      Ok(seq(|indices|, i requires 0 <= i < |indices| && 0 <= indices[i] < |rows| => rows[indices[i]]))
    else
      Err(IndexError("Index out of bounds"))
  }

  /** `Decoder::GetScalar(idx)`: the row at `idx`, or an IndexError. */
  function DecodeScalar(rows: Column, idx: int): (r: Result<Value>)
    ensures r.Ok? <==> 0 <= idx < |rows|
    ensures r.Ok? ==> r.value == rows[idx]
    ensures r.Err? ==> r.error.IndexError?
  {
    if 0 <= idx < |rows| then Ok(rows[idx]) else Err(IndexError("Decoder: index out of range"))
  }

  // ---------------------------------------------------------------------------
  // Struct arrays.

  /** Row `i` of a struct array whose children are `children`. */
  function StructRow(children: seq<Column>, names: seq<string>, i: int): (v: Value)
    requires 0 <= i
    requires forall j :: 0 <= j < |children| ==> i < |children[j]|
    ensures v.StructVal? && v.names == names && |v.fields| == |children|
    ensures forall j :: 0 <= j < |children| ==> v.fields[j] == children[j][i]
  {
    StructVal(names, seq(|children|, j requires 0 <= j < |children| => children[j][i]))
  }

  /** `StructArray::Make(children, names)`: Invalid for no children, for a name count that
      differs from the child count, and for children of different lengths. */
  function StructArrayMake(children: seq<Column>, names: seq<string>): (r: Result<Column>)
    ensures r.Ok? <==>
      |children| >= 1 && |names| == |children| && forall j :: 0 <= j < |children| ==> |children[j]| == |children[0]|
    ensures r.Err? ==> r.error.Invalid?
    ensures r.Ok? ==> |r.value| == |children[0]|
    ensures r.Ok? ==> forall i :: 0 <= i < |r.value| ==> r.value[i] == StructRow(children, names, i)
  {
    if |children| == 0 then Err(Invalid("Can't infer struct array length with 0 child arrays"))
    else if |names| != |children| then Err(Invalid("Mismatching number of field names and child arrays"))
    else if exists j :: 0 <= j < |children| && |children[j]| != |children[0]| then
      Err(Invalid("Mismatching child array lengths"))
    else
      Ok(seq(|children[0]|, i requires 0 <= i < |children[0]| => StructRow(children, names, i)))
  }

  // ---------------------------------------------------------------------------
  // List arrays.

  /** The offsets of a list array over `n` child values: at least one offset, non-decreasing,
      from 0 or more up to `n` or less. */
  ghost predicate ValidOffsets(offsets: seq<int>, n: int) {
    && |offsets| >= 1
    && 0 <= offsets[0]
    && offsets[|offsets| - 1] <= n
    && forall i, j :: 0 <= i <= j < |offsets| ==> offsets[i] <= offsets[j]
  }

  /** The rows of the list array with these offsets over these child values: row `i` holds
      the values from `offsets[i]` up to `offsets[i + 1]`. */
  function ListRows(offsets: seq<int>, values: Column): (r: Column)
    requires ValidOffsets(offsets, |values|)
    ensures |r| == |offsets| - 1
  {
    seq(|offsets| - 1, i requires 0 <= i < |offsets| - 1 => ListVal(values[offsets[i]..offsets[i + 1]]))
  }

  /** `ListArray::FromArrays(offsets, values)`: Invalid unless the offsets are valid for the
      values; the list rows otherwise. */
  function ListFromArrays(offsets: seq<int>, values: Column): (r: Result<Column>)
    ensures r.Ok? <==> ValidOffsets(offsets, |values|)
    ensures r.Ok? ==> r.value == ListRows(offsets, values)
    ensures r.Err? ==> r.error.Invalid?
  {
    if |offsets| >= 1 && 0 <= offsets[0] && offsets[|offsets| - 1] <= |values|
       && forall i, j :: 0 <= i <= j < |offsets| ==> offsets[i] <= offsets[j]
    then
      Ok(ListRows(offsets, values))
    else
      Err(Invalid("List offsets are not valid for the values"))
  }

  /** The offsets moved to start at zero, in int32 arithmetic: what `ResetOffsets`
      (reader.cc:138-148) builds. */
  function Rebased(offsets: seq<int>): (r: seq<int>)
    requires |offsets| >= 1
    ensures |r| == |offsets| && r[0] == 0
    ensures forall i :: 0 <= i < |r| ==> IsInt32(r[i])
  {
    seq(|offsets|, i requires 0 <= i < |offsets| => Wrap32(offsets[i] - offsets[0]))
  }

  /** Rebasing int32 offsets that never go below the first one is exact: every offset
      moves by the first one, so the first becomes 0 and every gap between neighbours is
      kept. */
  lemma RebasedExact(offsets: seq<int>)
    requires |offsets| >= 1
    requires forall i :: 0 <= i < |offsets| ==> IsInt32(offsets[i])
    requires 0 <= offsets[0]
    requires forall i :: 0 <= i < |offsets| ==> offsets[0] <= offsets[i]
    ensures forall i :: 0 <= i < |offsets| ==> Rebased(offsets)[i] == offsets[i] - offsets[0]
    ensures forall i :: 0 <= i < |offsets| - 1 ==>
      Rebased(offsets)[i + 1] - Rebased(offsets)[i] == offsets[i + 1] - offsets[i]
  {
    forall i | 0 <= i < |offsets| ensures Rebased(offsets)[i] == offsets[i] - offsets[0] {
      assert IsInt32(offsets[i] - offsets[0]);
    }
  }

  /** Reading only the child values the offsets cover, `[offsets[0], offsets[last])`, and
      rebasing the offsets gives the same list rows as the original offsets over all the
      child values. */
  lemma RebasePreservesRows(offsets: seq<int>, values: Column)
    requires ValidOffsets(offsets, |values|)
    requires forall i :: 0 <= i < |offsets| ==> IsInt32(offsets[i])
    ensures ValidOffsets(Rebased(offsets), offsets[|offsets| - 1] - offsets[0])
    ensures ListRows(Rebased(offsets), values[offsets[0]..offsets[|offsets| - 1]]) == ListRows(offsets, values)
  {
    var first := offsets[0];
    var last := offsets[|offsets| - 1];
    var window := values[first..last];
    RebasedExact(offsets);
    var r := Rebased(offsets);
    assert ValidOffsets(r, |window|);
    var a := ListRows(r, window);
    var b := ListRows(offsets, values);
    forall i | 0 <= i < |offsets| - 1 ensures a[i] == b[i] {
      assert window[r[i]..r[i + 1]] == values[offsets[i]..offsets[i + 1]];
    }
  }
}
