/** Status values of the native reader: the Arrow `Status` codes the core returns,
    and the `Result`/`Option` wrappers used in place of `arrow::Result` and `std::optional`. */
module Wrappers {

  /** The Arrow status codes raised by the core. The message keeps the fixed text of
      each call site; values the source formats into it are left out. */
  datatype Error =
    | IOError(msg: string)
    | Invalid(msg: string)
    | IndexError(msg: string)

  datatype Option<+T> = None | Some(value: T) {
    function GetOr(default: T): T {
      match this
      case Some(v) => v
      case None => default
    }
  }

  /** `arrow::Result<T>`: a value or a failed status. Usable with `:-`. */
  datatype Result<+T> = Ok(value: T) | Err(error: Error) {
    predicate IsFailure() {
      Err?
    }

    function PropagateFailure<U>(): Result<U>
      requires Err?
    {
      Err(error)
    }

    function Extract(): T
      requires Ok?
    {
      value
    }
  }

  /** `arrow::Status`: OK or a failed status. */
  datatype Outcome = Pass | Fail(error: Error)

  function Min(a: int, b: int): int {
    if a <= b then a else b
  }

  function Max(a: int, b: int): int {
    if a >= b then a else b
  }

  /** Sum of a sequence of integers. */
  function Sum(s: seq<int>): int {
    if s == [] then 0 else s[0] + Sum(s[1..])
  }

  lemma {:induction false} SumAppend(a: seq<int>, b: seq<int>)
    ensures Sum(a + b) == Sum(a) + Sum(b)
  {
    if a == [] {
      assert a + b == b;
    } else {
      assert (a + b)[1..] == a[1..] + b;
      SumAppend(a[1..], b);
    }
  }

  /** Concatenation of a sequence of sequences. */
  function Flatten<T>(ss: seq<seq<T>>): seq<T> {
    if ss == [] then [] else ss[0] + Flatten(ss[1..])
  }

  lemma {:induction false} FlattenAppend<T>(a: seq<seq<T>>, b: seq<seq<T>>)
    ensures Flatten(a + b) == Flatten(a) + Flatten(b)
  {
    if a == [] {
      assert a + b == b;
    } else {
      assert (a + b)[1..] == a[1..] + b;
      FlattenAppend(a[1..], b);
    }
  }

  /** The values of `rs` in order, or the first failure among them: what a loop that
      returns on the first failed status builds. */
  function Collect<T(==)>(rs: seq<Result<T>>): (r: Result<seq<T>>)
    ensures r.Ok? <==> forall j :: 0 <= j < |rs| ==> rs[j].Ok?
    ensures r.Ok? ==> |r.value| == |rs| && forall j :: 0 <= j < |rs| ==> rs[j] == Ok(r.value[j])
  {
    if rs == [] then Ok([])
    else
      match rs[0]
      case Err(e) => Err(e)
      case Ok(v) =>
        var rest :- Collect(rs[1..]);
        assert forall j :: 1 <= j < |rs| ==> rs[j] == rs[1..][j - 1];
        Ok([v] + rest)
  }

  /** When the first `j` results succeed and result `j` fails, the collection fails with
      that failure. */
  lemma {:induction false} CollectFirstError<T>(rs: seq<Result<T>>, j: int)
    requires 0 <= j < |rs| && rs[j].Err?
    requires forall k :: 0 <= k < j ==> rs[k].Ok?
    ensures Collect(rs) == Err(rs[j].error)
  {
    if j > 0 {
      assert forall k :: 0 <= k < j - 1 ==> rs[1..][k] == rs[k + 1];
      CollectFirstError(rs[1..], j - 1);
    }
  }

  /** When every result succeeds, the collection is their values. */
  lemma CollectAllOk<T>(rs: seq<Result<T>>, vs: seq<T>)
    requires |rs| == |vs| && forall j :: 0 <= j < |rs| ==> rs[j] == Ok(vs[j])
    ensures Collect(rs) == Ok(vs)
  {
    var r := Collect(rs);
    assert r.Ok?;
    assert r.value == vs;
  }
}
