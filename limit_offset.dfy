/** The `Limit` and `Offset` cursors of the scan (`lance/io/limit_offset.h`, whose
    behaviour `lance/io/limit_offset_test.cc` pins down). Each keeps a running count over
    the chunks it is shown, one call per chunk: `Limit` says how many rows of the chunk to
    emit, `Offset` where in the chunk emitting starts. An array is modelled by its rows,
    and a null array by None. The offset is non-negative, as the scanner rejects a
    negative offset (`lance/arrow/scanner.cc:40-42`); the scanner passes the limit on
    unchecked, and the model takes it non-negative as well. */
module LimitOffset {
  import opened Wrappers

  // ---------------------------------------------------------------------------
  // Limit.

  class Limit {
    /** The most rows the cursor emits in total. */
    const limit: int
    /** The rows emitted so far. */
    var emitted: int

    ghost predicate Valid()
      reads this
    {
      0 <= emitted <= limit
    }

    constructor(n: int)
      requires n >= 0
      ensures limit == n && emitted == 0 && Valid()
    {
      limit := n;
      emitted := 0;
    }

    /** `Limit::Execute(length)`: the rows of a chunk of `length` rows to emit. */
    method Execute(length: int) returns (k: int)
      requires Valid() && length >= 0
      modifies this
      ensures k == LimitTake(limit, old(emitted), length)
      ensures emitted == old(emitted) + k
      ensures Valid()
    {
      k := Min(length, limit - emitted);
      emitted := emitted + k;
    }

    /** `Limit::Execute(arr)`: null stays null; once the limit is reached every array
        becomes null; otherwise the array is cut to the rows still allowed. */
    method ExecuteArray<T>(arr: Option<seq<T>>) returns (r: Option<seq<T>>)
      requires Valid()
      modifies this
      ensures arr.None? ==> r.None? && emitted == old(emitted)
      ensures arr.Some? && old(emitted) == limit ==> r.None? && emitted == old(emitted)
      ensures arr.Some? && old(emitted) < limit ==>
        && r == Some(arr.value[..LimitTake(limit, old(emitted), |arr.value|)])
        && emitted == old(emitted) + LimitTake(limit, old(emitted), |arr.value|)
      ensures Valid()
    {
      if arr.None? || emitted == limit {
        return None;
      }
      var k := Execute(|arr.value|);
      r := Some(arr.value[..k]);
    }
  }

  /** The rows a limit of `limit` lets through of a chunk of `length` rows after
      `emitted` rows: all of them while they fit, the rest of the budget otherwise. */
  function LimitTake(limit: int, emitted: int, length: int): (k: int)
    requires 0 <= emitted <= limit && length >= 0
    ensures 0 <= k <= length && emitted + k <= limit
    ensures k == length || emitted + k == limit
  {
    Min(length, limit - emitted)
  }

  predicate NonNegative(lengths: seq<int>) {
    forall i :: 0 <= i < |lengths| ==> lengths[i] >= 0
  }

  /** What one `Limit` cursor answers over a run of chunk lengths, from `emitted` rows. */
  function LimitRun(limit: int, emitted: int, lengths: seq<int>): (outs: seq<int>)
    requires 0 <= emitted <= limit && NonNegative(lengths)
    ensures |outs| == |lengths|
    decreases lengths
  {
    if lengths == [] then []
    else
      var k := LimitTake(limit, emitted, lengths[0]);
      [k] + LimitRun(limit, emitted + k, lengths[1..])
  }

  /** Over any run of chunks a limit of n emits min(n, total) rows in all: never more
      than the limit, and everything while the limit is not reached. */
  lemma {:induction false} LimitRunTotal(limit: int, emitted: int, lengths: seq<int>)
    requires 0 <= emitted <= limit && NonNegative(lengths)
    ensures Sum(LimitRun(limit, emitted, lengths)) == Min(limit - emitted, Sum(lengths))
    decreases lengths
  {
    if lengths != [] {
      var k := LimitTake(limit, emitted, lengths[0]);
      LimitRunTotal(limit, emitted + k, lengths[1..]);
      SumOfNonNegative(lengths[1..]);
    }
  }

  lemma {:induction false} SumOfNonNegative(lengths: seq<int>)
    requires NonNegative(lengths)
    ensures Sum(lengths) >= 0
  {
    if lengths != [] {
      SumOfNonNegative(lengths[1..]);
    }
  }

  /** A fresh `Limit(n)` shown the chunk lengths one by one answers `LimitRun`. */
  method LimitOverLengths(n: int, lengths: seq<int>) returns (outs: seq<int>)
    requires n >= 0 && NonNegative(lengths)
    ensures outs == LimitRun(n, 0, lengths)
  {
    var cursor := new Limit(n);
    outs := [];
    var i := 0;
    while i < |lengths|
      invariant 0 <= i <= |lengths| && cursor.Valid() && cursor.limit == n
      invariant outs + LimitRun(n, cursor.emitted, lengths[i..]) == LimitRun(n, 0, lengths)
    {
      assert lengths[i..][1..] == lengths[i + 1..];
      var k := cursor.Execute(lengths[i]);
      outs := outs + [k];
      i := i + 1;
    }
  }

  /** "Test Limit with length": a limit of 100 over chunks of 10, 80, 20 and 30 rows
      emits 10, 80, 10 and then nothing. */
  method LimitWithLengthCase() returns (outs: seq<int>)
    ensures outs == [10, 80, 10, 0]
  {
    var limit := new Limit(100);
    var a := limit.Execute(10);
    var b := limit.Execute(80);
    var c := limit.Execute(20);
    var d := limit.Execute(30);
    outs := [a, b, c, d];
  }

  /** "Test Limit over Array": a limit of 10 over null, then a 5-row array twice (the
      second time its last 3 rows), then twice more: null stays null, the arrays pass
      until the 10th row, the fourth one is cut to 2 rows and the fifth one is null. */
  method LimitOverArrayCase() returns (outs: seq<Option<seq<int>>>)
    ensures outs == [None, Some([1, 2, 3, 4, 5]), Some([3, 4, 5]), Some([1, 2]), None]
  {
    var arr := [1, 2, 3, 4, 5];
    var limit := new Limit(10);
    var a := limit.ExecuteArray<int>(None);
    var b := limit.ExecuteArray(Some(arr));
    assert arr[..5] == arr;
    var c := limit.ExecuteArray(Some(arr[2..]));
    assert arr[2..][..3] == arr[2..];
    var d := limit.ExecuteArray(Some(arr));
    assert arr[..2] == [1, 2];
    var e := limit.ExecuteArray(Some(arr));
    outs := [a, b, c, d, e];
  }

  // ---------------------------------------------------------------------------
  // Offset.

  class Offset {
    /** The rows to skip before emitting starts. */
    const offset: int
    /** The rows seen so far. */
    var seen: int

    ghost predicate Valid()
      reads this
    {
      0 <= offset && 0 <= seen
    }

    constructor(n: int)
      requires n >= 0
      ensures offset == n && seen == 0 && Valid()
    {
      offset := n;
      seen := 0;
    }

    /** `Offset::Execute(length)`: where emitting starts in a chunk of `length` rows, or
        none when the whole chunk lies before the offset. */
    method Execute(length: int) returns (start: Option<int>)
      requires Valid() && length >= 0
      modifies this
      ensures start == OffsetStart(offset, old(seen), length)
      ensures seen == old(seen) + length
      ensures Valid()
    {
      if seen >= offset {
        start := Some(0);
      } else if seen + length <= offset {
        start := None;
      } else {
        start := Some(offset - seen);
      }
      seen := seen + length;
    }

    /** `Offset::Execute(arr)`: null stays null and leaves the count alone; an array that
        lies before the offset becomes empty; otherwise its rows from the start. */
    method ExecuteArray<T>(arr: Option<seq<T>>) returns (r: Option<seq<T>>)
      requires Valid()
      modifies this
      ensures arr.None? ==> r.None? && seen == old(seen)
      ensures arr.Some? ==> seen == old(seen) + |arr.value|
      ensures arr.Some? ==> r == Some(arr.value[|arr.value| - OffsetEmitted(offset, old(seen), |arr.value|)..])
      ensures Valid()
    {
      if arr.None? {
        return None;
      }
      var start := Execute(|arr.value|);
      if start.None? {
        assert arr.value[|arr.value|..] == [];
        r := Some([]);
      } else {
        r := Some(arr.value[start.value..]);
      }
    }
  }

  /** Where an offset of `n` starts emitting in a chunk of `length` rows after `seen`
      rows: nowhere while the chunk ends at or before the offset, at `n - seen` in the
      chunk that crosses it, and at 0 in every chunk after it. */
  function OffsetStart(n: int, seen: int, length: int): (r: Option<int>)
    requires 0 <= n && 0 <= seen && length >= 0
    ensures r.None? <==> seen < n && seen + length <= n
    ensures r.Some? ==> 0 <= r.value <= length && r.value == Max(0, n - seen)
  {
    if seen >= n then Some(0)
    else if seen + length <= n then None
    else Some(n - seen)
  }

  /** The rows of such a chunk that are emitted. */
  function OffsetEmitted(n: int, seen: int, length: int): (e: int)
    requires 0 <= n && 0 <= seen && length >= 0
    ensures 0 <= e <= length
  {
    match OffsetStart(n, seen, length)
    case None => 0
    case Some(s) => length - s
  }

  /** The rows an `Offset` cursor emits of each chunk of a run, from `seen` rows. */
  function OffsetRun(n: int, seen: int, lengths: seq<int>): (outs: seq<int>)
    requires 0 <= n && 0 <= seen && NonNegative(lengths)
    ensures |outs| == |lengths| && NonNegative(outs)
    decreases lengths
  {
    if lengths == [] then []
    else [OffsetEmitted(n, seen, lengths[0])] + OffsetRun(n, seen + lengths[0], lengths[1..])
  }

  /** Over chunks totalling T rows an offset of n emits max(0, T - n) rows: exactly the
      rows after the first n (counted from `seen` rows already passed). */
  lemma {:induction false} OffsetRunTotal(n: int, seen: int, lengths: seq<int>)
    requires 0 <= n && 0 <= seen && NonNegative(lengths)
    ensures Sum(OffsetRun(n, seen, lengths)) == Max(0, seen + Sum(lengths) - n) - Max(0, seen - n)
    decreases lengths
  {
    if lengths != [] {
      OffsetRunTotal(n, seen + lengths[0], lengths[1..]);
      SumOfNonNegative(lengths[1..]);
    }
  }

  /** A limit applied after an offset emits min(L, max(0, T - O)) rows in all: the
      window of the scan's `LIMIT L OFFSET O`. */
  lemma LimitAfterOffset(limit: int, offset: int, lengths: seq<int>)
    requires limit >= 0 && offset >= 0 && NonNegative(lengths)
    ensures Sum(LimitRun(limit, 0, OffsetRun(offset, 0, lengths))) == Min(limit, Max(0, Sum(lengths) - offset))
  {
    OffsetRunTotal(offset, 0, lengths);
    LimitRunTotal(limit, 0, OffsetRun(offset, 0, lengths));
  }

  lemma OffsetRunStep(n: int, seen: int, lengths: seq<int>, i: int)
    requires 0 <= n && 0 <= seen && NonNegative(lengths) && 0 <= i < |lengths|
    ensures NonNegative(lengths[i..]) && NonNegative(lengths[i + 1..])
    ensures OffsetRun(n, seen, lengths[i..]) ==
      [OffsetEmitted(n, seen, lengths[i])] + OffsetRun(n, seen + lengths[i], lengths[i + 1..])
  {
    assert lengths[i..][1..] == lengths[i + 1..];
  }

  /** A fresh `Offset(n)` shown the chunk lengths one by one emits `OffsetRun`. */
  method OffsetOverLengths(n: int, lengths: seq<int>) returns (outs: seq<int>)
    requires n >= 0 && NonNegative(lengths)
    ensures outs == OffsetRun(n, 0, lengths)
  {
    var cursor := new Offset(n);
    ghost var expected := OffsetRun(n, 0, lengths);
    outs := [];
    var i := 0;
    while i < |lengths|
      invariant 0 <= i <= |lengths| && cursor.Valid() && cursor.offset == n
      invariant NonNegative(lengths[i..])
      invariant outs + OffsetRun(n, cursor.seen, lengths[i..]) == expected
    {
      ghost var seen := cursor.seen;
      ghost var rest := OffsetRun(n, seen + lengths[i], lengths[i + 1..]);
      OffsetRunStep(n, seen, lengths, i);
      var start := cursor.Execute(lengths[i]);
      var emitted := if start.None? then 0 else lengths[i] - start.value;
      assert emitted == OffsetEmitted(n, seen, lengths[i]);
      assert (outs + [emitted]) + rest == outs + ([emitted] + rest);
      outs := outs + [emitted];
      i := i + 1;
    }
  }

  /** "Test offsets": an offset of 100 over chunks of 20, 70, 30, 15 and 200 rows starts
      nowhere, nowhere, at 10, and then at 0. */
  method OffsetsCase() returns (outs: seq<Option<int>>)
    ensures outs == [None, None, Some(10), Some(0), Some(0)]
  {
    var offset := new Offset(100);
    var a := offset.Execute(20);
    var b := offset.Execute(70);
    var c := offset.Execute(30);
    var d := offset.Execute(15);
    var e := offset.Execute(200);
    outs := [a, b, c, d, e];
  }

  /** "Test apply offset over arrays": an offset of 40 over null, then arrays of 20, 15,
      20 and 20 rows: null stays null and the arrays keep 0, 0, 15 and 20 rows. */
  method OffsetOverArraysCase() returns (isNull: bool, lengths: seq<int>)
    ensures isNull
    ensures lengths == [0, 0, 15, 20]
  {
    var arr := seq(20, i => i);
    var offset := new Offset(40);
    var n := offset.ExecuteArray<int>(None);
    isNull := n.None?;
    var a := offset.ExecuteArray(Some(arr));
    var b := offset.ExecuteArray(Some(arr[..15]));
    var c := offset.ExecuteArray(Some(arr));
    var d := offset.ExecuteArray(Some(arr));
    lengths := [|a.value|, |b.value|, |c.value|, |d.value|];
  }
}
