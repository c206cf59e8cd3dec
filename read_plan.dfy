/** How `FileReader::ReadAt` (`lance/io/reader.cc:232-262`) cuts a global row range into
    pieces of consecutive batches. A file's rows are stored in batches; `Metadata` keeps
    the row count of each one (`metadata.cc` is not part of this model, so
    `Metadata::LocateChunk` is given its documented meaning here). */
module ReadPlan {
  import opened Wrappers

  /** The file metadata the reader uses: the row count of every batch, and where the
      page table starts. */
  datatype Metadata = Metadata(batchLengths: seq<nat>, pageTablePosition: int)

  /** Every batch holds zero or more rows. */
  predicate ValidLengths(lengths: seq<int>) {
    forall k :: 0 <= k < |lengths| ==> lengths[k] >= 0
  }

  /** The number of rows stored before batch `b`. */
  function Prefix(lengths: seq<int>, b: int): int
    requires 0 <= b <= |lengths|
  {
    Sum(lengths[..b])
  }

  lemma PrefixStep(lengths: seq<int>, b: int)
    requires 0 <= b < |lengths|
    ensures Prefix(lengths, b + 1) == Prefix(lengths, b) + lengths[b]
  {
    assert lengths[..b + 1] == lengths[..b] + [lengths[b]];
    SumAppend(lengths[..b], [lengths[b]]);
  }

  lemma PrefixSplit(lengths: seq<int>, b: int)
    requires 0 <= b <= |lengths|
    ensures Prefix(lengths, b) + Sum(lengths[b..]) == Sum(lengths)
  {
    assert lengths == lengths[..b] + lengths[b..];
    SumAppend(lengths[..b], lengths[b..]);
  }

  lemma {:induction false} SumNonNegative(lengths: seq<int>)
    requires ValidLengths(lengths)
    ensures Sum(lengths) >= 0
  {
    if lengths != [] {
      SumNonNegative(lengths[1..]);
    }
  }

  lemma SuffixValid(lengths: seq<int>, b: int)
    requires ValidLengths(lengths) && 0 <= b <= |lengths|
    ensures ValidLengths(lengths[b..])
  {
    assert forall k :: 0 <= k < |lengths[b..]| ==> lengths[b..][k] == lengths[b + k];
  }

  /** `Metadata::LocateChunk(idx)`: the batch holding global row `idx` and the row's index
      in it; an IndexError when `idx` is not a row of the file. */
  function LocateChunk(lengths: seq<int>, idx: int): (r: Result<(int, int)>)
    requires ValidLengths(lengths)
    ensures r.Ok? <==> 0 <= idx < Sum(lengths)
    ensures r.Err? ==> r.error.IndexError?
    ensures r.Ok? ==> 0 <= r.value.0 < |lengths| && 0 <= r.value.1 < lengths[r.value.0]
    ensures r.Ok? ==> idx == Prefix(lengths, r.value.0) + r.value.1
  {
    if lengths == [] || idx < 0 then Err(IndexError("Chunk index out of range"))
    else if idx < lengths[0] then
      assert lengths[..0] == [];
      SuffixValid(lengths, 1);
      SumNonNegative(lengths[1..]);
      Ok((0, idx))
    else
      SuffixValid(lengths, 1);
      match LocateChunk(lengths[1..], idx - lengths[0])
      case Err(e) => Err(e)
      case Ok((b, i)) =>
        assert lengths[..b + 1][1..] == lengths[1..][..b];
        Ok((b + 1, i))
  }

  /** One piece of a read: `length` rows of batch `batch` from row `start`. */
  datatype Piece = Piece(batch: int, start: int, length: int)

  /** The loop of `ReadAt` as written: the length left is `len`, the batch is `ckid` and
      the start in it `ckIndex`; the page length is always taken from the first batch,
      `batchId` (reader.cc:245). */
  function PlanAsWritten(lengths: seq<int>, batchId: int, ckid: int, ckIndex: int, len: int): seq<Piece>
    requires 0 <= batchId < |lengths| && 0 <= ckid
    decreases |lengths| - ckid
  {
    if len > 0 && ckid < |lengths| then
      var inChunk := Min(len, lengths[batchId] - ckIndex);
      [Piece(ckid, ckIndex, inChunk)] + PlanAsWritten(lengths, batchId, ckid + 1, 0, len - inChunk)
    else
      []
  }

  /** The same loop taking the page length of the batch being read. */
  function Plan(lengths: seq<int>, ckid: int, ckIndex: int, len: int): seq<Piece>
    requires 0 <= ckid
    decreases |lengths| - ckid
  {
    if len > 0 && ckid < |lengths| then
      var inChunk := Min(len, lengths[ckid] - ckIndex);
      [Piece(ckid, ckIndex, inChunk)] + Plan(lengths, ckid + 1, 0, len - inChunk)
    else
      []
  }

  /** The rows from batch `b` on are those of batch `b` and those after it, which are
      never negative; after the last batch there are none. */
  lemma SumStep(lengths: seq<int>, b: int)
    requires ValidLengths(lengths) && 0 <= b < |lengths|
    ensures Sum(lengths[b..]) == lengths[b] + Sum(lengths[b + 1..])
    ensures Sum(lengths[b + 1..]) >= 0
    ensures b == |lengths| - 1 ==> Sum(lengths[b + 1..]) == 0
  {
    assert lengths[b..] == [lengths[b]] + lengths[b + 1..];
    SuffixValid(lengths, b + 1);
    SumNonNegative(lengths[b + 1..]);
    if b == |lengths| - 1 {
      assert lengths[b + 1..] == [];
    }
  }

  /** One step of the plan, seen from a loop that has emitted `done` pieces so far. */
  lemma PlanStep(lengths: seq<int>, ckid: int, ckIndex: int, len: int, pieces: seq<Piece>, done: int)
    requires 0 <= ckid < |lengths| && len > 0
    requires 0 <= done <= |pieces| && Plan(lengths, ckid, ckIndex, len) == pieces[done..]
    ensures done < |pieces|
    ensures pieces[done] == Piece(ckid, ckIndex, Min(len, lengths[ckid] - ckIndex))
    ensures Plan(lengths, ckid + 1, 0, len - Min(len, lengths[ckid] - ckIndex)) == pieces[done + 1..]
  {
    var inChunk := Min(len, lengths[ckid] - ckIndex);
    var rest := Plan(lengths, ckid + 1, 0, len - inChunk);
    assert pieces[done..] == [Piece(ckid, ckIndex, inChunk)] + rest;
    assert pieces[done..][0] == pieces[done];
    assert pieces[done..][1..] == pieces[done + 1..];
  }

  /** The number of rows `ReadAt` reads for `length` rows from `offset`: it is clamped to
      the rows left in the file. */
  function ClampedLength(m: Metadata, offset: int, length: int): int {
    Min(length, Sum(m.batchLengths) - offset)
  }

  /** The pieces `ReadAt` reads for each field, or the error of `LocateChunk`. */
  function ReadAtPlanAsWritten(m: Metadata, offset: int, length: int): (r: Result<seq<Piece>>)
    requires ValidLengths(m.batchLengths)
    ensures r.Ok? <==> 0 <= offset < Sum(m.batchLengths)
    ensures r.Ok? && length >= 1 ==> |r.value| >= 1
  {
    var (b, i) :- LocateChunk(m.batchLengths, offset);
    Ok(PlanAsWritten(m.batchLengths, b, b, i, ClampedLength(m, offset, length)))
  }

  /** The pieces of the intended read. */
  function ReadAtPlan(m: Metadata, offset: int, length: int): (r: Result<seq<Piece>>)
    requires ValidLengths(m.batchLengths)
    ensures r.Ok? <==> 0 <= offset < Sum(m.batchLengths)
    ensures r.Err? ==> r.error.IndexError?
    ensures r.Ok? && length >= 1 ==> |r.value| >= 1
  {
    var (b, i) :- LocateChunk(m.batchLengths, offset);
    Ok(Plan(m.batchLengths, b, i, ClampedLength(m, offset, length)))
  }

  /** The global row numbers a piece reads. */
  function PieceRows(lengths: seq<int>, p: Piece): seq<int>
    requires 0 <= p.batch <= |lengths|
  {
    seq(Max(p.length, 0), k => Prefix(lengths, p.batch) + p.start + k)
  }

  ghost predicate PiecesInFile(lengths: seq<int>, pieces: seq<Piece>) {
    forall j :: 0 <= j < |pieces| ==> 0 <= pieces[j].batch < |lengths|
  }

  function PlanRows(lengths: seq<int>, pieces: seq<Piece>): seq<int>
    requires PiecesInFile(lengths, pieces)
  {
    if pieces == [] then [] else PieceRows(lengths, pieces[0]) + PlanRows(lengths, pieces[1..])
  }

  /** The number of rows a plan reads. */
  function PlanLength(pieces: seq<Piece>): int {
    if pieces == [] then 0 else pieces[0].length + PlanLength(pieces[1..])
  }

  /** `count` consecutive row numbers from `from`. */
  function Consecutive(from: int, count: int): (r: seq<int>)
    requires count >= 0
    ensures |r| == count && forall k :: 0 <= k < count ==> r[k] == from + k
  {
    seq(count, k => from + k)
  }

  lemma ConsecutiveSplit(from: int, a: int, b: int)
    requires a >= 0 && b >= 0
    ensures Consecutive(from, a) + Consecutive(from + a, b) == Consecutive(from, a + b)
  {
  }

  /** Every piece of the intended plan lies inside its batch, and a piece after the first
      starts at row 0 of the batch after the previous piece's. */
  lemma {:induction false} PlanPiecesInBatches(lengths: seq<int>, ckid: int, ckIndex: int, len: int)
    requires ValidLengths(lengths)
    requires 0 <= ckid && 0 <= ckIndex && (ckid < |lengths| ==> ckIndex <= lengths[ckid])
    ensures PiecesInFile(lengths, Plan(lengths, ckid, ckIndex, len))
    ensures forall j :: 0 <= j < |Plan(lengths, ckid, ckIndex, len)| ==>
      var p := Plan(lengths, ckid, ckIndex, len)[j];
      p.batch == ckid + j && 0 <= p.start && 0 <= p.length && p.start + p.length <= lengths[p.batch] &&
      (j > 0 ==> p.start == 0)
    decreases |lengths| - ckid
  {
    if len > 0 && ckid < |lengths| {
      var inChunk := Min(len, lengths[ckid] - ckIndex);
      var rest := Plan(lengths, ckid + 1, 0, len - inChunk);
      PlanPiecesInBatches(lengths, ckid + 1, 0, len - inChunk);
      var all := Plan(lengths, ckid, ckIndex, len);
      assert all == [Piece(ckid, ckIndex, inChunk)] + rest;
      forall j | 1 <= j < |all| ensures all[j] == rest[j - 1] {
      }
    }
  }

  /** The intended plan reads exactly the `len` rows from row `ckIndex` of batch `ckid`,
      in order, when the file has that many rows from there. */
  lemma {:induction false} PlanCoversRows(lengths: seq<int>, ckid: int, ckIndex: int, len: int)
    requires ValidLengths(lengths)
    requires 0 <= ckid < |lengths| && 0 <= ckIndex <= lengths[ckid]
    requires 0 <= len <= Sum(lengths[ckid..]) - ckIndex
    ensures PiecesInFile(lengths, Plan(lengths, ckid, ckIndex, len))
    ensures PlanRows(lengths, Plan(lengths, ckid, ckIndex, len)) == Consecutive(Prefix(lengths, ckid) + ckIndex, len)
    ensures PlanLength(Plan(lengths, ckid, ckIndex, len)) == len
    decreases |lengths| - ckid
  {
    PlanPiecesInBatches(lengths, ckid, ckIndex, len);
    if len > 0 {
      var inChunk := Min(len, lengths[ckid] - ckIndex);
      var piece := Piece(ckid, ckIndex, inChunk);
      var rest := Plan(lengths, ckid + 1, 0, len - inChunk);
      assert Plan(lengths, ckid, ckIndex, len) == [piece] + rest;
      assert ([piece] + rest)[1..] == rest;
      var from := Prefix(lengths, ckid) + ckIndex;
      assert PieceRows(lengths, piece) == Consecutive(from, inChunk);
      SumStep(lengths, ckid);
      if ckid + 1 < |lengths| {
        PlanCoversRows(lengths, ckid + 1, 0, len - inChunk);
        PrefixStep(lengths, ckid);
        if len - inChunk > 0 {
          assert Prefix(lengths, ckid + 1) == from + inChunk;
        }
        ConsecutiveSplit(from, inChunk, len - inChunk);
      } else {
        assert lengths[ckid + 1..] == [];
        assert inChunk == len;
        assert rest == [];
      }
    }
  }

  /** `ReadAt` as intended reads, for a located start, exactly the clamped number of rows
      from `offset` on, and at least one piece when at least one row is asked for. */
  lemma ReadAtPlanCoversRange(m: Metadata, offset: int, length: int)
    requires ValidLengths(m.batchLengths)
    requires length >= 1
    requires ReadAtPlan(m, offset, length).Ok?
    ensures PiecesInFile(m.batchLengths, ReadAtPlan(m, offset, length).value)
    ensures PlanRows(m.batchLengths, ReadAtPlan(m, offset, length).value) ==
      Consecutive(offset, ClampedLength(m, offset, length))
    ensures |ReadAtPlan(m, offset, length).value| >= 1
    ensures PlanLength(ReadAtPlan(m, offset, length).value) == ClampedLength(m, offset, length)
  {
    var lengths := m.batchLengths;
    var (b, i) := LocateChunk(lengths, offset).value;
    PrefixSplit(lengths, b);
    PlanCoversRows(lengths, b, i, ClampedLength(m, offset, length));
  }

  /** Equal-sized batches from the located one on, with at most a shorter final batch. */
  ghost predicate UniformFrom(lengths: seq<int>, batchId: int)
    requires 0 <= batchId < |lengths|
  {
    && (forall k :: batchId < k < |lengths| - 1 ==> lengths[k] == lengths[batchId])
    && lengths[|lengths| - 1] <= lengths[batchId]
  }

  /** Under uniform batches the page length of the first batch gives the same piece as
      that of the batch being read: a middle batch has the same length, and the last one
      holds at least the rows still to read. */
  lemma UniformPiece(lengths: seq<int>, batchId: int, ckid: int, ckIndex: int, len: int)
    requires 0 <= batchId < |lengths| && UniformFrom(lengths, batchId)
    requires batchId <= ckid < |lengths| && (ckid > batchId ==> ckIndex == 0)
    requires ckid == |lengths| - 1 ==> len <= lengths[ckid] - ckIndex
    ensures Min(len, lengths[batchId] - ckIndex) == Min(len, lengths[ckid] - ckIndex)
  {
    if batchId < ckid < |lengths| - 1 {
      assert lengths[ckid] == lengths[batchId];
    }
  }

  /** From the located batch on, under uniform batches, the loop as written plans the
      same pieces as the intended one. */
  lemma {:induction false} PlansAgreeFrom(lengths: seq<int>, batchId: int, ckid: int, ckIndex: int, len: int)
    requires ValidLengths(lengths) && 0 <= batchId < |lengths| && UniformFrom(lengths, batchId)
    requires batchId <= ckid && (ckid > batchId ==> ckIndex == 0)
    requires ckid < |lengths| ==> len <= Sum(lengths[ckid..]) - ckIndex
    ensures PlanAsWritten(lengths, batchId, ckid, ckIndex, len) == Plan(lengths, ckid, ckIndex, len)
    decreases |lengths| - ckid
  {
    if len > 0 && ckid < |lengths| {
      SumStep(lengths, ckid);
      UniformPiece(lengths, batchId, ckid, ckIndex, len);
      var inChunk := Min(len, lengths[ckid] - ckIndex);
      PlansAgreeFrom(lengths, batchId, ckid + 1, 0, len - inChunk);
    }
  }

  /** Under equal-sized batches (a shorter last one allowed), `ReadAt` as written reads the
      intended pieces, so it reads exactly the clamped range. */
  lemma ReadAtAsWrittenUnderUniformBatches(m: Metadata, offset: int, length: int)
    requires ValidLengths(m.batchLengths)
    requires LocateChunk(m.batchLengths, offset).Ok?
    requires UniformFrom(m.batchLengths, LocateChunk(m.batchLengths, offset).value.0)
    ensures ReadAtPlanAsWritten(m, offset, length) == ReadAtPlan(m, offset, length)
  {
    var lengths := m.batchLengths;
    var (b, i) := LocateChunk(lengths, offset).value;
    PrefixSplit(lengths, b);
    PlansAgreeFrom(lengths, b, b, i, ClampedLength(m, offset, length));
  }

  /** Batches of 2 and 4 rows: `ReadAt(0, 6)` as written reads 2 rows of each batch, 4 in
      all, and skips the last 2 rows of the second batch. */
  lemma ReadAtAsWrittenDropsRows()
    ensures ReadAtPlanAsWritten(Metadata([2, 4], 0), 0, 6) == Ok([Piece(0, 0, 2), Piece(1, 0, 2)])
    ensures ReadAtPlan(Metadata([2, 4], 0), 0, 6) == Ok([Piece(0, 0, 2), Piece(1, 0, 4)])
    ensures PlanLength([Piece(0, 0, 2), Piece(1, 0, 2)]) == 4 < ClampedLength(Metadata([2, 4], 0), 0, 6)
  {
    var m := Metadata([2, 4], 0);
    assert m.batchLengths[..0] == [];
    assert LocateChunk(m.batchLengths, 0) == Ok((0, 0));
    assert Sum([2, 4]) == 6;
    assert ClampedLength(m, 0, 6) == 6;
    assert PlanAsWritten([2, 4], 0, 2, 0, 2) == [];
    assert PlanAsWritten([2, 4], 0, 1, 0, 4) == [Piece(1, 0, 2)];
    assert PlanAsWritten([2, 4], 0, 0, 0, 6) == [Piece(0, 0, 2), Piece(1, 0, 2)];
    assert Plan([2, 4], 2, 0, 0) == [];
    assert Plan([2, 4], 1, 0, 4) == [Piece(1, 0, 4)];
    assert Plan([2, 4], 0, 0, 6) == [Piece(0, 0, 2), Piece(1, 0, 4)];
  }
}
