/** The referential-integrity check `ric_align_generic`
    (tools/vdb-validate/vdb-validate.c:1013-1136).

    Table A (the "many" side) holds one foreign key per row; table B (the
    "one" side) holds, at the row named by a key, the list of A rows that
    should carry that key. The check reads A in chunks of at most `pairs`
    found rows, sorts each chunk by (key, origin row), and compares every run
    of equal keys (a span) with the B cell at row = key.

    The functions below define the verdict the loops compute; the method
    `RicAlignGeneric` runs the loops over the two buffers and is proved to
    return exactly that verdict. */
module RefIntegrity {
  import opened RcCodes
  import opened Sorting
  import opened Ids

  /** What `VCursorCellDataDirect` yields for one row: the cell's 64-bit
      elements, or a failure code (row-not-found among them). */
  datatype CellRead = Found(elems: seq<int>) | ReadFailed(err: Error)

  /** A cursor bound to one column: the outcome of reading each row. */
  type Column = int -> CellRead

  /** The origin rows of a run of pairs. */
  function Origins(s: seq<IdPair>): (r: seq<int>)
    ensures |r| == |s|
    ensures forall k :: 0 <= k < |s| ==> r[k] == s[k].second
  {
    if s == [] then [] else [s[0].second] + Origins(s[1..])
  }

  // ----- extraction phase (lines 1031-1048) -----

  /** Continues filling a chunk at relative row `i` with `acc` collected so
      far: stops once `pairs` rows were found or the range ends; skips
      row-not-found; fails on any other read error and on a key cell that
      does not hold exactly one element. */
  function ExtractFrom(a: Column, startId: int, count: nat, pairs: nat, i: nat, acc: seq<IdPair>)
    : Result<seq<IdPair>>
    decreases count - i
  {
    if |acc| >= pairs || i >= count then Success(acc)
    else
      match a(startId + i)
      case Found(e) =>
        if |e| != 1 then Failure(Unexpected)
        else ExtractFrom(a, startId, count, pairs, i + 1, acc + [IdPair(e[0], startId + i)])
      case ReadFailed(err) =>
        if RowNotFound(err) then ExtractFrom(a, startId, count, pairs, i + 1, acc)
        else Failure(err)
  }

  /** The pairs of the chunk that starts at relative row `current`. */
  function ExtractChunk(a: Column, startId: int, count: nat, pairs: nat, current: nat)
    : Result<seq<IdPair>>
  {
    ExtractFrom(a, startId, count, pairs, current, [])
  }

  // ----- comparison phase (lines 1050-1133) -----

  /** The merge loop over `k1` (span) and `k2` (cell) of lines 1086-1101: walks
      the cell past smaller ids and fails on the first span origin it
      overtakes; passes when every origin was matched. */
  function MergeFound(origins: seq<int>, id: seq<int>, k1: nat, k2: nat): bool
    requires k1 <= |origins| && k2 <= |id|
    decreases |origins| - k1 + |id| - k2
  {
    if k1 < |origins| && k2 < |id| then
      if id[k2] == origins[k1] then MergeFound(origins, id, k1 + 1, k2 + 1)
      else if id[k2] < origins[k1] then MergeFound(origins, id, k1, k2 + 1)
      else false
    else k1 == |origins|
  }

  /** The nested scan of lines 1108-1121 for cells of at most four ids.
      `found` is set when an origin is in the cell and is never cleared, so it
      carries over from one origin to the next. */
  function ScanFound(origins: seq<int>, ids: seq<int>, k1: nat, found: bool): bool
    requires k1 <= |origins|
    decreases |origins| - k1
  {
    if k1 == |origins| then found
    else
      var f := found || origins[k1] in ids;
      if !f then false else ScanFound(origins, ids, k1 + 1, f)
  }

  /** The cell as the large-cell branch sees it after lines 1068-1069: copied
      to scratch, with only its first `span` ids sorted. */
  function PartlySorted(ids: seq<int>, span: nat): seq<int>
    requires span <= |ids|
  {
    Sort(ids[..span], IdCmp) + ids[span..]
  }

  /** Whether the cell `ids` accepts the span's (sorted) `origins`. */
  function CellMatches(ids: seq<int>, origins: seq<int>): bool
    requires 1 <= |origins| <= |ids|
  {
    if |ids| > 4 then
      var id := PartlySorted(ids, |origins|);
      if |ids| == |origins| then id == origins
      else MergeFound(origins, id, 0, 0)
    else ScanFound(origins, ids, 0, false)
  }

  /** The verdict for one span against the B cell at row = key: 0, TooBig,
      Inconsistent, or B's own read error. */
  function CheckSpan(cell: CellRead, origins: seq<int>, pairs: nat): Rc
    requires |origins| >= 1
  {
    match cell
    case ReadFailed(err) =>
      if RowNotFound(err) then Fail(Inconsistent) else Fail(err)
    case Found(ids) =>
      if |ids| > pairs then Fail(TooBig)
      else if |ids| >= |origins| && CellMatches(ids, origins) then Ok
      else Fail(Inconsistent)
  }

  /** Checks the spans of a sorted chunk from index `i` on; stops at the first
      span that does not pass. */
  function CheckSpans(b: Column, sorted: seq<IdPair>, pairs: nat, i: nat): Rc
    requires i <= |sorted|
    decreases |sorted| - i
  {
    if i == |sorted| then Ok
    else
      var span := Span(sorted, i);
      var r := CheckSpan(b(sorted[i].first), Origins(sorted[i..i + span]), pairs);
      if r != Ok then r else CheckSpans(b, sorted, pairs, i + span)
  }

  /** A span that fails decides the chunk. */
  lemma CheckSpansStops(b: Column, sorted: seq<IdPair>, pairs: nat, i: nat, span: nat, r: Rc)
    requires i < |sorted| && span == Span(sorted, i)
    requires r == CheckSpan(b(sorted[i].first), Origins(sorted[i..i + span]), pairs) && r != Ok
    ensures CheckSpans(b, sorted, pairs, i) == r
  {
  }

  /** A span that passes hands over to the next span. */
  lemma CheckSpansContinues(b: Column, sorted: seq<IdPair>, pairs: nat, i: nat, span: nat, next: nat)
    requires i < |sorted| && span == Span(sorted, i) && next == i + span
    requires CheckSpan(b(sorted[i].first), Origins(sorted[i..i + span]), pairs) == Ok
    ensures CheckSpans(b, sorted, pairs, i) == CheckSpans(b, sorted, pairs, next)
  {
  }

  /** The verdict of the chunks from relative row `current` on. */
  function RicFrom(a: Column, b: Column, startId: int, count: nat, pairs: nat, current: nat): Rc
    requires count > 0 ==> pairs > 0
    decreases if current < count then count - current else 0
  {
    if current >= count then Ok
    else
      match ExtractChunk(a, startId, count, pairs, current)
      case Failure(err) => Fail(err)
      case Success(chunk) =>
        var r := CheckSpans(b, Sort(chunk, IdPairCmp), pairs, 0);
        if r != Ok then r else RicFrom(a, b, startId, count, pairs, current + pairs)
  }

  /** A chunk whose spans fail decides the check. */
  lemma RicFromStops(a: Column, b: Column, startId: int, count: nat, pairs: nat, current: nat,
                     chunk: seq<IdPair>, r: Rc)
    requires count > 0 ==> pairs > 0
    requires current < count
    requires ExtractChunk(a, startId, count, pairs, current) == Success(chunk)
    requires r == CheckSpans(b, Sort(chunk, IdPairCmp), pairs, 0) && r != Ok
    ensures RicFrom(a, b, startId, count, pairs, current) == r
  {
  }

  /** A chunk whose spans all pass hands over to the next chunk. */
  lemma RicFromContinues(a: Column, b: Column, startId: int, count: nat, pairs: nat, current: nat,
                         next: nat, chunk: seq<IdPair>)
    requires count > 0 ==> pairs > 0
    requires current < count && next == current + pairs
    requires ExtractChunk(a, startId, count, pairs, current) == Success(chunk)
    requires CheckSpans(b, Sort(chunk, IdPairCmp), pairs, 0) == Ok
    ensures RicFrom(a, b, startId, count, pairs, current) == RicFrom(a, b, startId, count, pairs, next)
  {
  }

  /** The verdict of `ric_align_generic(startId, count, pairs, ...)`. */
  function Ric(a: Column, b: Column, startId: int, count: nat, pairs: nat): Rc
    requires count > 0 ==> pairs > 0
  {
    RicFrom(a, b, startId, count, pairs, 0)
  }

  // ----- the loops -----

  /** Lines 1071-1081: a cell with as many ids as the span passes when its
      sorted ids equal the span's origins one by one. */
  method MatchExact(id: array<int>, pair: array<IdPair>, i: nat, span: nat, ghost run: seq<IdPair>)
    returns (found: bool)
    requires i + span <= pair.Length && span <= id.Length
    requires |run| == span && forall k :: 0 <= k < span ==> pair[i + k] == run[k]
    ensures found <==> id[..span] == Origins(run)
  {
    found := true;
    var k := 0;
    while k < span
      invariant k <= span
      invariant forall m :: 0 <= m < k ==> id[m] == pair[i + m].second
    {
      if id[k] != pair[i + k].second {
        found := false;
        assert id[..span][k] != Origins(run)[k];
        break;
      }
      k := k + 1;
    }
    if found {
      assert id[..span] == Origins(run);
    }
  }

  /** Lines 1083-1101: a cell with more ids than the span passes when the
      merge walk matches every origin. */
  method MergeSubset(id: array<int>, elemCount: nat, pair: array<IdPair>, i: nat, span: nat,
                     ghost run: seq<IdPair>)
    returns (found: bool)
    requires i + span <= pair.Length && elemCount <= id.Length
    requires |run| == span && forall k :: 0 <= k < span ==> pair[i + k] == run[k]
    ensures found == MergeFound(Origins(run), id[..elemCount], 0, 0)
  {
    ghost var origins := Origins(run);
    ghost var cell := id[..elemCount];
    ghost var verdict := MergeFound(origins, cell, 0, 0);
    var k1, k2 := 0, 0;
    found := true;
    while k1 < span && k2 < elemCount
      invariant k1 <= span && k2 <= elemCount
      invariant verdict == MergeFound(origins, cell, k1, k2)
      decreases span - k1 + elemCount - k2
    {
      var id1 := pair[i + k1].second;
      var id2 := id[k2];
      assert id1 == origins[k1] && id2 == cell[k2];
      if id2 == id1 {
        k1 := k1 + 1;
        k2 := k2 + 1;
      } else if id2 < id1 {
        k2 := k2 + 1;
      } else {
        found := false;
        break;
      }
    }
    if found {
      found := k1 == span;
    }
  }

  /** Lines 1104-1121: the nested scan for cells of at most four ids, with
      `found` starting false and never reset. */
  method SmallScan(ids: seq<int>, pair: array<IdPair>, i: nat, span: nat, ghost run: seq<IdPair>)
    returns (found: bool)
    requires i + span <= pair.Length
    requires |run| == span && forall k :: 0 <= k < span ==> pair[i + k] == run[k]
    ensures found == ScanFound(Origins(run), ids, 0, false)
  {
    ghost var origins := Origins(run);
    ghost var verdict := ScanFound(origins, ids, 0, false);
    found := false;
    var k1 := 0;
    while k1 < span
      invariant k1 <= span
      invariant verdict == ScanFound(origins, ids, k1, found)
    {
      var id1 := pair[i + k1].second;
      assert id1 == origins[k1];
      ghost var before := found;
      var k2 := 0;
      while k2 < |ids|
        invariant k2 <= |ids|
        invariant found == (before || id1 in ids[..k2])
      {
        if id1 == ids[k2] {
          found := true;
          break;
        }
        assert ids[..k2 + 1] == ids[..k2] + [ids[k2]];
        k2 := k2 + 1;
      }
      assert ids[..|ids|] == ids;
      assert found == (before || id1 in ids);
      if !found {
        break;
      }
      k1 := k1 + 1;
    }
  }

  /** Lines 1031-1048: reads rows from relative row `current` into `pair`
      until `pairs` rows were found or the range ends. */
  method FillChunk(a: Column, startId: int, count: nat, pairs: nat, current: nat,
                   pair: array<IdPair>) returns (j: nat, rc: Rc)
    requires pairs <= pair.Length
    modifies pair
    ensures j <= pairs
    ensures rc == Ok ==> ExtractChunk(a, startId, count, pairs, current) == Success(pair[..j])
    ensures rc != Ok ==> ExtractChunk(a, startId, count, pairs, current) == Failure(rc.err)
  {
    ghost var chunk := ExtractChunk(a, startId, count, pairs, current);
    var i := current;
    j := 0;
    while j < pairs && i < count
      invariant current <= i && j <= pairs
      invariant chunk == ExtractFrom(a, startId, count, pairs, i, pair[..j])
      decreases count - i
    {
      var row := startId + i;
      match a(row) {
        case Found(e) =>
          if |e| != 1 {
            return j, Fail(Unexpected);
          }
          ghost var filled := pair[..j];
          pair[j] := IdPair(e[0], row);
          assert pair[..j + 1] == filled + [IdPair(e[0], row)];
          j := j + 1;
        case ReadFailed(err) =>
          if !RowNotFound(err) {
            return j, Fail(err);
          }
      }
      i := i + 1;
    }
    rc := Ok;
  }

  /** Lines 1066-1068: copies the cell's ids into scratch. */
  method CopyCell(ids: seq<int>, scratch: array<int>)
    requires |ids| <= scratch.Length
    modifies scratch
    ensures scratch[..|ids|] == ids
  {
    forall k | 0 <= k < |ids| {
      scratch[k] := ids[k];
    }
  }

  /** Lines 1066-1069: copies the cell to scratch and sorts its first `span`
      ids (the sort length is the span's, not the cell's). */
  method CopyAndSort(ids: seq<int>, span: nat, scratch: array<int>)
    requires span <= |ids| <= scratch.Length
    modifies scratch
    ensures scratch[..|ids|] == PartlySorted(ids, span)
  {
    CopyCell(ids, scratch);
    ghost var pre := scratch[..];
    assert pre[..span] == ids[..span] && pre[span..|ids|] == ids[span..];
    KSort(scratch, span, IdCmp);
    assert scratch[..|ids|] == scratch[..span] + scratch[span..][..|ids| - span];
  }

  /** Lines 1064-1103: a cell of more than four ids is compared, after
      `CopyAndSort`, with the span's origins one by one or by the merge walk. */
  method LargeCell(ids: seq<int>, pair: array<IdPair>, i: nat, span: nat, scratch: array<int>,
                   ghost run: seq<IdPair>)
    returns (found: bool)
    requires 4 < |ids| <= scratch.Length
    requires 1 <= span <= |ids| && i + span <= pair.Length
    requires |run| == span && forall k :: 0 <= k < span ==> pair[i + k] == run[k]
    modifies scratch
    ensures found == CellMatches(ids, Origins(run))
  {
    CopyAndSort(ids, span, scratch);
    if |ids| == span {
      found := MatchExact(scratch, pair, i, span, run);
      assert scratch[..span] == scratch[..|ids|];
    } else {
      found := MergeSubset(scratch, |ids|, pair, i, span, run);
    }
  }

  /** Lines 1055-1130: compares the span `pair[i..i+span]` with the B cell
      read at row = key. */
  method CompareSpan(cell: CellRead, pair: array<IdPair>, i: nat, span: nat,
                     pairs: nat, scratch: array<int>, ghost run: seq<IdPair>) returns (rc: Rc)
    requires 1 <= span && i + span <= pair.Length && pairs <= scratch.Length
    requires |run| == span && forall k :: 0 <= k < span ==> pair[i + k] == run[k]
    modifies scratch
    ensures rc == CheckSpan(cell, Origins(run), pairs)
  {
    var found := false;
    match cell {
      case Found(ids) =>
        if |ids| > pairs {
          return Fail(TooBig);
        }
        if |ids| >= span {
          if |ids| > 4 {
            found := LargeCell(ids, pair, i, span, scratch, run);
          } else {
            found := SmallScan(ids, pair, i, span, run);
          }
        }
      case ReadFailed(err) =>
        if !RowNotFound(err) {
          return Fail(err);
        }
    }
    if !found {
      return Fail(Inconsistent);
    }
    rc := Ok;
  }

  /** Lines 1050-1133: walks the sorted chunk `pair[..j]` span by span. */
  method CompareChunk(b: Column, pair: array<IdPair>, j: nat, pairs: nat, scratch: array<int>,
                      ghost sorted: seq<IdPair>)
    returns (rc: Rc)
    requires j <= pair.Length && pairs <= scratch.Length
    requires |sorted| == j && forall k :: 0 <= k < j ==> pair[k] == sorted[k]
    modifies scratch
    ensures rc == CheckSpans(b, sorted, pairs, 0)
  {
    ghost var verdict := CheckSpans(b, sorted, pairs, 0);
    var i := 0;
    while i < j
      invariant i <= j
      invariant forall k :: 0 <= k < j ==> pair[k] == sorted[k]
      invariant verdict == CheckSpans(b, sorted, pairs, i)
      decreases j - i
    {
      var row := pair[i].first;
      var span := IdPairSpan(i, j, pair);
      SpanUnique(sorted, i, span);
      rc := CompareSpan(b(row), pair, i, span, pairs, scratch, sorted[i..i + span]);
      if rc != Ok {
        CheckSpansStops(b, sorted, pairs, i, span, rc);
        return;
      }
      var next := i + span;
      CheckSpansContinues(b, sorted, pairs, i, span, next);
      i := next;
    }
    rc := Ok;
  }

  /** `ric_align_generic`: `pair` and `scratch` are the caller's buffers of
      `pairs` entries each; `a` reads the key column of the "many" table and
      `b` the id-list column of the "one" table. */
  method RicAlignGeneric(startId: int, count: nat, pairs: nat,
                         pair: array<IdPair>, scratch: array<int>,
                         a: Column, b: Column) returns (rc: Rc)
    requires count > 0 ==> pairs > 0
    requires pairs <= pair.Length && pairs <= scratch.Length
    modifies pair, scratch
    ensures rc == Ric(a, b, startId, count, pairs)
  {
    ghost var verdict := Ric(a, b, startId, count, pairs);
    var current := 0;
    while current < count
      invariant verdict == RicFrom(a, b, startId, count, pairs, current)
      decreases count - current
    {
      var j;
      j, rc := FillChunk(a, startId, count, pairs, current, pair);
      if rc != Ok {
        return;
      }
      ghost var chunk := pair[..j];
      KSort(pair, j, IdPairCmp);
      assert pair[..j] == Sort(chunk, IdPairCmp);
      rc := CompareChunk(b, pair, j, pairs, scratch, Sort(chunk, IdPairCmp));
      if rc != Ok {
        RicFromStops(a, b, startId, count, pairs, current, chunk, rc);
        return;
      }
      var next := current + pairs;
      RicFromContinues(a, b, startId, count, pairs, current, next, chunk);
      current := next;
    }
    rc := Ok;
  }
}
