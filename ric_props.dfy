/** What the referential-integrity verdict `RefIntegrity.Ric` guarantees
    about the two tables, and where it falls short of a full two-way
    consistency check (tools/vdb-validate/vdb-validate.c:1013-1136). */
module RefIntegrityProps {
  import opened RcCodes
  import opened Sorting
  import opened Ids
  import opened RefIntegrity

  // ----- extraction -----

  /** A chunk only grows: what was collected stays a prefix, and the chunk
      never holds more than `pairs` entries. */
  lemma {:induction false} ExtractKeepsPrefix(a: Column, startId: int, count: nat, pairs: nat,
                                              i: nat, acc: seq<IdPair>, ps: seq<IdPair>)
    requires |acc| <= pairs
    requires ExtractFrom(a, startId, count, pairs, i, acc) == Success(ps)
    ensures |acc| <= |ps| <= pairs && ps[..|acc|] == acc
    decreases count - i
  {
    if |acc| < pairs && i < count {
      match a(startId + i)
      case Found(e) =>
        var acc' := acc + [IdPair(e[0], startId + i)];
        ExtractKeepsPrefix(a, startId, count, pairs, i + 1, acc', ps);
        assert ps[..|acc|] == ps[..|acc'|][..|acc|];
      case ReadFailed(err) =>
        ExtractKeepsPrefix(a, startId, count, pairs, i + 1, acc, ps);
    }
  }

  /** Every pair added from relative row `i` on comes from a row in range
      whose key cell holds exactly that one key, and the origins increase in
      row order. */
  lemma {:induction false} ExtractedPairsAreRows(a: Column, startId: int, count: nat, pairs: nat,
                                                 i: nat, acc: seq<IdPair>, ps: seq<IdPair>)
    requires |acc| <= pairs
    requires forall k :: 0 <= k < |acc| ==> acc[k].second < startId + i
    requires ExtractFrom(a, startId, count, pairs, i, acc) == Success(ps)
    ensures forall k :: |acc| <= k < |ps| ==>
              startId + i <= ps[k].second < startId + count && a(ps[k].second) == Found([ps[k].first])
    ensures forall k, l :: |acc| <= k < l < |ps| ==> ps[k].second < ps[l].second
    decreases count - i
  {
    ExtractKeepsPrefix(a, startId, count, pairs, i, acc, ps);
    if |acc| < pairs && i < count {
      match a(startId + i)
      case Found(e) =>
        var p := IdPair(e[0], startId + i);
        var acc' := acc + [p];
        assert e == [e[0]];
        ExtractedPairsAreRows(a, startId, count, pairs, i + 1, acc', ps);
        ExtractKeepsPrefix(a, startId, count, pairs, i + 1, acc', ps);
        assert ps[|acc|] == acc'[|acc|] == p;
      case ReadFailed(err) =>
        ExtractedPairsAreRows(a, startId, count, pairs, i + 1, acc, ps);
    }
  }

  /** Skipping only row-not-found: while the chunk is not full, every row
      from relative row `i` on is read, a successful extraction found it
      holding a single key or missing, and a found row lands in the chunk. */
  lemma {:induction false} ExtractCovers(a: Column, startId: int, count: nat, pairs: nat,
                                         i: nat, acc: seq<IdPair>, ps: seq<IdPair>, x: nat)
    requires ExtractFrom(a, startId, count, pairs, i, acc) == Success(ps)
    requires i <= x < count && x - i < pairs - |acc|
    ensures GoodKeyRow(a(startId + x))
    ensures a(startId + x).Found? ==> IdPair(a(startId + x).elems[0], startId + x) in ps
    decreases x - i
  {
    match a(startId + i)
    case Found(e) =>
      var acc' := acc + [IdPair(e[0], startId + i)];
      if x == i {
        ExtractKeepsPrefix(a, startId, count, pairs, i + 1, acc', ps);
        assert ps[|acc|] == acc'[|acc|];
      } else {
        ExtractCovers(a, startId, count, pairs, i + 1, acc', ps, x);
      }
    case ReadFailed(err) =>
      if x > i {
        ExtractCovers(a, startId, count, pairs, i + 1, acc, ps, x);
      }
  }

  /** An extraction failure is the read error of some row in range (never
      row-not-found), or `Unexpected` for a key cell that does not hold
      exactly one element. */
  lemma {:induction false} ExtractFailureHasCause(a: Column, startId: int, count: nat, pairs: nat,
                                                  i: nat, acc: seq<IdPair>, e: Error)
    requires ExtractFrom(a, startId, count, pairs, i, acc) == Failure(e)
    ensures exists row :: startId + i <= row < startId + count && BadKeyRow(a(row), e)
    decreases count - i
  {
    match a(startId + i)
    case Found(es) =>
      if |es| == 1 {
        ExtractFailureHasCause(a, startId, count, pairs, i + 1, acc + [IdPair(es[0], startId + i)], e);
        var row :| startId + i + 1 <= row < startId + count && BadKeyRow(a(row), e);
      } else {
        assert BadKeyRow(a(startId + i), e);
      }
    case ReadFailed(err) =>
      if RowNotFound(err) {
        ExtractFailureHasCause(a, startId, count, pairs, i + 1, acc, e);
        var row :| startId + i + 1 <= row < startId + count && BadKeyRow(a(row), e);
      } else {
        assert BadKeyRow(a(startId + i), e);
      }
  }

  /** A key-side read that aborts the check with `e`. */
  predicate BadKeyRow(r: CellRead, e: Error) {
    || (r.ReadFailed? && r.err == e && !RowNotFound(e))
    || (r.Found? && |r.elems| != 1 && e == Unexpected)
  }

  // ----- one span -----

  /** Each origin the merge walk passes over is in the rest of the cell. */
  lemma {:induction false} MergeFoundSound(origins: seq<int>, id: seq<int>, k1: nat, k2: nat)
    requires k1 <= |origins| && k2 <= |id|
    requires MergeFound(origins, id, k1, k2)
    ensures forall m :: k1 <= m < |origins| ==> origins[m] in id[k2..]
    decreases |origins| - k1 + |id| - k2
  {
    if k1 < |origins| && k2 < |id| {
      if id[k2] == origins[k1] {
        MergeFoundSound(origins, id, k1 + 1, k2 + 1);
        assert id[k2..] == [id[k2]] + id[k2 + 1..];
      } else {
        MergeFoundSound(origins, id, k1, k2 + 1);
        assert id[k2..] == [id[k2]] + id[k2 + 1..];
      }
    }
  }

  /** The merge walk never passes with more origins left than cell ids. */
  lemma {:induction false} MergeFoundFits(origins: seq<int>, id: seq<int>, k1: nat, k2: nat)
    requires k1 <= |origins| && k2 <= |id|
    requires MergeFound(origins, id, k1, k2)
    ensures |origins| - k1 <= |id| - k2
    decreases |origins| - k1 + |id| - k2
  {
    if k1 < |origins| && k2 < |id| {
      if id[k2] == origins[k1] {
        MergeFoundFits(origins, id, k1 + 1, k2 + 1);
      } else {
        MergeFoundFits(origins, id, k1, k2 + 1);
      }
    }
  }

  /** With as many origins left as cell ids, a passing walk matched them one
      by one. */
  lemma {:induction false} MergeFoundTight(origins: seq<int>, id: seq<int>, k1: nat, k2: nat)
    requires k1 <= |origins| && k2 <= |id| && |origins| - k1 == |id| - k2
    requires MergeFound(origins, id, k1, k2)
    ensures origins[k1..] == id[k2..]
    decreases |origins| - k1
  {
    if k1 < |origins| {
      if id[k2] == origins[k1] {
        MergeFoundTight(origins, id, k1 + 1, k2 + 1);
        assert origins[k1..] == [origins[k1]] + origins[k1 + 1..];
        assert id[k2..] == [id[k2]] + id[k2 + 1..];
      } else {
        MergeFoundFits(origins, id, k1, k2 + 1);
        assert false;
      }
    }
  }

  /** Strictly increasing. */
  predicate Increasing(s: seq<int>) {
    forall m, n :: 0 <= m < n < |s| ==> s[m] < s[n]
  }

  /** A value in `id[k..]` other than `id[k]` is in `id[k + 1..]`. */
  lemma InRestPastHead(id: seq<int>, k: nat, x: int)
    requires k < |id| && x in id[k..] && x != id[k]
    ensures x in id[k + 1..]
  {
    assert id[k..] == [id[k]] + id[k + 1..];
  }

  /** On a cell sorted ascending, the merge walk passes whenever every
      (strictly increasing) origin is in the cell. */
  lemma {:induction false} MergeFoundComplete(origins: seq<int>, id: seq<int>, k1: nat, k2: nat)
    requires k1 <= |origins| && k2 <= |id|
    requires Sorted(id, IdCmp) && Increasing(origins)
    requires forall m :: k1 <= m < |origins| ==> origins[m] in id[k2..]
    ensures MergeFound(origins, id, k1, k2)
    decreases |origins| - k1 + |id| - k2
  {
    if k1 < |origins| {
      var x := origins[k1];
      assert x in id[k2..];
      var p :| k2 <= p < |id| && id[p] == x;
      if id[k2] == x {
        forall m | k1 + 1 <= m < |origins| ensures origins[m] in id[k2 + 1..] {
          InRestPastHead(id, k2, origins[m]);
        }
        MergeFoundComplete(origins, id, k1 + 1, k2 + 1);
      } else if id[k2] < x {
        forall m | k1 <= m < |origins| ensures origins[m] in id[k2 + 1..] {
          InRestPastHead(id, k2, origins[m]);
        }
        MergeFoundComplete(origins, id, k1, k2 + 1);
      } else {
        assert false;
      }
    }
  }

  /** Once `found` is set it stays set. */
  lemma {:induction false} ScanFoundLatches(origins: seq<int>, ids: seq<int>, k1: nat)
    requires k1 <= |origins|
    ensures ScanFound(origins, ids, k1, true)
    decreases |origins| - k1
  {
    if k1 < |origins| {
      ScanFoundLatches(origins, ids, k1 + 1);
    }
  }

  /** The small-cell scan decides on the span's first origin alone. */
  lemma ScanFoundIsFirstOrigin(origins: seq<int>, ids: seq<int>)
    requires |origins| >= 1
    ensures ScanFound(origins, ids, 0, false) <==> origins[0] in ids
  {
    if origins[0] in ids {
      ScanFoundLatches(origins, ids, 1);
    }
  }

  /** Sorting part of a cell keeps its ids. */
  lemma PartlySortedPermutes(ids: seq<int>, span: nat)
    requires span <= |ids|
    ensures multiset(PartlySorted(ids, span)) == multiset(ids)
  {
    SortPermutes(ids[..span], IdCmp);
    assert ids == ids[..span] + ids[span..];
  }

  /** A cell already sorted ascending is left as it is. */
  lemma PartlySortedOfSorted(ids: seq<int>, span: nat)
    requires span <= |ids| && Sorted(ids, IdCmp)
    ensures PartlySorted(ids, span) == ids
  {
    ComparatorsAreTotalOrders();
    SortIsUnique(ids[..span], ids[..span], IdCmp);
    assert ids == ids[..span] + ids[span..];
  }

  /** A passing span names a B cell that exists and fits the chunk, holds at
      least as many ids as the span, lists the first origin, and, when it
      holds more than four ids, lists every origin. */
  lemma CheckSpanSound(cell: CellRead, origins: seq<int>, pairs: nat)
    requires |origins| >= 1
    requires CheckSpan(cell, origins, pairs) == Ok
    ensures cell.Found? && |origins| <= |cell.elems| <= pairs
    ensures origins[0] in cell.elems
    ensures |cell.elems| > 4 ==> forall m :: 0 <= m < |origins| ==> origins[m] in cell.elems
  {
    var ids := cell.elems;
    if |ids| > 4 {
      var id := PartlySorted(ids, |origins|);
      PartlySortedPermutes(ids, |origins|);
      if |ids| != |origins| {
        MergeFoundSound(origins, id, 0, 0);
        assert id[0..] == id;
      }
      forall m | 0 <= m < |origins| ensures origins[m] in ids {
        assert origins[m] in multiset(id);
      }
    } else {
      ScanFoundIsFirstOrigin(origins, ids);
    }
  }

  /** The failing verdicts of one span: a missing B row is `Inconsistent`, any
      other B read error is returned as it is, a cell with more ids than a
      chunk holds is `TooBig`, and a cell with fewer ids than the span is
      `Inconsistent`. */
  lemma CheckSpanFailures(cell: CellRead, origins: seq<int>, pairs: nat)
    requires |origins| >= 1
    ensures cell.ReadFailed? && RowNotFound(cell.err) ==> CheckSpan(cell, origins, pairs) == Fail(Inconsistent)
    ensures cell.ReadFailed? && !RowNotFound(cell.err) ==> CheckSpan(cell, origins, pairs) == Fail(cell.err)
    ensures cell.Found? && |cell.elems| > pairs ==> CheckSpan(cell, origins, pairs) == Fail(TooBig)
    ensures cell.Found? && |cell.elems| <= pairs && |cell.elems| < |origins| ==>
              CheckSpan(cell, origins, pairs) == Fail(Inconsistent)
  {
  }

  /** A cell of exactly as many (more than four) ids as the span passes iff it
      holds the span's origins, in any order. */
  lemma ExactCellVerdict(ids: seq<int>, origins: seq<int>, pairs: nat)
    requires 4 < |ids| == |origins| <= pairs
    requires Sorted(origins, IdCmp)
    ensures CheckSpan(Found(ids), origins, pairs) == Ok <==> multiset(ids) == multiset(origins)
  {
    assert ids[..|origins|] == ids && ids[|origins|..] == [];
    assert PartlySorted(ids, |origins|) == Sort(ids, IdCmp);
    SortPermutes(ids, IdCmp);
    if multiset(ids) == multiset(origins) {
      ComparatorsAreTotalOrders();
      SortIsUnique(ids, origins, IdCmp);
    }
  }

  /** Against a cell stored in ascending order, a span of strictly increasing
      origins passes iff the cell fits the chunk and lists every origin, when
      the cell holds more than four ids. */
  lemma SortedLargeCellVerdict(ids: seq<int>, origins: seq<int>, pairs: nat)
    requires |origins| >= 1 && 4 < |ids| <= pairs
    requires Sorted(ids, IdCmp) && Increasing(origins)
    ensures CheckSpan(Found(ids), origins, pairs) == Ok <==>
              forall m :: 0 <= m < |origins| ==> origins[m] in ids
  {
    if forall m :: 0 <= m < |origins| ==> origins[m] in ids {
      assert ids[0..] == ids;
      MergeFoundComplete(origins, ids, 0, 0);
      MergeFoundFits(origins, ids, 0, 0);
      PartlySortedOfSorted(ids, |origins|);
      if |ids| == |origins| {
        MergeFoundTight(origins, ids, 0, 0);
        assert origins[0..] == origins;
      }
    } else if CheckSpan(Found(ids), origins, pairs) == Ok {
      CheckSpanSound(Found(ids), origins, pairs);
    }
  }

  /** A cell of at most four ids passes iff it fits, holds at least as many
      ids as the span, and lists the span's first origin. */
  lemma SmallCellVerdict(ids: seq<int>, origins: seq<int>, pairs: nat)
    requires 1 <= |origins| && |ids| <= 4
    ensures CheckSpan(Found(ids), origins, pairs) == Ok <==>
              |origins| <= |ids| <= pairs && origins[0] in ids
  {
    ScanFoundIsFirstOrigin(origins, ids);
  }

  /** Against a cell stored in ascending order that fits the chunk, a span of
      strictly increasing origins all listed in the cell passes, whatever the
      cell's size. */
  lemma SortedCellAccepts(ids: seq<int>, origins: seq<int>, pairs: nat)
    requires |origins| >= 1 && |ids| <= pairs
    requires Sorted(ids, IdCmp) && Increasing(origins)
    requires forall m :: 0 <= m < |origins| ==> origins[m] in ids
    ensures CheckSpan(Found(ids), origins, pairs) == Ok
  {
    assert ids[0..] == ids;
    MergeFoundComplete(origins, ids, 0, 0);
    MergeFoundFits(origins, ids, 0, 0);
    if |ids| > 4 {
      SortedLargeCellVerdict(ids, origins, pairs);
    } else {
      SmallCellVerdict(ids, origins, pairs);
    }
  }

  // ----- the whole check -----

  /** A found A row at `row` with key `key` is backed by B: the B cell at
      row = key exists and fits a chunk, and, when it holds more than four
      ids, it lists `row`. */
  predicate Backed(b: Column, pairs: nat, key: int, row: int) {
    && b(key).Found?
    && |b(key).elems| <= pairs
    && (|b(key).elems| > 4 ==> row in b(key).elems)
  }

  /** Every pair of a chunk whose spans all pass is backed. */
  lemma {:induction false} CheckSpansSound(b: Column, sorted: seq<IdPair>, pairs: nat, i: nat, k: nat)
    requires i <= k < |sorted|
    requires CheckSpans(b, sorted, pairs, i) == Ok
    ensures Backed(b, pairs, sorted[k].first, sorted[k].second)
    decreases |sorted| - i
  {
    var span := Span(sorted, i);
    var run := sorted[i..i + span];
    SpanIsRun(sorted, i);
    assert CheckSpan(b(sorted[i].first), Origins(run), pairs) == Ok;
    if k < i + span {
      assert run[k - i] == sorted[k];
      CheckSpanSound(b(sorted[i].first), Origins(run), pairs);
    } else {
      CheckSpansSound(b, sorted, pairs, i + span, k);
    }
  }

  /** A chunk that is part of a passing check was read without error and
      all its spans pass. */
  lemma RicFromPasses(a: Column, b: Column, startId: int, count: nat, pairs: nat, current: nat)
    requires count > 0 ==> pairs > 0
    requires current < count && RicFrom(a, b, startId, count, pairs, current) == Ok
    ensures ExtractChunk(a, startId, count, pairs, current).Success?
    ensures CheckSpans(b, Sort(ExtractChunk(a, startId, count, pairs, current).value, IdPairCmp), pairs, 0) == Ok
    ensures RicFrom(a, b, startId, count, pairs, current + pairs) == Ok
  {
  }

  /** A found row among the first `pairs` rows of a passing chunk is backed. */
  lemma ChunkRowBacked(a: Column, b: Column, startId: int, count: nat, pairs: nat, current: nat,
                       chunk: seq<IdPair>, x: nat)
    requires ExtractChunk(a, startId, count, pairs, current) == Success(chunk)
    requires CheckSpans(b, Sort(chunk, IdPairCmp), pairs, 0) == Ok
    requires current <= x < count && x < current + pairs && a(startId + x).Found?
    ensures |a(startId + x).elems| == 1
    ensures Backed(b, pairs, a(startId + x).elems[0], startId + x)
  {
    var sorted := Sort(chunk, IdPairCmp);
    ExtractCovers(a, startId, count, pairs, current, [], chunk, x);
    var p := IdPair(a(startId + x).elems[0], startId + x);
    SortPermutes(chunk, IdPairCmp);
    assert p in multiset(sorted);
    var k :| 0 <= k < |sorted| && sorted[k] == p;
    CheckSpansSound(b, sorted, pairs, 0, k);
  }

  /** The chunks from relative row `current` on pass only if every A row
      from there on was read cleanly (one key, or row-not-found) and every
      found one holds a key that B backs. */
  lemma {:induction false} RicFromSound(a: Column, b: Column, startId: int, count: nat, pairs: nat,
                                        current: nat, x: nat)
    requires count > 0 ==> pairs > 0
    requires RicFrom(a, b, startId, count, pairs, current) == Ok
    requires current <= x < count
    ensures GoodKeyRow(a(startId + x))
    ensures a(startId + x).Found? ==> Backed(b, pairs, a(startId + x).elems[0], startId + x)
    decreases count - current
  {
    RicFromPasses(a, b, startId, count, pairs, current);
    if x < current + pairs {
      var chunk := ExtractChunk(a, startId, count, pairs, current).value;
      ExtractCovers(a, startId, count, pairs, current, [], chunk, x);
      if a(startId + x).Found? {
        ChunkRowBacked(a, b, startId, count, pairs, current, chunk, x);
      }
    } else {
      RicFromSound(a, b, startId, count, pairs, current + pairs, x);
    }
  }

  /** Soundness of the check in the direction it covers: when it returns 0,
      every row of A in `startId .. startId + count - 1` was read cleanly
      (a row that fails with any error other than row-not-found, or holds
      other than one key, fails the check), and for every found row the B
      row at its key exists and fits a chunk, and a B cell of more than four
      ids lists the A row. */
  lemma RicSound(a: Column, b: Column, startId: int, count: nat, pairs: nat, row: int)
    requires count > 0 ==> pairs > 0
    requires Ric(a, b, startId, count, pairs) == Ok
    requires startId <= row < startId + count
    ensures GoodKeyRow(a(row))
    ensures a(row).Found? ==> Backed(b, pairs, a(row).elems[0], row)
  {
    RicFromSound(a, b, startId, count, pairs, 0, row - startId);
  }

  /** A B-side read that aborts the check with `e`. */
  predicate BadIdCell(r: CellRead, e: Error) {
    r.ReadFailed? && r.err == e && !RowNotFound(e)
  }

  /** A failing chunk fails with `Inconsistent`, `TooBig` or a B read error. */
  lemma {:induction false} CheckSpansFailureHasCause(b: Column, sorted: seq<IdPair>, pairs: nat, i: nat, e: Error)
    requires i <= |sorted|
    requires CheckSpans(b, sorted, pairs, i) == Fail(e)
    ensures e == Inconsistent || e == TooBig || exists key :: BadIdCell(b(key), e)
    decreases |sorted| - i
  {
    var span := Span(sorted, i);
    if CheckSpan(b(sorted[i].first), Origins(sorted[i..i + span]), pairs) == Ok {
      CheckSpansFailureHasCause(b, sorted, pairs, i + span, e);
    } else if b(sorted[i].first).ReadFailed? && !RowNotFound(b(sorted[i].first).err) {
      assert BadIdCell(b(sorted[i].first), e);
    }
  }

  /** Every failure of the check has a cause: a key cell of A in range that
      cannot be read (other than row-not-found) or holds other than one key
      (`Unexpected`), a B cell that cannot be read, a B cell too large for a
      chunk (`TooBig`), or a span B does not back (`Inconsistent`). */
  lemma {:induction false} RicFromFailureHasCause(a: Column, b: Column, startId: int, count: nat, pairs: nat,
                                                  current: nat, e: Error)
    requires count > 0 ==> pairs > 0
    requires RicFrom(a, b, startId, count, pairs, current) == Fail(e)
    ensures || e == Inconsistent || e == TooBig
            || (exists row :: startId <= row < startId + count && BadKeyRow(a(row), e))
            || (exists key :: BadIdCell(b(key), e))
    decreases count - current
  {
    match ExtractChunk(a, startId, count, pairs, current)
    case Failure(err) =>
      ExtractFailureHasCause(a, startId, count, pairs, current, [], e);
      var row :| startId + current <= row < startId + count && BadKeyRow(a(row), e);
    case Success(chunk) =>
      var sorted := Sort(chunk, IdPairCmp);
      if CheckSpans(b, sorted, pairs, 0) == Ok {
        RicFromFailureHasCause(a, b, startId, count, pairs, current + pairs, e);
      } else {
        CheckSpansFailureHasCause(b, sorted, pairs, 0, e);
      }
  }

  lemma RicFailureHasCause(a: Column, b: Column, startId: int, count: nat, pairs: nat, e: Error)
    requires count > 0 ==> pairs > 0
    requires Ric(a, b, startId, count, pairs) == Fail(e)
    ensures || e == Inconsistent || e == TooBig
            || (exists row :: startId <= row < startId + count && BadKeyRow(a(row), e))
            || (exists key :: BadIdCell(b(key), e))
  {
    RicFromFailureHasCause(a, b, startId, count, pairs, 0, e);
  }

  // ----- completeness against sorted B cells -----

  /** No element occurs twice. */
  predicate NoDup<T(==)>(s: seq<T>) {
    forall k, l :: 0 <= k < l < |s| ==> s[k] != s[l]
  }

  lemma {:induction false} NoDupCountsOnce<T>(s: seq<T>, x: T)
    requires NoDup(s)
    ensures multiset(s)[x] <= 1
  {
    if s != [] {
      assert NoDup(s[1..]) by {
        forall k, l | 0 <= k < l < |s| - 1 ensures s[1..][k] != s[1..][l] {
          assert s[1..][k] == s[k + 1] && s[1..][l] == s[l + 1];
        }
      }
      NoDupCountsOnce(s[1..], x);
      assert s == [s[0]] + s[1..];
      if x == s[0] {
        assert x !in s[1..];
      }
    }
  }

  lemma RepeatCountsTwice<T>(t: seq<T>, k: nat, l: nat)
    requires k < l < |t| && t[k] == t[l]
    ensures multiset(t)[t[k]] >= 2
  {
    assert t == t[..l] + t[l..];
    assert t[k] == t[..l][k];
    assert t[l..] == [t[l]] + t[l + 1..];
  }

  /** A permutation of a sequence without repeats has none either. */
  lemma NoDupPreserved<T>(s: seq<T>, t: seq<T>)
    requires NoDup(s) && multiset(s) == multiset(t)
    ensures NoDup(t)
  {
    forall k, l | 0 <= k < l < |t| ensures t[k] != t[l] {
      if t[k] == t[l] {
        RepeatCountsTwice(t, k, l);
        NoDupCountsOnce(s, t[k]);
      }
    }
  }

  /** In a sorted chunk of distinct pairs, a span's origins increase strictly. */
  lemma SpanOriginsIncrease(sorted: seq<IdPair>, i: nat)
    requires i < |sorted| && Sorted(sorted, IdPairCmp) && NoDup(sorted)
    ensures Increasing(Origins(sorted[i..i + Span(sorted, i)]))
  {
    var span := Span(sorted, i);
    SpanIsRun(sorted, i);
    var origins := Origins(sorted[i..i + span]);
    forall m, n | 0 <= m < n < |origins| ensures origins[m] < origins[n] {
      assert origins[m] == sorted[i + m].second && origins[n] == sorted[i + n].second;
      assert IdPairCmp(sorted[i + m], sorted[i + n]) <= 0;
    }
  }

  /** A key-side read the check accepts: one key, or a sparse row. */
  predicate GoodKeyRow(r: CellRead) {
    || (r.Found? && |r.elems| == 1)
    || (r.ReadFailed? && RowNotFound(r.err))
  }

  /** Reading succeeds when every row ahead holds one key or is sparse. */
  lemma {:induction false} ExtractSucceeds(a: Column, startId: int, count: nat, pairs: nat,
                                           i: nat, acc: seq<IdPair>)
    requires forall row :: startId + i <= row < startId + count ==> GoodKeyRow(a(row))
    ensures ExtractFrom(a, startId, count, pairs, i, acc).Success?
    decreases count - i
  {
    if |acc| < pairs && i < count {
      assert GoodKeyRow(a(startId + i));
      match a(startId + i)
      case Found(e) =>
        ExtractSucceeds(a, startId, count, pairs, i + 1, acc + [IdPair(e[0], startId + i)]);
      case ReadFailed(err) =>
        ExtractSucceeds(a, startId, count, pairs, i + 1, acc);
    }
  }

  /** The B cell at row = `key` exists, fits a chunk, is stored in ascending
      order and lists `row`. */
  predicate ListedInSortedCell(b: Column, pairs: nat, key: int, row: int) {
    && b(key).Found?
    && |b(key).elems| <= pairs
    && Sorted(b(key).elems, IdCmp)
    && row in b(key).elems
  }

  /** When each pair is listed in the B cell at its key, the cell at a span's
      key lists all the span's origins. */
  lemma SpanOriginsListed(b: Column, sorted: seq<IdPair>, pairs: nat, i: nat, span: nat, origins: seq<int>)
    requires i < |sorted| && span == Span(sorted, i) && origins == Origins(sorted[i..i + span])
    requires forall k :: i <= k < |sorted| ==> ListedInSortedCell(b, pairs, sorted[k].first, sorted[k].second)
    ensures b(sorted[i].first).Found?
    ensures forall m :: 0 <= m < |origins| ==> origins[m] in b(sorted[i].first).elems
  {
    SpanIsRun(sorted, i);
    assert ListedInSortedCell(b, pairs, sorted[i].first, sorted[i].second);
    forall m | 0 <= m < span ensures origins[m] in b(sorted[i].first).elems {
      assert origins[m] == sorted[i + m].second;
      assert ListedInSortedCell(b, pairs, sorted[i + m].first, sorted[i + m].second);
    }
  }

  /** A span of distinct pairs each listed in its sorted B cell passes. */
  lemma SpanComplete(b: Column, sorted: seq<IdPair>, pairs: nat, i: nat, span: nat)
    requires i < |sorted| && span == Span(sorted, i) && Sorted(sorted, IdPairCmp) && NoDup(sorted)
    requires forall k :: i <= k < |sorted| ==> ListedInSortedCell(b, pairs, sorted[k].first, sorted[k].second)
    ensures CheckSpan(b(sorted[i].first), Origins(sorted[i..i + span]), pairs) == Ok
  {
    var origins := Origins(sorted[i..i + span]);
    SpanOriginsListed(b, sorted, pairs, i, span, origins);
    SpanOriginsIncrease(sorted, i);
    assert ListedInSortedCell(b, pairs, sorted[i].first, sorted[i].second);
    SortedCellAccepts(b(sorted[i].first).elems, origins, pairs);
  }

  /** A sorted chunk of distinct pairs each listed in its sorted B cell passes. */
  lemma {:induction false} CheckSpansComplete(b: Column, sorted: seq<IdPair>, pairs: nat, i: nat)
    requires i <= |sorted| && Sorted(sorted, IdPairCmp) && NoDup(sorted)
    requires forall k :: i <= k < |sorted| ==> ListedInSortedCell(b, pairs, sorted[k].first, sorted[k].second)
    ensures CheckSpans(b, sorted, pairs, i) == Ok
    decreases |sorted| - i
  {
    if i < |sorted| {
      var span := Span(sorted, i);
      var next := i + span;
      SpanComplete(b, sorted, pairs, i, span);
      CheckSpansComplete(b, sorted, pairs, next);
      CheckSpansContinues(b, sorted, pairs, i, span, next);
    }
  }

  /** A and B agree in the checked direction: every row of A in range holds
      one key or is sparse, and every found row is listed in the sorted B
      cell at its key, which fits a chunk. */
  predicate AgreeOnSortedCells(a: Column, b: Column, startId: int, count: nat, pairs: nat) {
    forall row :: startId <= row < startId + count ==>
      && GoodKeyRow(a(row))
      && (a(row).Found? ==> ListedInSortedCell(b, pairs, a(row).elems[0], row))
  }

  /** A chunk read from agreeing tables passes. */
  lemma ChunkComplete(a: Column, b: Column, startId: int, count: nat, pairs: nat, current: nat,
                      chunk: seq<IdPair>)
    requires AgreeOnSortedCells(a, b, startId, count, pairs)
    requires ExtractChunk(a, startId, count, pairs, current) == Success(chunk)
    ensures CheckSpans(b, Sort(chunk, IdPairCmp), pairs, 0) == Ok
  {
    ExtractedPairsAreRows(a, startId, count, pairs, current, [], chunk);
    assert NoDup(chunk) by {
      forall k, l | 0 <= k < l < |chunk| ensures chunk[k] != chunk[l] {
        assert chunk[k].second < chunk[l].second;
      }
    }
    var sorted := Sort(chunk, IdPairCmp);
    ComparatorsAreTotalOrders();
    SortIsSorted(chunk, IdPairCmp);
    SortPermutes(chunk, IdPairCmp);
    NoDupPreserved(chunk, sorted);
    forall k | 0 <= k < |sorted| ensures ListedInSortedCell(b, pairs, sorted[k].first, sorted[k].second) {
      assert sorted[k] in multiset(chunk);
      var m :| 0 <= m < |chunk| && chunk[m] == sorted[k];
      var row := chunk[m].second;
      assert a(row) == Found([chunk[m].first]);
    }
    CheckSpansComplete(b, sorted, pairs, 0);
  }

  lemma {:induction false} RicFromComplete(a: Column, b: Column, startId: int, count: nat, pairs: nat,
                                           current: nat)
    requires count > 0 ==> pairs > 0
    requires AgreeOnSortedCells(a, b, startId, count, pairs)
    ensures RicFrom(a, b, startId, count, pairs, current) == Ok
    decreases if current < count then count - current else 0
  {
    if current < count {
      ExtractSucceeds(a, startId, count, pairs, current, []);
      var chunk := ExtractChunk(a, startId, count, pairs, current).value;
      ChunkComplete(a, b, startId, count, pairs, current, chunk);
      RicFromComplete(a, b, startId, count, pairs, current + pairs);
      RicFromContinues(a, b, startId, count, pairs, current, current + pairs, chunk);
    }
  }

  /** Completeness of the check when B stores its id lists in ascending
      order: tables that agree in the checked direction pass. */
  lemma RicComplete(a: Column, b: Column, startId: int, count: nat, pairs: nat)
    requires count > 0 ==> pairs > 0
    requires AgreeOnSortedCells(a, b, startId, count, pairs)
    ensures Ric(a, b, startId, count, pairs) == Ok
  {
    RicFromComplete(a, b, startId, count, pairs, 0);
  }
}
