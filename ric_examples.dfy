/** Small tables on which the referential-integrity verdict can be read off,
    including the cases where it departs from a full two-way check. */
module RefIntegrityExamples {
  import opened RcCodes
  import opened Sorting
  import opened Ids
  import opened RefIntegrity
  import opened RefIntegrityProps

  const Missing := Error(RcRow, RcNotFound)

  /** Rows 10 and 11 of A point at B row 5, row 12 at B row 7. */
  function KeysA(row: int): CellRead {
    if row == 10 || row == 11 then Found([5])
    else if row == 12 then Found([7])
    else ReadFailed(Missing)
  }

  /** B row 5 lists A rows 10 and 11, B row 7 lists A row 12. */
  function ListsB(row: int): CellRead {
    if row == 5 then Found([10, 11])
    else if row == 7 then Found([12])
    else ReadFailed(Missing)
  }

  /** Tables that agree pass. */
  lemma AgreeingTablesPass()
    ensures Ric(KeysA, ListsB, 10, 3, 3) == Ok
  {
    assert Sorted([10, 11], IdCmp);
    assert Sorted([12], IdCmp);
    RicComplete(KeysA, ListsB, 10, 3, 3);
  }

  /** The chunk A yields: its three rows in row order, which is already
      (key, origin) order. */
  lemma ChunkOfKeysA()
    ensures ExtractChunk(KeysA, 10, 3, 3, 0) == Success([IdPair(5, 10), IdPair(5, 11), IdPair(7, 12)])
    ensures Sort([IdPair(5, 10), IdPair(5, 11), IdPair(7, 12)], IdPairCmp)
            == [IdPair(5, 10), IdPair(5, 11), IdPair(7, 12)]
  {
    var p := [IdPair(5, 10), IdPair(5, 11), IdPair(7, 12)];
    assert KeysA(10 + 0) == Found([5]) && KeysA(10 + 1) == Found([5]) && KeysA(10 + 2) == Found([7]);
    assert [] + [p[0]] == p[..1] && p[..1] + [p[1]] == p[..2] && p[..2] + [p[2]] == p;
    assert ExtractFrom(KeysA, 10, 3, 3, 2, p[..2]) == ExtractFrom(KeysA, 10, 3, 3, 3, p);
    assert ExtractFrom(KeysA, 10, 3, 3, 1, p[..1]) == ExtractFrom(KeysA, 10, 3, 3, 2, p[..2]);
    assert ExtractFrom(KeysA, 10, 3, 3, 0, []) == ExtractFrom(KeysA, 10, 3, 3, 1, p[..1]);
    ComparatorsAreTotalOrders();
    SortIsUnique(p, p, IdPairCmp);
  }

  /** B row 5 lists only A row 10. */
  function ListsBMissingBackReference(row: int): CellRead {
    if row == 5 then Found([10])
    else ListsB(row)
  }

  /** A B cell that omits a row pointing at it fails the span with
      `Inconsistent`. */
  lemma MissingBackReferenceFails()
    ensures Ric(KeysA, ListsBMissingBackReference, 10, 3, 3) == Fail(Inconsistent)
  {
    var sorted := [IdPair(5, 10), IdPair(5, 11), IdPair(7, 12)];
    ChunkOfKeysA();
    assert Span(sorted, 0) == 2;
    assert Origins(sorted[0..2]) == [10, 11];
    assert CheckSpans(ListsBMissingBackReference, sorted, 3, 0) == Fail(Inconsistent);
  }

  /** Sparse rows from relative row `i` on add nothing to a chunk. */
  lemma {:induction false} ExtractSkipsSparse(a: Column, startId: int, count: nat, pairs: nat,
                                              i: nat, acc: seq<IdPair>)
    requires forall row :: startId + i <= row < startId + count ==> a(row) == ReadFailed(Missing)
    ensures ExtractFrom(a, startId, count, pairs, i, acc) == Success(acc)
    decreases count - i
  {
    if |acc| < pairs && i < count {
      assert a(startId + i) == ReadFailed(Missing);
      ExtractSkipsSparse(a, startId, count, pairs, i + 1, acc);
    }
  }

  /** When the first row of a single-chunk range is the only one found, the
      verdict is that of its one-origin span. */
  lemma SingleRowVerdict(a: Column, b: Column, startId: int, count: nat, key: int)
    requires count >= 1
    requires a(startId) == Found([key])
    requires forall row :: startId < row < startId + count ==> a(row) == ReadFailed(Missing)
    ensures Ric(a, b, startId, count, count) == CheckSpan(b(key), [startId], count)
  {
    var p := IdPair(key, startId);
    assert a(startId + 0) == Found([key]);
    assert [] + [IdPair([key][0], startId + 0)] == [p];
    ExtractSkipsSparse(a, startId, count, count, 1, [p]);
    assert ExtractChunk(a, startId, count, count, 0) == Success([p]);
    assert Sort([p], IdPairCmp) == [p];
    assert Span([p], 0) == 1;
    assert [p][0..1] == [p];
    assert Origins([p]) == [startId];
    var r := CheckSpan(b(key), [startId], count);
    assert CheckSpans(b, [p], count, 0) == r;
    if r == Ok {
      RicFromContinues(a, b, startId, count, count, 0, count, [p]);
    }
  }

  /** Row 20 of A points at B row 99, which does not exist. */
  function DanglingKeyA(row: int): CellRead {
    if row == 20 then Found([99]) else ReadFailed(Missing)
  }

  /** A key naming a missing B row fails with `Inconsistent`. */
  lemma DanglingKeyFails()
    ensures Ric(DanglingKeyA, ListsB, 20, 1, 1) == Fail(Inconsistent)
  {
    SingleRowVerdict(DanglingKeyA, ListsB, 20, 1, 99);
  }

  /** Row 11 of A points at B row 5, whose two ids do not fit a chunk of one. */
  function SingleKeyA(row: int): CellRead {
    if row == 11 then Found([5]) else ReadFailed(Missing)
  }

  /** A B cell with more ids than a chunk holds yields `TooBig`, whether or
      not it lists the row. */
  lemma OversizedCellIsTooBig()
    ensures Ric(SingleKeyA, ListsB, 11, 1, 1) == Fail(TooBig)
  {
    SingleRowVerdict(SingleKeyA, ListsB, 11, 1, 5);
  }

  /** Row 10 of A points at B row 5; row 11 is sparse. */
  function OneRowA(row: int): CellRead {
    if row == 10 then Found([5]) else ReadFailed(Missing)
  }

  /** B row 5 lists A row 10 and also row 99, which no A row backs. */
  function ListsUnbackedB(row: int): CellRead {
    if row == 5 then Found([10, 99]) else ReadFailed(Missing)
  }

  /** The check runs from A to B only: a B cell listing a row that A does not
      have (row 99 is outside A's range) still passes. */
  lemma UnbackedListEntryPasses()
    ensures Ric(OneRowA, ListsUnbackedB, 10, 2, 2) == Ok
    ensures 99 in ListsUnbackedB(5).elems && !(10 <= 99 < 10 + 2)
  {
    SingleRowVerdict(OneRowA, ListsUnbackedB, 10, 2, 5);
    SmallCellVerdict([10, 99], [10], 2);
  }

  /** B row 5 lists A row 10 and row 30, but not row 11, which points at it. */
  function ListsLooseB(row: int): CellRead {
    if row == 5 then Found([10, 30]) else ListsB(row)
  }

  /** A cell of at most four ids is checked against the span's first origin
      only: B row 5 omits A row 11 yet the check passes. */
  lemma SmallCellChecksFirstOriginOnly()
    ensures Ric(KeysA, ListsLooseB, 10, 3, 3) == Ok
    ensures KeysA(11) == Found([5]) && 11 !in ListsLooseB(5).elems
  {
    var sorted := [IdPair(5, 10), IdPair(5, 11), IdPair(7, 12)];
    ChunkOfKeysA();
    assert Span(sorted, 0) == 2;
    assert Origins(sorted[0..2]) == [10, 11];
    SmallCellVerdict([10, 30], [10, 11], 3);
    assert Span(sorted, 2) == 1;
    assert Origins(sorted[2..3]) == [12];
    SmallCellVerdict([12], [12], 3);
    CheckSpansContinues(ListsLooseB, sorted, 3, 0, 2, 2);
    CheckSpansContinues(ListsLooseB, sorted, 3, 2, 1, 3);
    RicFromContinues(KeysA, ListsLooseB, 10, 3, 3, 0, 3, sorted);
  }
}
