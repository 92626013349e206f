/** The comparison of one span with its B cell as the check evidently
    intends it, beside the two places where the code as written
    (tools/vdb-validate/vdb-validate.c:1069 and 1104-1121) departs from it.
    The methods of `RefIntegrity` follow the code as written. */
module RefIntegrityIntended {
  import opened Sorting
  import opened Ids
  import opened RefIntegrity
  import opened RefIntegrityProps

  /** The small-cell scan with `found` cleared for every origin: each origin
      must be in the cell. */
  function ScanAll(origins: seq<int>, ids: seq<int>, k1: nat): bool
    requires k1 <= |origins|
    decreases |origins| - k1
  {
    if k1 == |origins| then true
    else origins[k1] in ids && ScanAll(origins, ids, k1 + 1)
  }

  lemma {:induction false} ScanAllIsMembership(origins: seq<int>, ids: seq<int>, k1: nat)
    requires k1 <= |origins|
    ensures ScanAll(origins, ids, k1) <==> forall m :: k1 <= m < |origins| ==> origins[m] in ids
    decreases |origins| - k1
  {
    if k1 < |origins| {
      ScanAllIsMembership(origins, ids, k1 + 1);
    }
  }

  /** `CellMatches` with the whole cell sorted (`ksort(id, elem_count, ...)`)
      and with `found` cleared for every origin. */
  function CellMatchesIntended(ids: seq<int>, origins: seq<int>): bool
    requires 1 <= |origins| <= |ids|
  {
    if |ids| > 4 then
      var id := Sort(ids, IdCmp);
      if |ids| == |origins| then id == origins
      else MergeFound(origins, id, 0, 0)
    else ScanAll(origins, ids, 0)
  }

  /** The intended comparison accepts a span of strictly increasing origins
      exactly when the cell lists every origin, in whatever order the cell
      stores its ids. */
  lemma CellMatchesIntendedIsMembership(ids: seq<int>, origins: seq<int>)
    requires 1 <= |origins| <= |ids| && Increasing(origins)
    ensures CellMatchesIntended(ids, origins) <==> forall m :: 0 <= m < |origins| ==> origins[m] in ids
  {
    if |ids| > 4 {
      var s := Sort(ids, IdCmp);
      ComparatorsAreTotalOrders();
      SortIsSorted(ids, IdCmp);
      SortPermutes(ids, IdCmp);
      PartlySortedOfSorted(s, |origins|);
      assert CellMatches(s, origins) == CellMatchesIntended(ids, origins);
      SortedLargeCellVerdict(s, origins, |s|);
      forall x ensures x in s <==> x in ids {
        assert x in s <==> x in multiset(s);
      }
    } else {
      ScanAllIsMembership(origins, ids, 0);
    }
  }

  /** As written, the large-cell branch sorts only the first `span` ids of the
      cell: a cell of six ids that lists the span's one origin last rejects it. */
  lemma PartialSortRejectsListedOrigin()
    ensures CellMatches([11, 12, 13, 14, 15, 10], [10]) == false
    ensures 10 in [11, 12, 13, 14, 15, 10]
    ensures CellMatchesIntended([11, 12, 13, 14, 15, 10], [10])
  {
    var ids := [11, 12, 13, 14, 15, 10];
    assert ids[..1] == [11];
    assert PartlySorted(ids, 1) == ids;
    CellMatchesIntendedIsMembership(ids, [10]);
  }

  /** As written, the small-cell scan never clears `found`: a cell that lists
      the span's first origin but not its second accepts the span. */
  lemma SmallScanAcceptsUnlistedOrigin()
    ensures CellMatches([10, 30], [10, 11])
    ensures 11 !in [10, 30]
    ensures !CellMatchesIntended([10, 30], [10, 11])
  {
    ScanFoundIsFirstOrigin([10, 11], [10, 30]);
    ScanAllIsMembership([10, 11], [10, 30], 0);
  }
}
