/** Row ids, (key, origin) pairs and the two small helpers of the
    referential-integrity check: `id_pair_span` and `work_chunk`
    (tools/vdb-validate/vdb-validate.c). */
module Ids {
  import opened Sorting

  /** `id_cmp`: compares two row ids. */
  function IdCmp(a: int, b: int): (r: int)
    ensures r < 0 <==> a < b
    ensures r == 0 <==> a == b
    ensures r > 0 <==> a > b
  {
    if a < b then -1 else if a == b then 0 else 1
  }

  /** `id_pair_t`: `first` is the foreign key read on the "many" side, `second`
      the row it was read from (its origin). */
  datatype IdPair = IdPair(first: int, second: int)

  /** `id_pair_cmp`: orders pairs by key, then by origin. */
  function IdPairCmp(a: IdPair, b: IdPair): (r: int)
    ensures r == 0 <==> a == b
    ensures r < 0 <==> a.first < b.first || (a.first == b.first && a.second < b.second)
    ensures r == -1 || r == 0 || r == 1
  {
    if a.first < b.first then -1
    else if a.first == b.first then
      if a.second < b.second then -1
      else if a.second == b.second then 0
      else 1
    else 1
  }

  /** Swapping the arguments of `id_pair_cmp` negates the answer. */
  lemma IdPairCmpAntisymmetric(a: IdPair, b: IdPair)
    ensures IdPairCmp(a, b) == -IdPairCmp(b, a)
  {
  }

  /** On pairs with equal origins, `id_pair_cmp` is `id_cmp` on the keys. */
  lemma IdPairCmpAgreesWithIdCmp(a: IdPair, b: IdPair)
    requires a.second == b.second
    ensures IdPairCmp(a, b) == IdCmp(a.first, b.first)
  {
  }

  /** Both comparators are antisymmetric total orders, so `ksort` with either
      has exactly one possible outcome (`Sorting.SortIsUnique`). */
  lemma ComparatorsAreTotalOrders()
    ensures TotalOrder(IdCmp) && Antisymmetric(IdCmp)
    ensures TotalOrder(IdPairCmp) && Antisymmetric(IdPairCmp)
  {
  }

  /** The length of the run of pairs starting at `i` whose key equals the key
      at `i`. */
  function Span(s: seq<IdPair>, i: nat): (n: nat)
    requires i < |s|
    ensures 1 <= n <= |s| - i
    decreases |s| - i
  {
    if i + 1 < |s| && s[i + 1].first == s[i].first then 1 + Span(s, i + 1) else 1
  }

  /** `Span` measures a maximal run of equal keys. */
  lemma {:induction false} SpanIsRun(s: seq<IdPair>, i: nat)
    requires i < |s|
    ensures forall k :: i <= k < i + Span(s, i) ==> s[k].first == s[i].first
    ensures i + Span(s, i) == |s| || s[i + Span(s, i)].first != s[i].first
    decreases |s| - i
  {
    if i + 1 < |s| && s[i + 1].first == s[i].first {
      SpanIsRun(s, i + 1);
    }
  }

  /** The three properties of `Span` determine it. */
  lemma {:induction false} SpanUnique(s: seq<IdPair>, i: nat, n: nat)
    requires i < |s| && 1 <= n <= |s| - i
    requires forall k :: i <= k < i + n ==> s[k].first == s[i].first
    requires i + n == |s| || s[i + n].first != s[i].first
    ensures n == Span(s, i)
    decreases n
  {
    if n > 1 {
      SpanUnique(s, i + 1, n - 1);
    }
  }

  /** `id_pair_span(first, N, array)`: how many pairs from `first` on share
      the key of `array[first]`. */
  method IdPairSpan(first: nat, n: nat, pairs: array<IdPair>) returns (span: nat)
    requires first < n <= pairs.Length
    ensures 1 <= span <= n - first
    ensures forall k :: first <= k < first + span ==> pairs[k].first == pairs[first].first
    ensures first + span == n || pairs[first + span].first != pairs[first].first
  {
    var target := pairs[first].first;
    var i := first + 1;
    while i < n
      invariant first + 1 <= i <= n
      invariant forall k :: first <= k < i ==> pairs[k].first == target
    {
      if pairs[i].first != target {
        break;
      }
      i := i + 1;
    }
    span := i - first;
  }

  /** Bytes per chunk entry: one `id_pair_t` (16) and one scratch `int64_t` (8). */
  const EntryBytes: nat := 16 + 8

  /** The working-set ceiling of the check: 2 GiB. */
  const WorkingSetBytes: nat := 2147483648

  /** `max` in `work_chunk`: the most entries that fit the ceiling. */
  const MaxChunk: nat := WorkingSetBytes / EntryBytes

  /** Halve `count` until it is at most `MaxChunk`. */
  function Halved(count: nat): (h: nat)
    ensures h <= MaxChunk && h <= count
    ensures count >= 1 ==> h >= 1
    decreases count
  {
    if count > MaxChunk then Halved(count / 2) else count
  }

  function Pow2(k: nat): (p: nat)
    ensures p >= 1
  {
    if k == 0 then 1 else 2 * Pow2(k - 1)
  }

  /** How many halvings `work_chunk` performs. */
  function HalvingSteps(count: nat): nat
    decreases count
  {
    if count > MaxChunk then 1 + HalvingSteps(count / 2) else 0
  }

  /** Doubling the divisor of a halved quotient: if `h` is `q / p` then it
      is also `count / (2 * p)` for `count` in `2q .. 2q + 1`. */
  lemma DoubledBounds(h: nat, p: nat, q: nat, count: nat)
    requires h * p <= q < (h + 1) * p
    requires 2 * q <= count < 2 * q + 2
    ensures h * (2 * p) <= count < (h + 1) * (2 * p)
  {
    assert h * (2 * p) == 2 * (h * p);
    assert (h + 1) * (2 * p) == 2 * ((h + 1) * p);
  }

  lemma DoubledLowerBound(q: nat, p: nat, count: nat)
    requires q >= (MaxChunk + 1) * p && 2 * q <= count
    ensures count >= (MaxChunk + 1) * (2 * p)
  {
    assert (MaxChunk + 1) * (2 * p) == 2 * ((MaxChunk + 1) * p);
  }

  /** The chunk is `count` divided (rounding down) by the least power of two
      that brings it under the ceiling: `chunk * 2^k <= count < (chunk + 1) * 2^k`,
      and one halving fewer would still exceed `MaxChunk`. */
  lemma {:induction false} HalvedIsShift(count: nat)
    ensures Halved(count) * Pow2(HalvingSteps(count)) <= count
    ensures count < (Halved(count) + 1) * Pow2(HalvingSteps(count))
    ensures HalvingSteps(count) > 0 ==> count >= (MaxChunk + 1) * Pow2(HalvingSteps(count) - 1)
    decreases count
  {
    if count > MaxChunk {
      var q := count / 2;
      var k := HalvingSteps(q);
      HalvedIsShift(q);
      DoubledBounds(Halved(q), Pow2(k), q, count);
      if k > 0 {
        DoubledLowerBound(q, Pow2(k - 1), count);
      }
    }
  }

  /** `work_chunk(count)`: the number of rows one chunk may hold. */
  method WorkChunk(count: nat) returns (chunk: nat)
    ensures chunk == Halved(count)
    ensures chunk <= MaxChunk
    ensures chunk * EntryBytes <= WorkingSetBytes
    ensures count <= MaxChunk ==> chunk == count
    ensures count > MaxChunk ==> 2 * chunk > MaxChunk
    ensures count >= 1 ==> chunk >= 1
  {
    chunk := count;
    while chunk > MaxChunk
      invariant Halved(chunk) == Halved(count)
      invariant chunk == count || 2 * chunk > MaxChunk
    {
      chunk := chunk / 2;
    }
  }
}
