/** The library sort `ksort(base, n, size, cmp, data)` used by the
    referential-integrity check.

    Only its contract matters to the validator: after the call the first `n`
    elements are a permutation of what they were, ordered by the comparator.
    `Sort` realises that contract (by insertion); `SortedPermutationUnique`
    shows that for the comparators the validator passes every routine meeting
    the contract produces the same sequence, so nothing proved elsewhere
    depends on how the library sorts. */
module Sorting {

  /** A comparator in the C convention: negative, zero or positive. */
  type Comparator<!T> = (T, T) -> int

  /** `cmp(x, y) <= 0` is total and transitive. */
  ghost predicate TotalOrder<T(!new)>(cmp: Comparator<T>) {
    && (forall x, y :: cmp(x, y) <= 0 || cmp(y, x) <= 0)
    && (forall x, y, z :: cmp(x, y) <= 0 && cmp(y, z) <= 0 ==> cmp(x, z) <= 0)
  }

  /** Only equal values compare as zero both ways. */
  ghost predicate Antisymmetric<T(!new)>(cmp: Comparator<T>) {
    forall x, y :: cmp(x, y) <= 0 && cmp(y, x) <= 0 ==> x == y
  }

  predicate Sorted<T>(s: seq<T>, cmp: Comparator<T>) {
    forall i, j :: 0 <= i < j < |s| ==> cmp(s[i], s[j]) <= 0
  }

  /** Places `x` before the first element it does not compare above. */
  function Insert<T>(x: T, s: seq<T>, cmp: Comparator<T>): (r: seq<T>)
    ensures |r| == |s| + 1
  {
    if s == [] || cmp(x, s[0]) <= 0 then [x] + s
    else [s[0]] + Insert(x, s[1..], cmp)
  }

  /** `Insert` adds exactly `x`. */
  lemma {:induction false} InsertPermutes<T>(x: T, s: seq<T>, cmp: Comparator<T>)
    ensures multiset(Insert(x, s, cmp)) == multiset(s) + multiset{x}
  {
    if s != [] && cmp(x, s[0]) > 0 {
      InsertPermutes(x, s[1..], cmp);
      assert s == [s[0]] + s[1..];
    }
  }

  /** Insertion sort: a permutation of `s`, sorted when `cmp` is a total order
      (`SortIsSorted`). */
  function Sort<T>(s: seq<T>, cmp: Comparator<T>): (r: seq<T>)
    ensures |r| == |s|
  {
    if s == [] then [] else Insert(s[0], Sort(s[1..], cmp), cmp)
  }

  /** `Sort` permutes its input. */
  lemma {:induction false} SortPermutes<T>(s: seq<T>, cmp: Comparator<T>)
    ensures multiset(Sort(s, cmp)) == multiset(s)
  {
    if s != [] {
      SortPermutes(s[1..], cmp);
      InsertPermutes(s[0], Sort(s[1..], cmp), cmp);
      assert s == [s[0]] + s[1..];
    }
  }

  /** Prepending a lower bound of a sorted sequence keeps it sorted. */
  lemma PrependIsSorted<T>(y: T, t: seq<T>, cmp: Comparator<T>)
    requires Sorted(t, cmp)
    requires forall k :: 0 <= k < |t| ==> cmp(y, t[k]) <= 0
    ensures Sorted([y] + t, cmp)
  {
    var r := [y] + t;
    forall i, j | 0 <= i < j < |r| ensures cmp(r[i], r[j]) <= 0 {
      if i == 0 {
        assert r[j] == t[j - 1];
      } else {
        assert r[i] == t[i - 1] && r[j] == t[j - 1];
      }
    }
  }

  lemma {:induction false} InsertIsSorted<T(!new)>(x: T, s: seq<T>, cmp: Comparator<T>)
    requires TotalOrder(cmp)
    requires Sorted(s, cmp)
    ensures Sorted(Insert(x, s, cmp), cmp)
  {
    if s == [] || cmp(x, s[0]) <= 0 {
      if s != [] {
        forall k | 0 <= k < |s| ensures cmp(x, s[k]) <= 0 {
          if k > 0 {
            assert cmp(s[0], s[k]) <= 0;
          }
        }
      }
      PrependIsSorted(x, s, cmp);
    } else {
      var t := Insert(x, s[1..], cmp);
      InsertIsSorted(x, s[1..], cmp);
      InsertPermutes(x, s[1..], cmp);
      assert cmp(s[0], x) <= 0;
      forall k | 0 <= k < |t| ensures cmp(s[0], t[k]) <= 0 {
        assert t[k] in multiset(s[1..]) + multiset{x} by {
          assert t[k] in multiset(t);
        }
        if t[k] != x {
          assert t[k] in s[1..];
          var m :| 0 <= m < |s[1..]| && s[1..][m] == t[k];
          assert s[m + 1] == t[k];
        }
      }
      PrependIsSorted(s[0], t, cmp);
    }
  }

  lemma {:induction false} SortIsSorted<T(!new)>(s: seq<T>, cmp: Comparator<T>)
    requires TotalOrder(cmp)
    ensures Sorted(Sort(s, cmp), cmp)
  {
    if s != [] {
      SortIsSorted(s[1..], cmp);
      InsertIsSorted(s[0], Sort(s[1..], cmp), cmp);
    }
  }

  /** The head of a sorted sequence is a lower bound of all its elements. */
  lemma HeadIsLeast<T>(a: seq<T>, e: T, cmp: Comparator<T>)
    requires Sorted(a, cmp) && |a| > 0 && e in multiset(a)
    ensures cmp(a[0], e) <= 0 || e == a[0]
  {
    var i :| 0 <= i < |a| && a[i] == e;
    if i > 0 {
      assert cmp(a[0], a[i]) <= 0;
    }
  }

  /** Two sorted permutations of one multiset start with the same element. */
  lemma SameHead<T(!new)>(a: seq<T>, b: seq<T>, cmp: Comparator<T>)
    requires Antisymmetric(cmp)
    requires Sorted(a, cmp) && Sorted(b, cmp)
    requires |a| > 0 && multiset(a) == multiset(b)
    ensures |b| > 0 && a[0] == b[0]
  {
    assert a[0] in multiset(a);
    assert |b| > 0;
    assert b[0] in multiset(b);
    HeadIsLeast(a, b[0], cmp);
    HeadIsLeast(b, a[0], cmp);
  }

  /** Removing equal heads leaves equal multisets of the tails. */
  lemma TailsSameMultiset<T>(a: seq<T>, b: seq<T>)
    requires |a| > 0 && |b| > 0 && a[0] == b[0]
    requires multiset(a) == multiset(b)
    ensures multiset(a[1..]) == multiset(b[1..])
  {
    assert a == [a[0]] + a[1..];
    assert b == [b[0]] + b[1..];
    assert multiset(a) == multiset{a[0]} + multiset(a[1..]);
    assert multiset(b) == multiset{b[0]} + multiset(b[1..]);
    assert multiset(a[1..]) == multiset(a) - multiset{a[0]};
    assert multiset(b[1..]) == multiset(b) - multiset{b[0]};
  }

  /** The tail of a sorted sequence is sorted. */
  lemma SortedTail<T>(a: seq<T>, cmp: Comparator<T>)
    requires Sorted(a, cmp) && |a| > 0
    ensures Sorted(a[1..], cmp)
  {
    forall i, j | 0 <= i < j < |a| - 1 ensures cmp(a[1..][i], a[1..][j]) <= 0 {
      assert a[1..][i] == a[i + 1] && a[1..][j] == a[j + 1];
    }
  }

  /** Sequences with equal heads and equal tails are equal. */
  lemma HeadAndTail<T>(a: seq<T>, b: seq<T>)
    requires |a| > 0 && |b| > 0 && a[0] == b[0] && a[1..] == b[1..]
    ensures a == b
  {
    assert a == [a[0]] + a[1..];
    assert b == [b[0]] + b[1..];
  }

  /** Two sorted permutations of the same multiset are the same sequence. */
  lemma {:induction false} SortedPermutationUnique<T(!new)>(a: seq<T>, b: seq<T>, cmp: Comparator<T>)
    requires TotalOrder(cmp) && Antisymmetric(cmp)
    requires Sorted(a, cmp) && Sorted(b, cmp)
    requires multiset(a) == multiset(b)
    ensures a == b
  {
    if a == [] {
      assert |b| == |multiset(b)| == 0;
    } else {
      SameHead(a, b, cmp);
      TailsSameMultiset(a, b);
      SortedTail(a, cmp);
      SortedTail(b, cmp);
      SortedPermutationUnique(a[1..], b[1..], cmp);
      HeadAndTail(a, b);
    }
  }

  /** Whatever routine sorts by an antisymmetric total order yields `Sort`. */
  lemma SortIsUnique<T(!new)>(s: seq<T>, r: seq<T>, cmp: Comparator<T>)
    requires TotalOrder(cmp) && Antisymmetric(cmp)
    requires Sorted(r, cmp) && multiset(r) == multiset(s)
    ensures r == Sort(s, cmp)
  {
    SortIsSorted(s, cmp);
    SortPermutes(s, cmp);
    SortedPermutationUnique(r, Sort(s, cmp), cmp);
  }

  /** `ksort(a, n, sizeof a[0], cmp, NULL)`: sorts the first `n` elements of
      `a` in place and leaves the rest alone. */
  method KSort<T>(a: array<T>, n: nat, cmp: Comparator<T>)
    requires n <= a.Length
    modifies a
    ensures a[..n] == Sort(old(a[..n]), cmp)
    ensures a[n..] == old(a[n..])
  {
    var sorted := Sort(a[..n], cmp);
    forall k | 0 <= k < n {
      a[k] := sorted[k];
    }
    assert a[..n] == sorted;
  }
}
