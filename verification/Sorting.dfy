/**
 * What the utilities may rely on when they call qsort: some arrangement of the rows in which no row is
 * less than an earlier one. When no two rows compare equal, that pins the arrangement down.
 */
module Sorting {

  /** Rows in strictly ascending order. */
  predicate Ascending<T>(rows: seq<T>, less: (T, T) -> bool) {
    forall i, j :: 0 <= i < j < |rows| ==> less(rows[i], rows[j])
  }

  ghost predicate StrictOrder<T(!new)>(less: (T, T) -> bool) {
    && (forall x :: !less(x, x))
    && (forall x, y, z :: less(x, y) && less(y, z) ==> less(x, z))
  }

  lemma RestOfRows<T(!new)>(a: seq<T>, x: T, less: (T, T) -> bool)
    requires a != [] && StrictOrder(less) && Ascending(a, less)
    ensures x in a[1..] <==> x in a && x != a[0]
  {
    assert a == [a[0]] + a[1..];
    if x in a[1..] {
      var k :| 1 <= k < |a| && a[k] == x;
      assert less(a[0], a[k]);
    }
  }

  /**
   * Two strictly ascending arrangements of the same rows are the same sequence. It is why the order
   * in which rows were collected cannot show after a sort, whatever algorithm the sort uses.
   */
  lemma {:induction false} AscendingRowsUnique<T(!new)>(a: seq<T>, b: seq<T>, less: (T, T) -> bool)
    requires StrictOrder(less) && Ascending(a, less) && Ascending(b, less)
    requires forall x :: x in a <==> x in b
    ensures a == b
  {
    if a == [] {
      assert forall i :: 0 <= i < |b| ==> b[i] !in a;
    } else {
      assert a[0] in a && a[0] in b;
      assert b[0] in b && b[0] in a;
      assert a[0] == b[0];
      forall x ensures x in a[1..] <==> x in b[1..] {
        RestOfRows(a, x, less);
        RestOfRows(b, x, less);
      }
      AscendingRowsUnique(a[1..], b[1..], less);
      assert a == [a[0]] + a[1..] && b == [b[0]] + b[1..];
    }
  }

  /** A result qsort may give for these rows. */
  ghost predicate Sorts<T>(sorted: seq<T>, rows: seq<T>, less: (T, T) -> bool) {
    && multiset(sorted) == multiset(rows)
    && forall i, j :: 0 <= i < j < |sorted| ==> !less(sorted[j], sorted[i])
  }

  /** Every two rows are told apart. */
  predicate Separated<T>(rows: seq<T>, less: (T, T) -> bool) {
    forall i, j :: 0 <= i < j < |rows| ==> less(rows[i], rows[j]) || less(rows[j], rows[i])
  }

  lemma SameMembers<T(!new)>(a: seq<T>, b: seq<T>)
    requires multiset(a) == multiset(b)
    ensures forall x :: x in a <==> x in b
  {
    forall x ensures x in a <==> x in b {
      assert x in multiset(a) <==> x in multiset(b);
    }
  }

  lemma {:induction false} SeparatedOnce<T(!new)>(rows: seq<T>, less: (T, T) -> bool, x: T)
    requires StrictOrder(less) && Separated(rows, less)
    ensures multiset(rows)[x] <= 1
  {
    if rows != [] {
      SeparatedOnce(rows[1..], less, x);
      assert rows == [rows[0]] + rows[1..];
      if rows[0] == x {
        assert x !in rows[1..];
      }
    }
  }

  /** Two positions of a rearrangement hold rows that are told apart. */
  lemma SeparatedPair<T(!new)>(sorted: seq<T>, rows: seq<T>, less: (T, T) -> bool, i: nat, j: nat)
    requires multiset(sorted) == multiset(rows) && StrictOrder(less) && Separated(rows, less)
    requires i < j < |sorted|
    ensures less(sorted[i], sorted[j]) || less(sorted[j], sorted[i])
  {
    SameMembers(sorted, rows);
    var x, y := sorted[i], sorted[j];
    assert x in rows && y in rows;
    if x == y {
      assert sorted == sorted[..j] + [y] + sorted[j + 1..];
      assert x in sorted[..j];
      assert multiset(sorted)[x] >= 2;
      SeparatedOnce(rows, less, x);
    }
  }

  lemma SortedIsAscending<T(!new)>(sorted: seq<T>, rows: seq<T>, less: (T, T) -> bool)
    requires Sorts(sorted, rows, less) && StrictOrder(less) && Separated(rows, less)
    ensures Ascending(sorted, less)
    ensures forall x :: x in sorted <==> x in rows
  {
    SameMembers(sorted, rows);
    forall i, j | 0 <= i < j < |sorted|
      ensures less(sorted[i], sorted[j])
    {
      SeparatedPair(sorted, rows, less, i, j);
    }
  }

  /** The sorted rows depend only on which rows there are. */
  lemma SortForgetsOrder<T(!new)>(sa: seq<T>, a: seq<T>, sb: seq<T>, b: seq<T>, less: (T, T) -> bool)
    requires StrictOrder(less) && Separated(a, less) && Separated(b, less)
    requires Sorts(sa, a, less) && Sorts(sb, b, less)
    requires forall x :: x in a <==> x in b
    ensures sa == sb && Ascending(sa, less)
  {
    SortedIsAscending(sa, a, less);
    SortedIsAscending(sb, b, less);
    AscendingRowsUnique(sa, sb, less);
  }
}
