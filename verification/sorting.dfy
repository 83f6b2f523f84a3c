/**
 * sort_books: `data.sort_values(SORT_DICT[args.sort], ascending=False,
 * inplace=True)` reorders the caller's table in place so that the selected
 * column reads from largest to smallest.
 */
module Sorting {
  import opened Sequences
  import opened Books

  /** Python's `<=` on `str`: lexicographic order by code point. */
  predicate StrAtMost(a: string, b: string)
    decreases |a|
  {
    a == [] || (b != [] && (a[0] < b[0] || (a[0] == b[0] && StrAtMost(a[1..], b[1..]))))
  }

  lemma {:induction false} StrAtMostRefl(a: string)
    ensures StrAtMost(a, a)
    decreases |a|
  {
    if a != [] {
      StrAtMostRefl(a[1..]);
    }
  }

  lemma {:induction false} StrAtMostTotal(a: string, b: string)
    ensures StrAtMost(a, b) || StrAtMost(b, a)
    decreases |a|
  {
    if a != [] && b != [] && a[0] == b[0] {
      StrAtMostTotal(a[1..], b[1..]);
    }
  }

  lemma {:induction false} StrAtMostTrans(a: string, b: string, c: string)
    requires StrAtMost(a, b) && StrAtMost(b, c)
    ensures StrAtMost(a, c)
    decreases |a|
  {
    if a != [] && a[0] == b[0] && b[0] == c[0] {
      StrAtMostTrans(a[1..], b[1..], c[1..]);
    }
  }

  lemma {:induction false} StrAtMostAntisym(a: string, b: string)
    requires StrAtMost(a, b) && StrAtMost(b, a)
    ensures a == b
    decreases |a|
  {
    if a != [] {
      StrAtMostAntisym(a[1..], b[1..]);
      assert a == [a[0]] + a[1..] && b == [b[0]] + b[1..];
    }
  }

  /** A cell of a sortable column: the numeric columns as numbers, Title as text. */
  datatype Cell = Number(n: real) | Text(s: string)

  /** The cell of row `b` in the column SORT_DICT gives for `k`. */
  function CellOf(k: SortKey, b: Book): Cell {
    match k
    case Rating => Number(b.rating)
    case Pages => Number(b.pages as real)
    case RatingsCount => Number(b.ratingsCount as real)
    case Title => Text(b.title)
    case ReviewsCount => Number(b.reviewsCount as real)
  }

  /** The selected column of a table, top to bottom. */
  function ColumnOf(t: Table, k: SortKey): (r: seq<Cell>)
    ensures |r| == |t|
    ensures forall i :: 0 <= i < |t| ==> r[i] == CellOf(k, t[i])
  {
    seq(|t|, i requires 0 <= i < |t| => CellOf(k, t[i]))
  }

  /** Row `x` is at most row `y` in the column selected by `k`. */
  predicate AtMost(k: SortKey, x: Book, y: Book) {
    match k
    case Rating => x.rating <= y.rating
    case Pages => x.pages <= y.pages
    case RatingsCount => x.ratingsCount <= y.ratingsCount
    case Title => StrAtMost(x.title, y.title)
    case ReviewsCount => x.reviewsCount <= y.reviewsCount
  }

  lemma AtMostRefl(k: SortKey, x: Book)
    ensures AtMost(k, x, x)
  {
    if k == Title {
      StrAtMostRefl(x.title);
    }
  }

  /** Any two rows are comparable on every sortable column. */
  lemma AtMostTotal(k: SortKey, x: Book, y: Book)
    ensures AtMost(k, x, y) || AtMost(k, y, x)
  {
    if k == Title {
      StrAtMostTotal(x.title, y.title);
    }
  }

  lemma AtMostTrans(k: SortKey, x: Book, y: Book, z: Book)
    requires AtMost(k, x, y) && AtMost(k, y, z)
    ensures AtMost(k, x, z)
  {
    if k == Title {
      StrAtMostTrans(x.title, y.title, z.title);
    }
  }

  /** Rows that are each at most the other hold the same cell. */
  lemma AtMostAntisym(k: SortKey, x: Book, y: Book)
    requires AtMost(k, x, y) && AtMost(k, y, x)
    ensures CellOf(k, x) == CellOf(k, y)
  {
    if k == Title {
      StrAtMostAntisym(x.title, y.title);
    }
  }

  /** Rows holding the same cell compare as equal. */
  lemma SameCellAtMost(k: SortKey, x: Book, y: Book)
    requires CellOf(k, x) == CellOf(k, y)
    ensures AtMost(k, x, y) && AtMost(k, y, x)
  {
    if k == Title {
      StrAtMostTotal(x.title, y.title);
    }
  }

  /** The table reads from largest to smallest in the column selected by `k`. */
  predicate SortedDescending(t: Table, k: SortKey) {
    forall i, j :: 0 <= i < j < |t| ==> AtMost(k, t[j], t[i])
  }

  /** Index of a row holding the largest cell of `data[from..]`. */
  method IndexOfMax(data: array<Book>, from: nat, k: SortKey) returns (m: nat)
    requires from < data.Length
    ensures from <= m < data.Length
    ensures forall j :: from <= j < data.Length ==> AtMost(k, data[j], data[m])
  {
    m := from;
    AtMostRefl(k, data[from]);
    var j := from + 1;
    while j < data.Length
      invariant from <= m < j <= data.Length
      invariant forall q :: from <= q < j ==> AtMost(k, data[q], data[m])
    {
      if !AtMost(k, data[j], data[m]) {
        AtMostTotal(k, data[j], data[m]);
        forall q | from <= q < j
          ensures AtMost(k, data[q], data[j])
        {
          AtMostTrans(k, data[q], data[m], data[j]);
        }
        m := j;
      }
      AtMostRefl(k, data[j]);
      j := j + 1;
    }
  }

  /**
   * Selection sort after `i` rounds: the first `i` rows are in descending
   * order and none of the remaining rows is above any of them.
   */
  predicate SelectedPrefix(t: Table, i: nat, k: SortKey) {
    && i <= |t|
    && (forall p, q :: 0 <= p < q < i ==> AtMost(k, t[q], t[p]))
    && (forall p, q :: 0 <= p < i <= q < |t| ==> AtMost(k, t[q], t[p]))
  }

  /** Swapping a largest remaining row into place `i` extends the selected prefix by one. */
  lemma SelectStep(t: Table, i: nat, m: nat, k: SortKey)
    requires SelectedPrefix(t, i, k)
    requires i <= m < |t|
    requires forall j :: i <= j < |t| ==> AtMost(k, t[j], t[m])
    ensures SelectedPrefix(t[i := t[m]][m := t[i]], i + 1, k)
    ensures multiset(t[i := t[m]][m := t[i]]) == multiset(t)
  {
    var u := t[i := t[m]][m := t[i]];
    forall p, q | 0 <= p < q < i + 1 ensures AtMost(k, u[q], u[p]) {
    }
    forall p, q | 0 <= p < i + 1 <= q < |u| ensures AtMost(k, u[q], u[p]) {
      assert u[q] == t[q] || u[q] == t[i];
    }
  }

  /**
   * sort_books: reorder the table in place so that the column SORT_DICT
   * names for `args.sort` is non-increasing; the rows are only rearranged.
   */
  method SortBooks(data: array<Book>, args: Args)
    modifies data
    ensures SortedDescending(data[..], args.sort)
    ensures multiset(data[..]) == multiset(old(data[..]))
  {
    var k := args.sort;
    var i := 0;
    while i < data.Length
      invariant 0 <= i <= data.Length
      invariant multiset(data[..]) == multiset(old(data[..]))
      invariant SelectedPrefix(data[..], i, k)
    {
      var m := IndexOfMax(data, i, k);
      SelectStep(data[..], i, m, k);
      data[i], data[m] := data[m], data[i];
      i := i + 1;
    }
  }

  /** Taking one row out of a descending table leaves it descending. */
  lemma RemoveKeepsSorted(t: Table, j: nat, k: SortKey)
    requires SortedDescending(t, k) && j < |t|
    ensures SortedDescending(t[..j] + t[j + 1..], k)
  {
    var u := t[..j] + t[j + 1..];
    forall p, q | 0 <= p < q < |u| ensures AtMost(k, u[q], u[p]) {
      var p' := if p < j then p else p + 1;
      var q' := if q < j then q else q + 1;
      assert u[p] == t[p'] && u[q] == t[q'];
    }
  }

  /** The top rows of two descending arrangements of the same rows tie. */
  lemma HeadsTie(a: Table, b: Table, k: SortKey)
    requires multiset(a) == multiset(b) && a != []
    requires SortedDescending(a, k) && SortedDescending(b, k)
    ensures b != [] && CellOf(k, a[0]) == CellOf(k, b[0])
  {
    assert a[0] in multiset(b);
    var j :| 0 <= j < |b| && b[j] == a[0];
    assert b[0] in multiset(a);
    var i :| 0 <= i < |a| && a[i] == b[0];
    AtMostRefl(k, a[0]);
    assert AtMost(k, b[0], a[0]);
    assert AtMost(k, a[0], b[0]);
    AtMostAntisym(k, a[0], b[0]);
  }

  /** In a descending table every row above one that ties with the top row ties too. */
  lemma TopRowsTie(b: Table, j: nat, k: SortKey)
    requires SortedDescending(b, k) && j < |b|
    requires CellOf(k, b[j]) == CellOf(k, b[0])
    ensures forall n :: 0 <= n <= j ==> CellOf(k, b[n]) == CellOf(k, b[j])
  {
    SameCellAtMost(k, b[j], b[0]);
    forall n | 0 < n <= j ensures CellOf(k, b[n]) == CellOf(k, b[j]) {
      AtMostTrans(k, b[n], b[0], b[j]);
      AtMostAntisym(k, b[n], b[j]);
    }
  }

  /** Moving a row to the top past rows it ties with does not change the column. */
  lemma ColumnMoveToFront(b: Table, j: nat, k: SortKey)
    requires j < |b|
    requires forall n :: 0 <= n <= j ==> CellOf(k, b[n]) == CellOf(k, b[j])
    ensures ColumnOf(b, k) == [CellOf(k, b[j])] + ColumnOf(b[..j] + b[j + 1..], k)
  {
    var rest := b[..j] + b[j + 1..];
    var r := [CellOf(k, b[j])] + ColumnOf(rest, k);
    forall n | 0 < n < |b| ensures ColumnOf(b, k)[n] == r[n] {
      if n - 1 < j {
        assert rest[n - 1] == b[n - 1];
      } else {
        assert rest[n - 1] == b[n];
      }
    }
  }

  lemma ColumnCons(t: Table, k: SortKey)
    requires t != []
    ensures ColumnOf(t, k) == [CellOf(k, t[0])] + ColumnOf(t[1..], k)
  {
  }

  lemma TailSorted(t: Table, k: SortKey)
    requires SortedDescending(t, k) && t != []
    ensures SortedDescending(t[1..], k)
  {
    forall p, q | 0 <= p < q < |t[1..]| ensures AtMost(k, t[1..][q], t[1..][p]) {
      assert t[1..][q] == t[q + 1] && t[1..][p] == t[p + 1];
    }
  }

  /**
   * The descending order of a table is unique up to rows that tie: two
   * descending arrangements of the same rows read the same in the sorted
   * column. So sorting an already sorted table again leaves that column as it
   * is, whatever order the tied rows end up in.
   */
  lemma {:induction false} SortedPermutationsAgree(a: Table, b: Table, k: SortKey)
    requires multiset(a) == multiset(b)
    requires SortedDescending(a, k) && SortedDescending(b, k)
    ensures ColumnOf(a, k) == ColumnOf(b, k)
    decreases |a|
  {
    if a == [] {
      assert |b| == |multiset(b)| == 0;
    } else {
      HeadsTie(a, b, k);
      assert a[0] in multiset(b);
      var j :| 0 <= j < |b| && b[j] == a[0];
      RemoveMatching(a, b, j);
      RemoveKeepsSorted(b, j, k);
      TailSorted(a, k);
      SortedPermutationsAgree(a[1..], b[..j] + b[j + 1..], k);
      TopRowsTie(b, j, k);
      ColumnMoveToFront(b, j, k);
      ColumnCons(a, k);
    }
  }

  /** Sorting keeps the table's ISBN labels: the same labels, each as often as before. */
  lemma SortKeepsLabels(before: Table, after: Table)
    requires multiset(after) == multiset(before)
    ensures multiset(Labels(after)) == multiset(Labels(before))
  {
    PermutationLabels(after, before);
  }
}
