/**
 * The data the helpers work on: a book row of the Goodreads table, the table
 * itself, the parsed command-line arguments, and the sort-column mapping
 * SORT_DICT together with the `-s` choices argparse accepts.
 */
module Books {
  import opened Wrappers
  import opened Sequences

  /** One row of the books table, indexed by its ISBN label. */
  datatype Book = Book(
    isbn: string,
    title: string,
    rating: real,        // "Average Rating"
    pages: int,          // "Num Pages"
    ratingsCount: int,   // "Ratings Count"
    reviewsCount: int    // "Text Reviews Count"
  )

  /** The table: rows in their current order. */
  type Table = seq<Book>

  /** The column the table is sorted on, one constructor per `-s` choice. */
  datatype SortKey = Rating | Pages | RatingsCount | Title | ReviewsCount

  /** The parsed arguments filter_books and sort_books read; an omitted flag is `None`. */
  datatype Args = Args(
    topic: Option<string>,      // -t
    minRating: Option<real>,    // -r
    minCount: Option<int>,      // -c
    sort: SortKey               // -s, default "title"
  )

  /** The values argparse accepts for `-s`, in the order it lists them. */
  const SortChoices: seq<string> := ["rating", "pages", "ratings_count", "title", "reviews_count"]

  /** SORT_DICT: the `-s` choice to the name of the column it sorts on. */
  const SortDict: map<string, string> := map[
    "rating" := "Average Rating",
    "pages" := "Num Pages",
    "ratings_count" := "Ratings Count",
    "title" := "Title",
    "reviews_count" := "Text Reviews Count"
  ]

  /** The `-s` choice that selects a key. */
  function Choice(k: SortKey): string {
    match k
    case Rating => "rating"
    case Pages => "pages"
    case RatingsCount => "ratings_count"
    case Title => "title"
    case ReviewsCount => "reviews_count"
  }

  /** The column a key sorts on, as the header of the table names it. */
  function Column(k: SortKey): string {
    match k
    case Rating => "Average Rating"
    case Pages => "Num Pages"
    case RatingsCount => "Ratings Count"
    case Title => "Title"
    case ReviewsCount => "Text Reviews Count"
  }

  /**
   * What argparse does with the text given to `-s`: a listed choice selects
   * its key, anything else is refused.
   */
  function ParseSortChoice(s: string): (r: Option<SortKey>)
    ensures r.Some? <==> s in SortChoices
    ensures r.Some? ==> Choice(r.value) == s
  {
    if s == "rating" then Some(Rating)
    else if s == "pages" then Some(Pages)
    else if s == "ratings_count" then Some(RatingsCount)
    else if s == "title" then Some(Title)
    else if s == "reviews_count" then Some(ReviewsCount)
    else None
  }

  /**
   * SORT_DICT is defined on exactly the choices argparse accepts, and maps the
   * choice of each key to that key's column, so the lookup in sort_books
   * cannot fail.
   */
  lemma SortDictCoversChoices()
    ensures forall c :: c in SortDict <==> c in SortChoices
    ensures forall k: SortKey :: Choice(k) in SortDict && SortDict[Choice(k)] == Column(k)
  {
    forall c ensures c in SortDict <==> c in SortChoices {
      assert SortDict.Keys == {"rating", "pages", "ratings_count", "title", "reviews_count"};
    }
    forall k: SortKey ensures Choice(k) in SortDict && SortDict[Choice(k)] == Column(k) {
      match k
      case Rating =>
      case Pages =>
      case RatingsCount =>
      case Title =>
      case ReviewsCount =>
    }
  }

  /** The ISBN labels of a table, in row order (the frame's index). */
  function Labels(t: Table): (r: seq<string>)
    ensures |r| == |t|
    ensures forall i :: 0 <= i < |t| ==> r[i] == t[i].isbn
  {
    seq(|t|, i requires 0 <= i < |t| => t[i].isbn)
  }

  /** The table's index is unique: no ISBN labels two rows. */
  predicate UniqueLabels(t: Table) {
    NoDuplicates(Labels(t))
  }

  /** Deleting rows keeps the remaining labels in their order. */
  lemma {:induction false} SubseqLabels(r: Table, t: Table)
    requires Subseq(r, t)
    ensures Subseq(Labels(r), Labels(t))
    decreases |t|
  {
    if r != [] {
      assert Labels(t)[1..] == Labels(t[1..]);
      assert Labels(r)[1..] == Labels(r[1..]);
      if r[0] == t[0] && Subseq(r[1..], t[1..]) {
        SubseqLabels(r[1..], t[1..]);
      } else {
        SubseqLabels(r, t[1..]);
      }
    }
  }

  /** Deleting rows never makes the index non-unique. */
  lemma SubseqUniqueLabels(r: Table, t: Table)
    requires Subseq(r, t) && UniqueLabels(t)
    ensures UniqueLabels(r)
  {
    SubseqLabels(r, t);
    SubseqNoDuplicates(Labels(r), Labels(t));
  }

  lemma LabelsRemoveAt(t: Table, j: nat)
    requires j < |t|
    ensures Labels(t[..j] + t[j + 1..]) == Labels(t)[..j] + Labels(t)[j + 1..]
  {
  }

  /** Rearranging the rows rearranges the labels: same rows, same multiset of labels. */
  lemma {:induction false} PermutationLabels(a: Table, b: Table)
    requires multiset(a) == multiset(b)
    ensures multiset(Labels(a)) == multiset(Labels(b))
    decreases |a|
  {
    if a == [] {
      assert |b| == |multiset(b)| == 0;
    } else {
      assert a[0] in multiset(b);
      var j :| 0 <= j < |b| && b[j] == a[0];
      RemoveMatching(a, b, j);
      PermutationLabels(a[1..], b[..j] + b[j + 1..]);
      LabelsRemoveAt(b, j);
      RemoveAt(Labels(b), j);
      assert Labels(a) == [a[0].isbn] + Labels(a[1..]);
      assert Labels(b)[j] == a[0].isbn;
    }
  }
}
