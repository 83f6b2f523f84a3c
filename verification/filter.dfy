/**
 * filter_books: narrow the table by topic, minimum rating and minimum ratings
 * count. Each step rebinds the table to the rows a boolean mask keeps, which
 * is an order-preserving filter over the row sequence.
 */
module Filter {
  import opened Wrappers
  import opened Sequences
  import opened Text
  import opened Books

  /** One mask filter_books can apply. */
  datatype Condition =
    | TitleContains(topic: string)   // Title contains topic, ignoring case
    | RatingAbove(minRating: real)   // Average Rating > minRating
    | CountAbove(minCount: int)      // Ratings Count > minCount

  predicate Holds(c: Condition, b: Book) {
    match c
    case TitleContains(t) => ContainsIgnoringCase(b.title, t)
    case RatingAbove(m) => b.rating > m
    case CountAbove(m) => b.ratingsCount > m
  }

  /**
   * Boolean-mask indexing `data[mask]`: the rows whose mask entry is true,
   * in their original order, nothing added.
   */
  function Where(data: Table, c: Condition): (r: Table)
    ensures Subseq(r, data)
    ensures forall b :: b in r ==> Holds(c, b)
    ensures forall b :: b in data && Holds(c, b) ==> b in r
    ensures forall b :: multiset(r)[b] == if Holds(c, b) then multiset(data)[b] else 0
    decreases |data|
  {
    if data == [] then []
    else
      var rest := Where(data[1..], c);
      assert data == [data[0]] + data[1..];
      if Holds(c, data[0]) then [data[0]] + rest else rest
  }

  /** A mask that every row passes keeps the table as it is. */
  lemma WhereAllHold(data: Table, c: Condition)
    requires forall b :: b in data ==> Holds(c, b)
    ensures Where(data, c) == data
  {
    var r := Where(data, c);
    assert multiset(r) == multiset(data) by {
      forall b ensures multiset(r)[b] == multiset(data)[b] {
        if !Holds(c, b) {
          assert b !in data;
        }
      }
    }
    assert |r| == |multiset(r)| == |multiset(data)| == |data|;
    SubseqFull(r, data);
  }

  /** Python truthiness of `args.topic`: given and non-empty. */
  predicate TopicActive(args: Args) {
    args.topic.Some? && args.topic.value != ""
  }

  /** Python truthiness of `args.min_rating`: given and not zero. */
  predicate RatingActive(args: Args) {
    args.minRating.Some? && args.minRating.value != 0.0
  }

  /** Python truthiness of `args.min_count`: given and not zero. */
  predicate CountActive(args: Args) {
    args.minCount.Some? && args.minCount.value != 0
  }

  /** The title mask, on the topic with underscores turned into spaces. */
  function TopicMask(args: Args): Condition {
    TitleContains(RewriteTopic(args.topic.GetOr("")))
  }

  function RatingMask(args: Args): Condition {
    RatingAbove(args.minRating.GetOr(0.0))
  }

  function CountMask(args: Args): Condition {
    CountAbove(args.minCount.GetOr(0))
  }

  /** A row gets through a guarded step: the guard is falsy or the mask passes the row. */
  predicate Passes(active: bool, c: Condition, b: Book) {
    active ==> Holds(c, b)
  }

  /** A row passes every step filter_books performs for these arguments. */
  predicate Admits(args: Args, b: Book) {
    && Passes(TopicActive(args), TopicMask(args), b)
    && Passes(RatingActive(args), RatingMask(args), b)
    && Passes(CountActive(args), CountMask(args), b)
  }

  /** One guarded step of filter_books: apply the mask only when its guard is truthy. */
  function Step(data: Table, active: bool, c: Condition): (r: Table)
    ensures Subseq(r, data)
    ensures forall b :: b in r ==> Passes(active, c, b)
    ensures forall b :: multiset(r)[b] == if Passes(active, c, b) then multiset(data)[b] else 0
  {
    SubseqRefl(data);
    if active then Where(data, c) else data
  }

  /**
   * filter_books: the rows that pass every active step, in their original
   * order; a row is dropped only when an active step rejects it.
   */
  function FilterBooks(data: Table, args: Args): (r: Table)
    ensures Subseq(r, data)
    ensures forall b :: b in r ==> Admits(args, b)
    ensures forall b :: multiset(r)[b] == if Admits(args, b) then multiset(data)[b] else 0
    ensures forall b :: b in data && Admits(args, b) ==> b in r
  {
    var byTopic := Step(data, TopicActive(args), TopicMask(args));
    var byRating := Step(byTopic, RatingActive(args), RatingMask(args));
    var byCount := Step(byRating, CountActive(args), CountMask(args));
    SubseqTrans(byRating, byTopic, data);
    SubseqTrans(byCount, byRating, data);
    assert forall b :: multiset(byCount)[b] == if Admits(args, b) then multiset(data)[b] else 0 by {
      forall b ensures multiset(byCount)[b] == if Admits(args, b) then multiset(data)[b] else 0 {
        StepsCompose(data, byTopic, byRating, byCount, b,
          Passes(TopicActive(args), TopicMask(args), b),
          Passes(RatingActive(args), RatingMask(args), b),
          Passes(CountActive(args), CountMask(args), b));
      }
    }
    byCount
  }

  /** Three guarded steps in a row keep a row exactly when it gets through all three. */
  lemma StepsCompose(data: Table, t1: Table, t2: Table, t3: Table, b: Book, p1: bool, p2: bool, p3: bool)
    requires multiset(t1)[b] == if p1 then multiset(data)[b] else 0
    requires multiset(t2)[b] == if p2 then multiset(t1)[b] else 0
    requires multiset(t3)[b] == if p3 then multiset(t2)[b] else 0
    ensures multiset(t3)[b] == if p1 && p2 && p3 then multiset(data)[b] else 0
  {
  }

  /** Rows that already pass every active step all survive filter_books. */
  lemma FilterKeepsAdmitted(data: Table, args: Args)
    requires forall b :: b in data ==> Admits(args, b)
    ensures FilterBooks(data, args) == data
  {
    if TopicActive(args) {
      WhereAllHold(data, TopicMask(args));
    }
    if RatingActive(args) {
      WhereAllHold(data, RatingMask(args));
    }
    if CountActive(args) {
      WhereAllHold(data, CountMask(args));
    }
  }

  /** With no active step filter_books returns its input unchanged. */
  lemma FilterIdentity(data: Table, args: Args)
    requires !TopicActive(args) && !RatingActive(args) && !CountActive(args)
    ensures FilterBooks(data, args) == data
  {
    FilterKeepsAdmitted(data, args);
  }

  /** Filtering a second time with the same arguments changes nothing. */
  lemma FilterIdempotent(data: Table, args: Args)
    ensures FilterBooks(FilterBooks(data, args), args) == FilterBooks(data, args)
  {
    FilterKeepsAdmitted(FilterBooks(data, args), args);
  }

  /** filter_books never relabels, reorders or duplicates rows, so a unique index stays unique. */
  lemma FilterKeepsLabels(data: Table, args: Args)
    ensures Subseq(Labels(FilterBooks(data, args)), Labels(data))
    ensures UniqueLabels(data) ==> UniqueLabels(FilterBooks(data, args))
  {
    SubseqLabels(FilterBooks(data, args), data);
    if UniqueLabels(data) {
      SubseqUniqueLabels(FilterBooks(data, args), data);
    }
  }

  /**
   * The truthiness guards: an empty topic, a minimum rating of 0 and a minimum
   * count of 0 are each the same as leaving the flag out.
   */
  lemma FalsyArgumentsSkip(data: Table, args: Args)
    ensures args.topic == Some("") ==>
      FilterBooks(data, args) == FilterBooks(data, args.(topic := None))
    ensures args.minRating == Some(0.0) ==>
      FilterBooks(data, args) == FilterBooks(data, args.(minRating := None))
    ensures args.minCount == Some(0) ==>
      FilterBooks(data, args) == FilterBooks(data, args.(minCount := None))
  {
  }

  /** So `-r 0` keeps a book whose average rating is 0 (or below), which `> 0` would drop. */
  lemma ZeroRatingKeepsUnrated(data: Table, args: Args, b: Book)
    requires args.minRating == Some(0.0) && !TopicActive(args) && !CountActive(args)
    requires b in data && b.rating <= 0.0
    ensures b in FilterBooks(data, args)
    ensures !Holds(RatingAbove(0.0), b)
  {
  }
}
