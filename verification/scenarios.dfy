/** Worked examples of filter_books on small tables. */
module Scenarios {
  import opened Wrappers
  import opened Text
  import opened Books
  import opened Filter

  /** `-r 4.0 -c 100` on Dune (4.2, 500 ratings) and Foundation (4.5, 50 ratings) keeps only Dune. */
  lemma RatingAndCountScenario()
    ensures
      var dune := Book("A1", "Dune", 4.2, 412, 500, 30);
      var foundation := Book("A2", "Foundation", 4.5, 255, 50, 12);
      FilterBooks([dune, foundation], Args(None, Some(4.0), Some(100), Title)) == [dune]
  {
  }

  lemma RewriteLiteral(t: string, expected: string)
    requires |t| == |expected|
    requires forall i :: 0 <= i < |t| ==> expected[i] == if t[i] == '_' then ' ' else t[i]
    ensures RewriteTopic(t) == expected
  {
  }

  lemma LowerLiteral(s: string, expected: string)
    requires |s| == |expected|
    requires forall i :: 0 <= i < |s| ==> LowerChar(s[i]) == expected[i]
    ensures Lower(s) == expected
  {
  }

  lemma LowerSaga(title: string)
    requires title == "A Space Opera Saga"
    ensures Lower(title) == "a space opera saga"
  {
    LowerLiteral(title, "a space opera saga");
  }

  lemma LowerHistory(title: string)
    requires title == "Space: A History"
    ensures Lower(title) == "space: a history"
  {
    LowerLiteral(title, "space: a history");
  }

  /** No window of `h` starting with "s" has a space five characters on. */
  lemma SpaceOperaNotIn(h: string, t: string)
    requires h == "space: a history" && t == "space opera"
    ensures !Contains(h, t)
  {
    forall i | OccursAt(h, t, i) ensures false {
      assert h[i + 5] == ' ' && h[i] == 's' by {
        assert h[i..i + |t|][5] == t[5];
        assert h[i..i + |t|][0] == t[0];
      }
    }
  }

  /** The topic `space_opera` is looked for as "space opera", in any case, so it matches "A Space Opera Saga". */
  lemma TopicScenarioMatch(topic: string, title: string)
    requires topic == "space_opera" && title == "A Space Opera Saga"
    ensures ContainsIgnoringCase(title, RewriteTopic(topic))
  {
    RewriteLiteral(topic, "space opera");
    LowerLiteral("space opera", "space opera");
    LowerSaga(title);
    assert OccursAt("a space opera saga", "space opera", 2);
  }

  /** ... and does not match "Space: A History", where "space" is not followed by " opera". */
  lemma TopicScenarioMiss(topic: string, title: string)
    requires topic == "space_opera" && title == "Space: A History"
    ensures !ContainsIgnoringCase(title, RewriteTopic(topic))
  {
    RewriteLiteral(topic, "space opera");
    LowerLiteral("space opera", "space opera");
    LowerHistory(title);
    SpaceOperaNotIn("space: a history", "space opera");
  }
}
