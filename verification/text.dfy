/**
 * The string operations filter_books relies on: Python's `str.split` with a
 * one-character separator, `str.join`, and a case-insensitive substring test.
 */
module Text {

  /** Python's `s.split(sep)`: the pieces between separators; always at least one piece. */
  function Split(s: string, sep: char): (parts: seq<string>)
    ensures |parts| >= 1
    ensures forall p :: p in parts ==> sep !in p
    ensures |s| == TotalLength(parts) + |parts| - 1
    decreases |s|
  {
    if s == [] then [""]
    else
      var rest := Split(s[1..], sep);
      if s[0] == sep then [""] + rest
      else [[s[0]] + rest[0]] + rest[1..]
  }

  /** Sum of the lengths of the pieces. */
  function TotalLength(parts: seq<string>): nat {
    if parts == [] then 0 else |parts[0]| + TotalLength(parts[1..])
  }

  /** Python's `sep.join(parts)`. */
  function Join(sep: string, parts: seq<string>): string
    decreases |parts|
  {
    if parts == [] then ""
    else if |parts| == 1 then parts[0]
    else parts[0] + sep + Join(sep, parts[1..])
  }

  /** Every occurrence of `from` replaced by `to`, every other character kept. */
  function Replace(s: string, from: char, to: char): (r: string)
    ensures |r| == |s|
    ensures forall i :: 0 <= i < |s| ==> r[i] == if s[i] == from then to else s[i]
  {
    seq(|s|, i requires 0 <= i < |s| => if s[i] == from then to else s[i])
  }

  lemma JoinCons(sep: string, c: char, p: string, ps: seq<string>)
    ensures Join(sep, [[c] + p] + ps) == [c] + Join(sep, [p] + ps)
  {
    if ps == [] {
    } else {
      assert ([[c] + p] + ps)[1..] == ps;
      assert ([p] + ps)[1..] == ps;
    }
  }

  lemma JoinEmptyHead(sep: string, ps: seq<string>)
    requires ps != []
    ensures Join(sep, [""] + ps) == sep + Join(sep, ps)
  {
    assert ([""] + ps)[1..] == ps;
  }

  lemma ReplaceCons(s: string, from: char, to: char)
    requires s != []
    ensures Replace(s, from, to) == [if s[0] == from then to else s[0]] + Replace(s[1..], from, to)
  {
  }

  /** Splitting on `sep` and joining with `glue` replaces every `sep` by `glue`. */
  lemma {:induction false} JoinSplit(s: string, sep: char, glue: char)
    ensures Join([glue], Split(s, sep)) == Replace(s, sep, glue)
    decreases |s|
  {
    if s != [] {
      var rest := Split(s[1..], sep);
      JoinSplit(s[1..], sep, glue);
      ReplaceCons(s, sep, glue);
      if s[0] == sep {
        JoinEmptyHead([glue], rest);
      } else {
        assert rest == [rest[0]] + rest[1..];
        JoinCons([glue], s[0], rest[0], rest[1..]);
      }
    }
  }

  /**
   * The topic rewrite `" ".join(topic.split("_"))`: every underscore becomes a
   * space, every other character and the length are unchanged.
   */
  function RewriteTopic(topic: string): (r: string)
    ensures |r| == |topic|
    ensures forall i :: 0 <= i < |topic| ==> r[i] == if topic[i] == '_' then ' ' else topic[i]
    ensures '_' !in r
  {
    JoinSplit(topic, '_', ' ');
    Join(" ", Split(topic, '_'))
  }

  /** ASCII lower-casing of one character. */
  function LowerChar(c: char): char {
    if 'A' <= c <= 'Z' then (c as int + 32) as char else c
  }

  /** ASCII lower-casing of a string, character by character. */
  function Lower(s: string): (r: string)
    ensures |r| == |s|
    ensures forall i :: 0 <= i < |s| ==> r[i] == LowerChar(s[i])
  {
    seq(|s|, i requires 0 <= i < |s| => LowerChar(s[i]))
  }

  /** `sub` occurs in `s` starting at index `i`. */
  predicate OccursAt(s: string, sub: string, i: int) {
    0 <= i && i + |sub| <= |s| && s[i..i + |sub|] == sub
  }

  /** Occurrences in `s[1..]` are the occurrences in `s` shifted down by one. */
  lemma OccursShift(s: string, sub: string)
    requires s != []
    ensures forall j :: OccursAt(s[1..], sub, j) ==> OccursAt(s, sub, j + 1)
    ensures forall i :: OccursAt(s, sub, i) && i > 0 ==> OccursAt(s[1..], sub, i - 1)
  {
    forall j | OccursAt(s[1..], sub, j) ensures OccursAt(s, sub, j + 1) {
      assert s[1..][j..j + |sub|] == s[j + 1..j + 1 + |sub|];
    }
    forall i | OccursAt(s, sub, i) && i > 0 ensures OccursAt(s[1..], sub, i - 1) {
      assert s[1..][i - 1..i - 1 + |sub|] == s[i..i + |sub|];
    }
  }

  /** Substring search: true exactly when `sub` occurs somewhere in `s`. */
  function Contains(s: string, sub: string): (r: bool)
    ensures r <==> exists i :: OccursAt(s, sub, i)
    decreases |s|
  {
    if |sub| > |s| then false
    else if s[..|sub|] == sub then
      assert OccursAt(s, sub, 0);
      true
    else
      OccursShift(s, sub);
      Contains(s[1..], sub)
  }

  /** The title test of filter_books: `sub` occurs in `s` when case is ignored. */
  predicate ContainsIgnoringCase(s: string, sub: string) {
    Contains(Lower(s), Lower(sub))
  }
}
