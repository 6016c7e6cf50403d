/**
 * Where a suggestion's pattern matches. The pattern (flags `gm`) is the lookbehind
 * `(?<=^|[ \t\r\.]|\W)`, the escaped target and the lookahead `(?=$|[\s\.]|\W)`: the target
 * taken literally, with no word character directly before or after it.
 */
module Matcher {
  import opened Wrappers
  import opened Strings
  import opened Escape

  /** No word character directly before position `i`. */
  predicate BoundaryBefore(doc: string, i: nat)
    requires i <= |doc|
  {
    i == 0 || !IsWordChar(doc[i - 1])
  }

  /** No word character directly at position `j`. */
  predicate BoundaryAfter(doc: string, j: nat)
    requires j <= |doc|
  {
    j == |doc| || !IsWordChar(doc[j])
  }

  /** The target occurs literally at `i` as a whole word. */
  predicate MatchAt(doc: string, target: string, i: nat) {
    i + |target| <= |doc| && doc[i..i + |target|] == target
    && BoundaryBefore(doc, i) && BoundaryAfter(doc, i + |target|)
  }

  /** The lookbehind alternative by alternative: `^` (multiline), `[ \t\r\.]`, `\W`. */
  predicate LookbehindHolds(doc: string, i: nat)
    requires i <= |doc|
  {
    i == 0 || IsLineTerminator(doc[i - 1])
    || doc[i - 1] == ' ' || doc[i - 1] == '\t' || doc[i - 1] == '\r' || doc[i - 1] == '.'
    || !IsWordChar(doc[i - 1])
  }

  /** The lookahead alternative by alternative: `$` (multiline), `[\s\.]`, `\W`. */
  predicate LookaheadHolds(doc: string, j: nat)
    requires j <= |doc|
  {
    j == |doc| || IsLineTerminator(doc[j])
    || IsJsWhitespace(doc[j]) || doc[j] == '.'
    || !IsWordChar(doc[j])
  }

  /**
   * The pattern source `src` matches at `i`: its middle part unescapes to a literal that
   * stands at `i`, and both lookarounds hold around it.
   */
  predicate PatternMatchAt(doc: string, src: string, i: nat) {
    match TargetOfSource(src)
    case None => false
    case Some(t) =>
      i + |t| <= |doc| && doc[i..i + |t|] == t && LookbehindHolds(doc, i) && LookaheadHolds(doc, i + |t|)
  }

  /** The lookarounds add nothing beyond "no word character on either side". */
  lemma LookaroundsAreWordBoundaries(doc: string, i: nat)
    requires i <= |doc|
    ensures LookbehindHolds(doc, i) <==> BoundaryBefore(doc, i)
    ensures LookaheadHolds(doc, i) <==> BoundaryAfter(doc, i)
  {
  }

  /** A suggestion's pattern matches exactly where its target stands as a whole word. */
  lemma PatternMatchesTarget(doc: string, target: string, i: nat)
    ensures PatternMatchAt(doc, RegexSource(target), i) <==> MatchAt(doc, target, i)
  {
    SourceRoundTrip(target);
    if i + |target| <= |doc| {
      LookaroundsAreWordBoundaries(doc, i);
      LookaroundsAreWordBoundaries(doc, i + |target|);
    }
  }

  /** A match: the positions [start, end) of the document. */
  datatype Match = Match(start: nat, end: nat)

  /**
   * The matches a global (`g`) scan reports from `pos` on: the first match at or after the
   * scan position, then the scan resumes at that match's end.
   */
  function FindFrom(doc: string, target: string, pos: nat): (r: seq<Match>)
    requires target != [] && pos <= |doc|
    ensures forall m :: m in r ==> pos <= m.start && m.end == m.start + |target| <= |doc|
    decreases |doc| - pos
  {
    if pos + |target| > |doc| then []
    else if MatchAt(doc, target, pos) then [Match(pos, pos + |target|)] + FindFrom(doc, target, pos + |target|)
    else FindFrom(doc, target, pos + 1)
  }

  /** All matches of a target in the document. */
  function FindAll(doc: string, target: string): (r: seq<Match>)
    requires target != []
    ensures forall k :: 0 <= k < |r| ==> r[k].end <= |doc|
  {
    FindFrom(doc, target, 0)
  }

  /** Every reported match is a whole-word occurrence of the target. */
  lemma {:induction false} FindFromSound(doc: string, target: string, pos: nat)
    requires target != [] && pos <= |doc|
    ensures forall m :: m in FindFrom(doc, target, pos) ==> MatchAt(doc, target, m.start)
    decreases |doc| - pos
  {
    if pos + |target| <= |doc| {
      if MatchAt(doc, target, pos) {
        FindFromFound(doc, target, pos);
        FindFromSound(doc, target, pos + |target|);
      } else {
        FindFromSkipped(doc, target, pos);
        FindFromSound(doc, target, pos + 1);
      }
    }
  }

  /** Matches come in order and do not overlap. */
  predicate Ordered(r: seq<Match>) {
    forall k :: 0 <= k < |r| - 1 ==> r[k].end <= r[k + 1].start
  }

  /** The scan reports its matches left to right, without overlap. */
  lemma {:induction false} FindFromOrdered(doc: string, target: string, pos: nat)
    requires target != [] && pos <= |doc|
    ensures Ordered(FindFrom(doc, target, pos))
    decreases |doc| - pos, 1
  {
    if pos + |target| <= |doc| {
      if MatchAt(doc, target, pos) {
        FindFromFound(doc, target, pos);
        OrderedAfterMatch(doc, target, pos);
      } else {
        FindFromSkipped(doc, target, pos);
        FindFromOrdered(doc, target, pos + 1);
      }
    }
  }

  /** The same, once the scan has reported a match at its position. */
  lemma {:induction false} OrderedAfterMatch(doc: string, target: string, pos: nat)
    requires target != [] && pos + |target| <= |doc|
    requires FindFrom(doc, target, pos) == [Match(pos, pos + |target|)] + FindFrom(doc, target, pos + |target|)
    ensures Ordered(FindFrom(doc, target, pos))
    decreases |doc| - pos, 0
  {
    FindFromOrdered(doc, target, pos + |target|);
    OrderedCons(FindFrom(doc, target, pos), Match(pos, pos + |target|), FindFrom(doc, target, pos + |target|));
  }

  /** A match ending no later than every match of an ordered list can go in front of it. */
  lemma OrderedCons(r: seq<Match>, m: Match, rest: seq<Match>)
    requires r == [m] + rest
    requires Ordered(rest) && forall n :: n in rest ==> m.end <= n.start
    ensures Ordered(r)
  {
    forall k | 0 <= k < |r| - 1
      ensures r[k].end <= r[k + 1].start
    {
      assert r[k + 1] == rest[k];
      if k > 0 {
        assert r[k] == rest[k - 1];
      }
    }
  }

  /** Position `i` lies inside one of the matches `r`. */
  predicate Covered(r: seq<Match>, i: nat) {
    exists k :: 0 <= k < |r| && r[k].start <= i < r[k].end
  }

  /** Every whole-word occurrence at or after the scan position overlaps a reported match. */
  lemma {:induction false} FindFromComplete(doc: string, target: string, pos: nat, i: nat)
    requires target != [] && pos <= i && pos <= |doc|
    requires MatchAt(doc, target, i)
    ensures Covered(FindFrom(doc, target, pos), i)
    decreases |doc| - pos, 1
  {
    if MatchAt(doc, target, pos) {
      FindFromFound(doc, target, pos);
      CompleteAtMatch(doc, target, pos, i);
    } else {
      assert pos + |target| <= |doc|;
      FindFromSkipped(doc, target, pos);
      FindFromComplete(doc, target, pos + 1, i);
    }
  }

  /** The same, once the scan has reported a match at its position. */
  lemma {:induction false} CompleteAtMatch(doc: string, target: string, pos: nat, i: nat)
    requires target != [] && pos <= i && pos + |target| <= |doc|
    requires FindFrom(doc, target, pos) == [Match(pos, pos + |target|)] + FindFrom(doc, target, pos + |target|)
    requires MatchAt(doc, target, i)
    ensures Covered(FindFrom(doc, target, pos), i)
    decreases |doc| - pos, 0
  {
    var m := Match(pos, pos + |target|);
    if i >= m.end {
      FindFromComplete(doc, target, m.end, i);
    }
    CoveredCons(FindFrom(doc, target, pos), m, FindFrom(doc, target, m.end), i);
  }

  /** A match at the scan position is reported first, and the scan resumes at its end. */
  lemma FindFromFound(doc: string, target: string, pos: nat)
    requires target != [] && pos <= |doc| && MatchAt(doc, target, pos)
    ensures FindFrom(doc, target, pos) == [Match(pos, pos + |target|)] + FindFrom(doc, target, pos + |target|)
  {
  }

  /** Without a match at the scan position, the scan moves on by one. */
  lemma FindFromSkipped(doc: string, target: string, pos: nat)
    requires target != [] && pos + |target| <= |doc| && !MatchAt(doc, target, pos)
    ensures FindFrom(doc, target, pos) == FindFrom(doc, target, pos + 1)
  {
  }

  /** Covering survives putting one more match in front, and the match in front covers its own positions. */
  lemma CoveredCons(r: seq<Match>, m: Match, rest: seq<Match>, i: nat)
    requires r == [m] + rest
    requires m.start <= i < m.end || Covered(rest, i)
    ensures Covered(r, i)
  {
    if m.start <= i < m.end {
      assert r[0].start <= i < r[0].end;
    } else {
      var k :| 0 <= k < |rest| && rest[k].start <= i < rest[k].end;
      assert r[k + 1] == rest[k];
    }
  }

  /** Every whole-word occurrence in the document overlaps a reported match: none is missed. */
  lemma FindAllComplete(doc: string, target: string, i: nat)
    requires target != [] && MatchAt(doc, target, i)
    ensures Covered(FindAll(doc, target), i)
  {
    FindFromComplete(doc, target, 0, i);
  }

  /** Occurrences that do not overlap one another are each reported on their own. */
  lemma {:induction false} FindFromReportsIsolated(doc: string, target: string, pos: nat, i: nat)
    requires target != [] && pos <= i && pos <= |doc|
    requires MatchAt(doc, target, i)
    requires forall j :: pos <= j < i && i < j + |target| ==> !MatchAt(doc, target, j)
    ensures Match(i, i + |target|) in FindFrom(doc, target, pos)
    decreases |doc| - pos, 1
  {
    if i == pos {
    } else if MatchAt(doc, target, pos) {
      FindFromFound(doc, target, pos);
      IsolatedAfterMatch(doc, target, pos, i);
    } else {
      FindFromSkipped(doc, target, pos);
      FindFromReportsIsolated(doc, target, pos + 1, i);
    }
  }

  /** The same, once the scan has reported a match at its position that ends before `i`. */
  lemma {:induction false} IsolatedAfterMatch(doc: string, target: string, pos: nat, i: nat)
    requires target != [] && pos + |target| <= i <= |doc|
    requires FindFrom(doc, target, pos) == [Match(pos, pos + |target|)] + FindFrom(doc, target, pos + |target|)
    requires MatchAt(doc, target, i)
    requires forall j :: pos + |target| <= j < i && i < j + |target| ==> !MatchAt(doc, target, j)
    ensures Match(i, i + |target|) in FindFrom(doc, target, pos)
    decreases |doc| - pos, 0
  {
    FindFromReportsIsolated(doc, target, pos + |target|, i);
  }

  /** The target does not stand at `i` when its first character differs. */
  lemma FirstCharDiffers(doc: string, target: string, i: nat)
    requires target != [] && i < |doc| && doc[i] != target[0]
    ensures !MatchAt(doc, target, i)
  {
    if i + |target| <= |doc| {
      assert doc[i..i + |target|][0] == doc[i];
    }
  }

  /** "foo" stands as a whole word at the start of "foo bar". */
  lemma FooAtLineStart()
    ensures FindAll("foo bar", "foo") == [Match(0, 3)]
  {
    var d, t := "foo bar", "foo";
    assert d[0..3] == t;
    assert MatchAt(d, t, 0);
    FirstCharDiffers(d, t, 3);
    FirstCharDiffers(d, t, 4);
    assert FindFrom(d, t, 3) == FindFrom(d, t, 4) == FindFrom(d, t, 5) == [];
  }

  /** "foo" followed by a full stop is a whole word. */
  lemma FooBeforeFullStop()
    ensures FindAll("say foo.", "foo") == [Match(4, 7)]
  {
    var d, t := "say foo.", "foo";
    FirstCharDiffers(d, t, 0);
    FirstCharDiffers(d, t, 1);
    FirstCharDiffers(d, t, 2);
    FirstCharDiffers(d, t, 3);
    assert d[4..7] == t;
    assert MatchAt(d, t, 4);
    assert FindFrom(d, t, 7) == [];
  }

  /** Parentheses are non-word characters, so "(foo)" holds a match. */
  lemma FooInParentheses()
    ensures FindAll("(foo)", "foo") == [Match(1, 4)]
  {
    var d, t := "(foo)", "foo";
    FirstCharDiffers(d, t, 0);
    assert d[1..4] == t;
    assert MatchAt(d, t, 1);
    assert FindFrom(d, t, 4) == [];
  }

  /** Inside "foobar" and "barfoo", "foo" touches a word character and is no match. */
  lemma FooInsideWords()
    ensures FindAll("foobar", "foo") == []
    ensures FindAll("barfoo", "foo") == []
  {
    var t := "foo";
    var d := "foobar";
    assert !MatchAt(d, t, 0) by { assert IsWordChar(d[3]); }
    FirstCharDiffers(d, t, 1);
    FirstCharDiffers(d, t, 2);
    FirstCharDiffers(d, t, 3);
    assert FindFrom(d, t, 4) == [];
    var e := "barfoo";
    FirstCharDiffers(e, t, 0);
    FirstCharDiffers(e, t, 1);
    FirstCharDiffers(e, t, 2);
    assert !MatchAt(e, t, 3) by { assert IsWordChar(e[2]); }
    assert FindFrom(e, t, 4) == [];
  }

}
