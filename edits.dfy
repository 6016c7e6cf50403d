/**
 * What a matched suggestion shows in the editor and what clicking it does: `modifyHighlight`
 * styles the match and adds a `Replacement` widget; the widget's click handler dispatches
 * one text change.
 */
module Edits {
  import opened Wrappers
  import opened Strings
  import opened Document
  import opened Parser
  import opened Matcher

  /** The `Replacement` widget: the text it shows, its colour and the document range it acts on. */
  datatype Widget = Replacement(text: string, color: string, from: nat, to: nat, remove: bool)

  /** `Decoration.replace` over a range, or `Decoration.widget` at one position. */
  datatype Decoration =
    | ReplaceRange(from: nat, to: nat, widget: Widget)
    | PointWidget(at: nat, widget: Widget)
  {
    function WidgetOf(): Widget {
      match this
      case ReplaceRange(_, _, w) => w
      case PointWidget(_, w) => w
    }
  }

  /** The mark parameters of the highlighted match: its class and an optional inline style. */
  datatype MarkParams = MarkParams(cls: string, style: Option<string>)

  /** What `modifyHighlight` leaves behind: the updated mark parameters and the decoration it adds, if any. */
  datatype Highlight = Highlight(mark: MarkParams, decoration: Option<Decoration>)

  /** A CodeMirror change: replace [from, to) with `insert`. */
  datatype Change = Change(from: nat, to: nat, insert: string)

  /**
   * `modifyHighlight` for the match of length `length` at `index` of the range that starts at
   * `from`. An empty colour stands for an absent one.
   */
  function ModifyHighlight(hl: Suggestion, from: nat, index: nat, length: nat, mark: MarkParams, doc: string): (r: Highlight)
    requires from + index + length <= |doc|
    ensures r.mark.style == if hl.color != [] then Some("color: " + hl.color) else mark.style
    ensures r.mark.cls == if !hl.remove && hl.replacement != [] then mark.cls + " replaced" else mark.cls
    ensures r.decoration.Some? <==> hl.remove || hl.replacement != []
    ensures r.decoration.Some? ==>
      var w := r.decoration.value.WidgetOf();
      w.from == from + index && w.to == from + index + length && w.color == hl.color && w.remove == hl.remove
    ensures hl.remove ==>
      r.decoration.value.ReplaceRange?
      && r.decoration.value.from == from + index && r.decoration.value.to == from + index + length
      && r.decoration.value.widget.text == doc[from + index..from + index + length]
    ensures !hl.remove && hl.replacement != [] ==>
      r.decoration.value.PointWidget?
      && r.decoration.value.at == from + index + length && r.decoration.value.widget.text == hl.replacement
  {
    var start, end := from + index, from + index + length;
    var styled := if hl.color != [] then mark.(style := Some("color: " + hl.color)) else mark;
    if hl.remove then
      Highlight(styled, Some(ReplaceRange(start, end, Replacement(doc[start..end], hl.color, start, end, true))))
    else if hl.replacement != [] then
      Highlight(styled.(cls := styled.cls + " replaced"),
                Some(PointWidget(end, Replacement(hl.replacement, hl.color, start, end, false))))
    else
      Highlight(styled, None)
  }

  /**
   * The change the widget's click handler dispatches. A removal also takes the character after
   * the match, unless the match ends at the end of its line.
   */
  function ClickChange(w: Widget, doc: string): (c: Change)
    requires w.from <= w.to <= |doc|
    ensures c.from == w.from && c.insert == (if w.remove then "" else w.text)
    ensures c.to == w.to || c.to == w.to + 1
    ensures c.to == w.to + 1 <==> w.remove && w.to < |doc| && doc[w.to] != '\n'
    ensures c.from <= c.to <= |doc|
  {
    var toOffset := if w.remove && w.to < LineEnd(doc, w.to) then 1 else 0;
    Change(w.from, w.to + toOffset, if w.remove then "" else w.text)
  }

  /** Applying a change keeps the text before and after the replaced range and puts `insert` between. */
  function Apply(doc: string, c: Change): (r: string)
    requires c.from <= c.to <= |doc|
    ensures |r| == |doc| - (c.to - c.from) + |c.insert|
    ensures r[..c.from] == doc[..c.from]
    ensures r[c.from..c.from + |c.insert|] == c.insert
    ensures r[c.from + |c.insert|..] == doc[c.to..]
  {
    doc[..c.from] + c.insert + doc[c.to..]
  }

  /** The document after the widget is clicked. */
  function Activate(w: Widget, doc: string): string
    requires w.from <= w.to <= |doc|
  {
    Apply(doc, ClickChange(w, doc))
  }

  /** Inserting nothing at a point leaves the document as it is. */
  lemma EmptyInsert(doc: string, at: nat)
    requires at <= |doc|
    ensures Apply(doc, Change(at, at, "")) == doc
  {
    assert doc[..at] + "" + doc[at..] == doc;
  }

  /** A string is determined by its three pieces around a range. */
  lemma Pieces(r: string, a: string, m: string, b: string)
    requires |r| == |a| + |m| + |b|
    requires r[..|a|] == a && r[|a|..|a| + |m|] == m && r[|a| + |m|..] == b
    ensures r == a + m + b
  {
  }

  /** Clicking a replacement swaps exactly the matched range for the replacement text. */
  lemma ActivateReplacement(w: Widget, doc: string)
    requires w.from <= w.to <= |doc| && !w.remove
    ensures Activate(w, doc) == doc[..w.from] + w.text + doc[w.to..]
  {
    var c := ClickChange(w, doc);
    Pieces(Apply(doc, c), doc[..w.from], w.text, doc[w.to..]);
  }

  /**
   * Clicking a removal deletes the range, together with the one character after it when that
   * character is on the same line.
   */
  lemma ActivateRemoval(w: Widget, doc: string)
    requires w.from <= w.to <= |doc| && w.remove
    ensures w.to < |doc| && doc[w.to] != '\n' ==> Activate(w, doc) == doc[..w.from] + doc[w.to + 1..]
    ensures w.to == |doc| || doc[w.to] == '\n' ==> Activate(w, doc) == doc[..w.from] + doc[w.to..]
  {
    var c := ClickChange(w, doc);
    Pieces(Apply(doc, c), doc[..w.from], [], doc[c.to..]);
  }

  /** A removal never deletes a line break outside the removed range, so the lines around it stay apart. */
  lemma RemovalKeepsLineBreaks(w: Widget, doc: string)
    requires w.from <= w.to <= |doc| && w.remove
    ensures Count(Activate(w, doc), '\n') == Count(doc, '\n') - Count(doc[w.from..w.to], '\n')
  {
    var before, removed, after := doc[..w.from], doc[w.from..w.to], doc[w.to..];
    var kept := if w.to < |doc| && doc[w.to] != '\n' then doc[w.to + 1..] else after;
    assert Activate(w, doc) == before + kept by {
      ActivateRemoval(w, doc);
    }
    assert doc == before + removed + after by {
      SplitThree(doc, w.from, w.to);
    }
    CountAfterRemoval(before, removed, after, kept);
  }

  /** Deleting `removed`, and possibly one character after it that is not a line break, loses only the line breaks of `removed`. */
  lemma CountAfterRemoval(before: string, removed: string, after: string, kept: string)
    requires kept == after || (after != [] && after[0] != '\n' && kept == after[1..])
    ensures Count(before + kept, '\n') == Count(before + removed + after, '\n') - Count(removed, '\n')
  {
    Count3(before, removed, after);
    CountConcat(before, kept, '\n');
  }

  lemma Count3(a: string, b: string, c: string)
    ensures Count(a + b + c, '\n') == Count(a, '\n') + Count(b, '\n') + Count(c, '\n')
  {
    CountConcat(a + b, c, '\n');
    CountConcat(a, b, '\n');
  }

  /**
   * Accepting a replacement suggestion at one of its matches: the document then has the
   * replacement in place of the matched target, and nothing else changes.
   */
  lemma AcceptReplacement(hl: Suggestion, from: nat, index: nat, mark: MarkParams, doc: string)
    requires WellFormed(hl) && hl.replacement != []
    requires MatchAt(doc, hl.target, from + index)
    ensures var d := ModifyHighlight(hl, from, index, |hl.target|, mark, doc).decoration;
      d.Some? && Activate(d.value.WidgetOf(), doc)
        == doc[..from + index] + hl.replacement + doc[from + index + |hl.target|..]
  {
    var d := ModifyHighlight(hl, from, index, |hl.target|, mark, doc).decoration;
    ActivateReplacement(d.value.WidgetOf(), doc);
  }

  /**
   * Accepting a removal suggestion at one of its matches deletes the target and, unless the
   * target ends its line, the non-word character that follows it.
   */
  lemma AcceptRemoval(hl: Suggestion, from: nat, index: nat, mark: MarkParams, doc: string)
    requires WellFormed(hl) && hl.remove
    requires MatchAt(doc, hl.target, from + index)
    ensures var d := ModifyHighlight(hl, from, index, |hl.target|, mark, doc).decoration;
      var s, e := from + index, from + index + |hl.target|;
      d.Some?
      && (e < |doc| && doc[e] != '\n' ==> !IsWordChar(doc[e]) && Activate(d.value.WidgetOf(), doc) == doc[..s] + doc[e + 1..])
      && (e == |doc| || doc[e] == '\n' ==> Activate(d.value.WidgetOf(), doc) == doc[..s] + doc[e..])
  {
    var d := ModifyHighlight(hl, from, index, |hl.target|, mark, doc).decoration;
    ActivateRemoval(d.value.WidgetOf(), doc);
  }

  /** Removing a word `w` between `p` and a character `c` other than a line break deletes `w` and `c`. */
  lemma RemoveBeforeCharacter(p: string, w: string, c: char, q: string)
    requires c != '\n'
    ensures Activate(Replacement(w, "", |p|, |p| + |w|, true), p + w + [c] + q) == p + q
  {
    var doc := p + w + [c] + q;
    ActivateRemoval(Replacement(w, "", |p|, |p| + |w|, true), doc);
    assert doc[..|p|] == p && doc[|p| + |w| + 1..] == q;
  }

  /** Removing a word `w` that ends its line deletes just `w`. */
  lemma RemoveAtLineEnd(p: string, w: string, q: string)
    requires q == [] || q[0] == '\n'
    ensures Activate(Replacement(w, "", |p|, |p| + |w|, true), p + w + q) == p + q
  {
    var doc := p + w + q;
    ActivateRemoval(Replacement(w, "", |p|, |p| + |w|, true), doc);
    assert doc[..|p|] == p && doc[|p| + |w|..] == q;
  }

  /** Replacing the word `w` between `p` and `q` by `x`. */
  lemma ReplaceWord(p: string, w: string, x: string, q: string)
    ensures Activate(Replacement(x, "", |p|, |p| + |w|, false), p + w + q) == p + x + q
  {
    var doc := p + w + q;
    ActivateReplacement(Replacement(x, "", |p|, |p| + |w|, false), doc);
    assert doc[..|p|] == p && doc[|p| + |w|..] == q;
  }

  /** Removing "this" from "cut this out" also takes the space after it. */
  lemma RemovalExample()
    ensures Activate(Replacement("this", "", 4, 8, true), "cut this out") == "cut out"
  {
    RemoveBeforeCharacter("cut ", "this", ' ', "out");
    assert "cut " + "this" + [' '] + "out" == "cut this out";
    assert "cut " + "out" == "cut out";
  }

  /** Removing the last word of a line keeps the line break after it. */
  lemma RemovalAtLineEndExample()
    ensures Activate(Replacement("this", "", 5, 9, true), "drop this\nnext") == "drop \nnext"
  {
    RemoveAtLineEnd("drop ", "this", "\nnext");
    assert "drop " + "this" + "\nnext" == "drop this\nnext";
    assert "drop " + "\nnext" == "drop \nnext";
  }

  /** The character taken with a removal need not be a space: removing "foo" from "say foo." takes the full stop. */
  lemma RemovalTakesFullStopExample()
    ensures Activate(Replacement("foo", "", 4, 7, true), "say foo.") == "say "
  {
    RemoveBeforeCharacter("say ", "foo", '.', "");
    assert "say " + "foo" + ['.'] + "" == "say foo.";
    assert "say " + "" == "say ";
  }

  /** Replacing "foo" by "XYZ" in "the foo bar". */
  lemma ReplacementExample()
    ensures Activate(Replacement("XYZ", "", 4, 7, false), "the foo bar") == "the XYZ bar"
  {
    ReplaceWord("the ", "foo", "XYZ", " bar");
    assert "the " + "foo" + " bar" == "the foo bar";
    assert "the " + "XYZ" + " bar" == "the XYZ bar";
  }

}
