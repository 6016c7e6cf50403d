/**
 * Authoring a suggestion (`suggestionPopup`): when the editor has focus and a non-empty
 * selection on one line, a button is offered. Pressing it widens the selection to whole
 * words, appends `|<text> -> |` to the comment on that line (creating the comment if there
 * is none) and puts the caret just before the closing `|`, where the replacement is typed.
 */
module Authoring {
  import opened Wrappers
  import opened Strings
  import opened Document
  import opened Parser
  import opened Edits

  /** The main selection: the fixed end and the moving end. */
  datatype Selection = Selection(anchor: nat, head: nat)
  {
    /** The lower end. */
    function From(): nat {
      if anchor <= head then anchor else head
    }

    /** The upper end. */
    function To(): nat {
      if anchor <= head then head else anchor
    }
  }

  /** The button is shown when the editor has focus and the selection is non-empty and on one line. */
  predicate ShowsButton(hasFocus: bool, sel: Selection, doc: string)
    requires sel.anchor <= |doc| && sel.head <= |doc|
  {
    hasFocus && sel.head != sel.anchor && LineNumber(doc, sel.head) == LineNumber(doc, sel.anchor)
  }

  /** The button is shown exactly for a non-empty selection with no line break in it. */
  lemma ShowsButtonMeaning(hasFocus: bool, sel: Selection, doc: string)
    requires sel.anchor <= |doc| && sel.head <= |doc|
    ensures ShowsButton(hasFocus, sel, doc) <==> hasFocus && sel.From() < sel.To() && '\n' !in doc[sel.From()..sel.To()]
  {
    SameLine(doc, sel.From(), sel.To());
  }

  /** The class `[ \t\r\W]`. */
  predicate InBoundaryClass(c: char) {
    c == ' ' || c == '\t' || c == '\r' || !IsWordChar(c)
  }

  /** `wordBoundaryRegex.test(s)`: some character of `s` is not a word character. */
  function BoundaryTest(s: string): (r: bool)
    ensures r <==> exists i :: 0 <= i < |s| && !IsWordChar(s[i])
  {
    if s == [] then false
    else if InBoundaryClass(s[0]) then assert !IsWordChar(s[0]); true
    else
      var rest := BoundaryTest(s[1..]);
      assert forall i :: 1 <= i < |s| ==> s[i] == s[1..][i - 1];
      rest
  }

  /** `doc.sliceString(from, to)`: positions past the end of the document are clamped to it. */
  function SliceString(doc: string, from: nat, to: nat): (r: string)
    requires from <= to
    ensures to <= |doc| ==> r == doc[from..to]
    ensures from <= |doc| < to ==> r == doc[from..]
    ensures |doc| < from ==> r == []
  {
    var a := if from <= |doc| then from else |doc|;
    var b := if to <= |doc| then to else |doc|;
    doc[a..b]
  }

  /** The one-character slice at `pos` fails the test exactly at a word character or past the end. */
  lemma BoundaryAt(doc: string, pos: nat)
    ensures BoundaryTest(SliceString(doc, pos, pos + 1)) <==> pos < |doc| && !IsWordChar(doc[pos])
  {
    if pos < |doc| {
      assert SliceString(doc, pos, pos + 1) == [doc[pos]];
    }
  }

  /**
   * `newFrom` is the selection start widened leftwards over word characters: it stops at the
   * line start or just after a non-word character.
   */
  predicate LeftExpansion(doc: string, lineFrom: nat, selFrom: nat, newFrom: nat)
    requires lineFrom <= selFrom <= |doc|
  {
    lineFrom <= newFrom <= selFrom
    && (forall k :: newFrom <= k < selFrom ==> IsWordChar(doc[k]))
    && (newFrom == lineFrom || !IsWordChar(doc[newFrom - 1]))
  }

  /**
   * `newTo` is the selection end widened rightwards over word characters: it stops at a
   * non-word character (the line break included) or one past the end of the last line.
   */
  predicate RightExpansion(doc: string, selTo: nat, lineTo: nat, newTo: nat)
    requires selTo <= lineTo <= |doc|
  {
    selTo <= newTo <= lineTo + 1
    && (forall k :: selTo <= k < newTo && k < |doc| ==> IsWordChar(doc[k]))
    && (newTo == lineTo + 1 || (newTo < |doc| && !IsWordChar(doc[newTo])))
  }

  /** The widening to the left has one outcome. */
  lemma LeftExpansionUnique(doc: string, lineFrom: nat, selFrom: nat, a: nat, b: nat)
    requires lineFrom <= selFrom <= |doc|
    requires LeftExpansion(doc, lineFrom, selFrom, a) && LeftExpansion(doc, lineFrom, selFrom, b)
    ensures a == b
  {
  }

  /** The widening to the right has one outcome. */
  lemma RightExpansionUnique(doc: string, selTo: nat, lineTo: nat, a: nat, b: nat)
    requires selTo <= lineTo <= |doc|
    requires RightExpansion(doc, selTo, lineTo, a) && RightExpansion(doc, selTo, lineTo, b)
    ensures a == b
  {
  }

  /** On a line that a line break ends, widening to the right stops at the line break at the latest. */
  lemma RightExpansionStaysOnLine(doc: string, selTo: nat, lineTo: nat, newTo: nat)
    requires selTo <= lineTo < |doc| && doc[lineTo] == '\n'
    requires RightExpansion(doc, selTo, lineTo, newTo)
    ensures newTo <= lineTo
  {
  }

  /** The loop that moves the start left while the character before it is a word character. */
  method ExpandLeft(doc: string, lineFrom: nat, selFrom: nat) returns (newFrom: nat)
    requires lineFrom <= selFrom <= |doc|
    ensures LeftExpansion(doc, lineFrom, selFrom, newFrom)
  {
    var pos: int := selFrom - 1;
    while pos >= lineFrom
      invariant lineFrom - 1 <= pos < selFrom
      invariant forall k :: pos < k < selFrom ==> IsWordChar(doc[k])
    {
      BoundaryAt(doc, pos);
      if BoundaryTest(SliceString(doc, pos, pos + 1)) {
        break;
      }
      pos := pos - 1;
    }
    newFrom := pos + 1;
  }

  /** The loop that moves the end right while the character at it is a word character. */
  method ExpandRight(doc: string, selTo: nat, lineTo: nat) returns (newTo: nat)
    requires selTo <= lineTo <= |doc|
    ensures RightExpansion(doc, selTo, lineTo, newTo)
  {
    var pos: nat := selTo;
    while pos <= lineTo
      invariant selTo <= pos <= lineTo + 1
      invariant forall k :: selTo <= k < pos && k < |doc| ==> IsWordChar(doc[k])
      decreases lineTo + 1 - pos
    {
      BoundaryAt(doc, pos);
      if BoundaryTest(SliceString(doc, pos, pos + 1)) {
        break;
      }
      pos := pos + 1;
    }
    newTo := pos;
  }

  /** A range of word characters around a range without line breaks has no line break. */
  lemma WidenedRange(doc: string, newFrom: nat, from: nat, to: nat, end: nat)
    requires newFrom <= from <= to <= end <= |doc|
    requires forall k :: newFrom <= k < from ==> IsWordChar(doc[k])
    requires forall k :: from <= k < to ==> doc[k] != '\n'
    requires forall k :: to <= k < end ==> IsWordChar(doc[k])
    ensures doc[newFrom..end] == doc[newFrom..from] + doc[from..to] + doc[to..end]
    ensures '\n' !in doc[newFrom..end]
  {
    SplitRange(doc, newFrom, from, to, end);
    forall i | 0 <= i < end - newFrom
      ensures doc[newFrom..end][i] != '\n'
    {
      assert doc[newFrom..end][i] == doc[newFrom + i];
    }
  }

  /**
   * Widening keeps the selected text in the middle, adds only word characters around it and
   * stays on the selection's line.
   */
  lemma ExpandedText(doc: string, sel: Selection, newFrom: nat, newTo: nat)
    requires sel.anchor <= |doc| && sel.head <= |doc|
    requires '\n' !in doc[sel.From()..sel.To()] && sel.To() <= LineEnd(doc, sel.From())
    requires LeftExpansion(doc, LineStart(doc, sel.From()), sel.From(), newFrom)
    requires RightExpansion(doc, sel.To(), LineEnd(doc, sel.From()), newTo)
    ensures var end := if newTo <= |doc| then newTo else |doc|;
      end <= LineEnd(doc, sel.From())
      && SliceString(doc, newFrom, newTo) == doc[newFrom..sel.From()] + doc[sel.From()..sel.To()] + doc[sel.To()..end]
    ensures '\n' !in SliceString(doc, newFrom, newTo)
  {
    var from, to := sel.From(), sel.To();
    var end := if newTo <= |doc| then newTo else |doc|;
    var lineTo := LineEnd(doc, from);
    assert end <= lineTo;
    NotInRange(doc, '\n', from, to);
    WidenedRange(doc, newFrom, from, to, end);
  }

  /** The text appended to the comment: `|<selected> -> |`, on a line of its own in an existing comment. */
  function AnnotationText(selected: string, existing: bool): string {
    (if existing then "\n" else "") + "|" + selected + " -> |"
  }

  /** Where the annotation goes: the comment already on the line, or a new comment for that line. */
  datatype CommentTarget = ExistingComment(id: string) | NewComment(line: nat)

  /** What pressing the button does: append `text` to `comment`; [from, to) is the widened range. */
  datatype Draft = Draft(comment: CommentTarget, from: nat, to: nat, text: string)

  /** `findCommentOn(line)?.commentId` names an existing comment when it is present and not empty. */
  function ExistingId(found: Option<string>): (r: Option<string>)
    ensures r.Some? <==> found.Some? && found.value != []
    ensures r.Some? ==> r.value == found.value
  {
    if found.Some? && found.value != [] then found else None
  }

  /**
   * `suggestionPopup` and its button's handler: None when the button is hidden, otherwise the
   * draft the handler writes. `findCommentOn` maps a line number to the comment id found on it.
   */
  method SuggestionPopup(doc: string, hasFocus: bool, sel: Selection, findCommentOn: nat -> Option<string>)
    returns (draft: Option<Draft>)
    requires sel.anchor <= |doc| && sel.head <= |doc|
    ensures draft.Some? <==> ShowsButton(hasFocus, sel, doc)
    ensures draft.Some? ==>
      var line := LineNumber(doc, sel.From());
      var found := ExistingId(findCommentOn(line));
      var d := draft.value;
      sel.To() <= LineEnd(doc, sel.From())
      && LeftExpansion(doc, LineStart(doc, sel.From()), sel.From(), d.from)
      && RightExpansion(doc, sel.To(), LineEnd(doc, sel.From()), d.to)
      && d.text == AnnotationText(SliceString(doc, d.from, d.to), found.Some?)
      && d.comment == (if found.Some? then ExistingComment(found.value) else NewComment(line))
  {
    if !hasFocus || sel.head == sel.anchor || LineNumber(doc, sel.head) != LineNumber(doc, sel.anchor) {
      return None;
    }
    var from, to := sel.From(), sel.To();
    ShowsButtonMeaning(hasFocus, sel, doc);
    EndsOnLine(doc, from, to);
    var lineFrom, lineTo, lineNumber := LineStart(doc, from), LineEnd(doc, from), LineNumber(doc, from);
    var suggestionFrom := ExpandLeft(doc, lineFrom, from);
    var suggestionTo := ExpandRight(doc, to, lineTo);
    var id := ExistingId(findCommentOn(lineNumber));
    var text := AnnotationText(SliceString(doc, suggestionFrom, suggestionTo), id.Some?);
    var comment := if id.Some? then ExistingComment(id.value) else NewComment(lineNumber);
    return Some(Draft(comment, suggestionFrom, suggestionTo, text));
  }

  /** The comment text after the draft is appended, and the caret placed one before its end. */
  function AppendDraft(commentText: string, d: Draft): (r: (string, nat))
    requires |d.text| >= 1
    ensures r.0 == commentText + d.text && r.1 + 1 == |r.0|
  {
    var t := commentText + d.text;
    (t, |t| - 1)
  }

  /** Once an annotation is appended, the caret lands just before its closing `|`, after ` -> `. */
  lemma CaretBeforeClosingPipe(commentText: string, d: Draft, selected: string, existing: bool)
    requires d.text == AnnotationText(selected, existing)
    ensures var (t, caret) := AppendDraft(commentText, d);
      t[..caret] == commentText + (if existing then "\n" else "") + "|" + selected + " -> " && t[caret..] == "|"
  {
  }

  /** Typing `r` at the caret puts it between the arrow and the closing `|`. */
  lemma TypeAtCaret(commentText: string, d: Draft, selected: string, existing: bool, r: string)
    requires d.text == AnnotationText(selected, existing)
    ensures var (t, caret) := AppendDraft(commentText, d);
      Apply(t, Change(caret, caret, r))
        == commentText + ((if existing then "\n" else "") + ("|" + (selected + " ") + "->" + (" " + r) + "|"))
  {
    var (t, caret) := AppendDraft(commentText, d);
    var p := if existing then "\n" else "";
    var head := commentText + p + "|" + selected + " -> ";
    assert t[..caret] == head && t[caret..] == "|" by {
      CaretBeforeClosingPipe(commentText, d, selected, existing);
    }
    assert Apply(t, Change(caret, caret, r)) == t[..caret] + r + t[caret..];
    EntryLayout(commentText, p, selected, r);
  }

  /** The typed annotation read as the comment, the prefix and an arrow entry `|A->B|`. */
  lemma EntryLayout(c: string, p: string, x: string, r: string)
    ensures c + p + "|" + x + " -> " + r + "|" == c + (p + ("|" + (x + " ") + "->" + (" " + r) + "|"))
  {
    assert " -> " == " " + "->" + " ";
  }

  /**
   * Typing `r` at the caret completes the annotation to `|<selected> -> <r>|`: the comment then
   * parses to what it held before followed by one suggestion for the selected text, a
   * replacement by `trimStart(r)` or, while nothing has been typed, a removal.
   */
  lemma {:induction false} DraftRoundTrip(before: string, d: Draft, selected: string, existing: bool, r: string, id: string, color: string)
    requires d.text == AnnotationText(selected, existing)
    requires Count(before, '|') % 2 == 0
    requires '|' !in selected && '|' !in r && !HasArrow(selected) && TrimEnd(selected) != []
    ensures var (t, caret) := AppendDraft(before, d);
      Parse(Apply(t, Change(caret, caret, r)), id, color)
        == Parse(before, id, color) + [Suggestion(TrimEnd(selected), TrimStart(r), TrimStart(r) == [], id, color)]
  {
    var prefix := if existing then "\n" else "";
    var a, b := selected + " ", " " + r;
    var entry := "|" + a + "->" + b + "|";
    TypeAtCaret(before, d, selected, existing, r);
    ParseConcat(before, prefix + entry, id, color);
    ParseNoPipePrefix(prefix, entry, id, color);
    NoArrowBefore(selected, ' ');
    TrimEndSpace(selected);
    TrimStartSpace(r);
    ArrowEntry(a, b, id, color);
  }

  /** Before anything is typed, the appended annotation reads as a removal of the selected text. */
  lemma AnnotationIsRemoval(before: string, d: Draft, selected: string, existing: bool, id: string, color: string)
    requires d.text == AnnotationText(selected, existing)
    requires Count(before, '|') % 2 == 0
    requires '|' !in selected && !HasArrow(selected) && TrimEnd(selected) != []
    ensures Parse(AppendDraft(before, d).0, id, color)
         == Parse(before, id, color) + [Suggestion(TrimEnd(selected), "", true, id, color)]
  {
    var (t, caret) := AppendDraft(before, d);
    DraftRoundTrip(before, d, selected, existing, "", id, color);
    EmptyInsert(t, caret);
  }

  /**
   * An existing comment whose text ends in an unclosed `|A` swallows the annotation: the old `|`
   * closes at the annotation's opening `|`, so `A` with the line break becomes a highlight entry,
   * the annotation's own closing `|` is left unclosed, and no removal is suggested.
   */
  lemma UnclosedPipeSwallowsAnnotation(a: string, selected: string, id: string, color: string)
    requires '|' !in a && '|' !in selected && !HasArrow(a)
    ensures Parse("|" + a + AnnotationText(selected, true), id, color) == [Suggestion(a + "\n", "", false, id, color)]
  {
    var rest := selected + " -> ";
    assert "|" + a + AnnotationText(selected, true) == "" + "|" + (a + "\n") + "|" + (rest + "|");
    ParseStep("", a + "\n", rest + "|", id, color);
    TrailingPipeOnly(rest, id, color);
    NoArrowBefore(a, '\n');
    EntryWithoutArrow(a + "\n", id, color);
  }

  /** Selecting "uic" in "the quick brown fox" widens to "quick" and appends `|quick -> |`. */
  lemma QuickExample(n: nat, m: nat)
    requires LeftExpansion("the quick brown fox", 0, 5, n)
    requires RightExpansion("the quick brown fox", 8, 19, m)
    ensures n == 4 && m == 9
    ensures AnnotationText(SliceString("the quick brown fox", n, m), false) == "|quick -> |"
  {
    var doc := "the quick brown fox";
    assert LeftExpansion(doc, 0, 5, 4);
    LeftExpansionUnique(doc, 0, 5, n, 4);
    assert RightExpansion(doc, 8, 19, 9);
    RightExpansionUnique(doc, 8, 19, m, 9);
    assert doc[4..9] == "quick";
  }

  /** The whole line "the quick brown fox" has no line break, so it is one line of length 19. */
  lemma QuickLine()
    ensures LineStart("the quick brown fox", 5) == 0 && LineEnd("the quick brown fox", 5) == 19
  {
    var doc := "the quick brown fox";
    assert forall k :: 0 <= k < |doc| ==> doc[k] != '\n';
  }

}
