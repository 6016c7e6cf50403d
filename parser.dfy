/**
 * `parseCommentLine`: the `|target|` / `|target -> replacement|` mini-language of a comment's
 * text, read into suggestion records in left-to-right order.
 */
module Parser {
  import opened Wrappers
  import opened Strings

  /**
   * One suggestion record. The record's pattern source is a function of `target`
   * (`Escape.RegexSource`); its meaning is `Matcher.MatchAt`. `color` is "" when absent.
   */
  datatype Suggestion = Suggestion(target: string, replacement: string, remove: bool, id: string, color: string)

  /** What every emitted record satisfies, whatever the comment text. */
  predicate WellFormed(s: Suggestion) {
    && s.target != []
    && !(s.remove && s.replacement != [])
    && '|' !in s.target && '|' !in s.replacement
    && !HasArrow(s.target)
    && (s.replacement == [] || !IsJsWhitespace(s.replacement[0]))
  }

  /** The target and the replacement cut out of an arrow entry inherit its lack of `|`; the target has no arrow. */
  lemma ArrowEntryPieces(body: string, k: nat)
    requires '|' !in body && k + 2 <= |body|
    requires forall j :: 0 <= j < k ==> !ArrowAt(body, j)
    ensures '|' !in TrimEnd(body[..k]) && '|' !in TrimStart(body[k + 2..])
    ensures !HasArrow(TrimEnd(body[..k]))
  {
    var t := TrimEnd(body[..k]);
    var r := TrimStart(body[k + 2..]);
    forall i | 0 <= i < |t| ensures t[i] != '|' && t[i] == body[i] {
      assert t[i] == body[..k][i];
    }
    forall i | 0 <= i < |r| ensures r[i] != '|' {
      assert r[i] == body[k + 2..][|body| - k - 2 - |r| + i];
    }
    forall j | 0 <= j < |t| ensures !ArrowAt(t, j) {
      if ArrowAt(t, j) {
        assert ArrowAt(body, j);
      }
    }
  }

  /** The record for one entry body (the text between two `|`), or None when its target is empty. */
  function ParseEntry(body: string, id: string, color: string): (r: Option<Suggestion>)
    requires '|' !in body
    ensures r.Some? ==> WellFormed(r.value) && r.value.id == id && r.value.color == color
  {
    var k := FindArrow(body);
    if k >= 0 then
      var right := TrimStart(body[k + 2..]);
      var target := TrimEnd(body[..k]);
      ArrowEntryPieces(body, k);
      if target == [] then None
      else if right == [] then Some(Suggestion(target, "", true, id, color))
      else Some(Suggestion(target, right, false, id, color))
    else if body == [] then None
    else Some(Suggestion(body, "", false, id, color))
  }

  /** The text after the first `|`; the whole text when it has none (`indexOf` gives -1). */
  function SkipPastPipe(text: string): (r: string)
    ensures |r| <= |text|
  {
    text[IndexOf(text, '|') + 1..]
  }

  /**
   * What skipping past the first `|` leaves: the whole text when it has no `|`, and otherwise
   * the text after its first `|`, which is preceded by a `|`-free prefix.
   */
  lemma SkipPastPipeMeaning(text: string)
    ensures '|' !in text ==> SkipPastPipe(text) == text
    ensures '|' in text ==>
      var k := |text| - |SkipPastPipe(text)| - 1;
      0 <= k && '|' !in text[..k] && text == text[..k] + "|" + SkipPastPipe(text)
  {
    if '|' in text {
      var k := IndexOf(text, '|');
      assert text == text[..k] + [text[k]] + text[k + 1..];
      assert forall c :: c in text[..k] ==> exists j :: 0 <= j < k && text[j] == c;
    }
  }

  /**
   * One turn of the loop of `parseCommentLine` on a non-empty text: skip to just after the next
   * `|` (or stay put when there is none), then read up to the following `|` as one entry body.
   * Yields the body and the text after its closing `|`, or None when there is no closing `|`.
   */
  function NextEntry(text: string): (r: Option<(string, string)>)
    ensures r.Some? ==> '|' !in r.value.0 && |r.value.1| < |text|
  {
    var rest := SkipPastPipe(text);
    var endIdx := IndexOf(rest, '|');
    if endIdx == -1 then None else Some((rest[..endIdx], rest[endIdx + 1..]))
  }

  /** The record list of one entry body: empty when the body's target is empty. */
  function EntryRecords(body: string, id: string, color: string): (r: seq<Suggestion>)
    requires '|' !in body
    ensures |r| <= 1
  {
    match ParseEntry(body, id, color)
    case Some(s) => [s]
    case None => []
  }

  /** The records for a whole comment text, entry after entry, until the text is used up. */
  function Parse(text: string, id: string, color: string): seq<Suggestion>
    decreases |text|
  {
    if text == [] then []
    else
      match NextEntry(text)
      case None => []
      case Some((body, tail)) => EntryRecords(body, id, color) + Parse(tail, id, color)
  }

  /**
   * The body of the loop of `parseCommentLine` for one entry, with its variable updates: look for
   * the arrow, cut and trim the two sides, and give the record to push (none when the target is
   * empty). It is the imperative form of `ParseEntry`, proved equal to `EntryRecords`.
   */
  method ReadEntry(body: string, commentId: string, color: string) returns (records: seq<Suggestion>)
    requires '|' !in body
    ensures records == EntryRecords(body, commentId, color)
  {
    var targetStr := body;
    var replacement := "";
    var remove := false;
    var arrow := FindArrow(targetStr);
    if arrow >= 0 {
      var rightSide := TrimStart(targetStr[arrow + 2..]);
      if |rightSide| == 0 {
        remove := true;
      } else {
        replacement := rightSide;
      }
      targetStr := TrimEnd(targetStr[..arrow]);
      ArrowEntryRecords(body, arrow, commentId, color);
    } else {
      PlainEntryRecords(body, commentId, color);
    }
    if |targetStr| != 0 {
      records := [Suggestion(targetStr, replacement, remove, commentId, color)];
    } else {
      records := [];
    }
  }

  /** `EntryRecords` of a body with an arrow, spelled out. */
  lemma ArrowEntryRecords(body: string, k: int, id: string, color: string)
    requires '|' !in body && k == FindArrow(body) && k >= 0
    ensures var right, target := TrimStart(body[k + 2..]), TrimEnd(body[..k]);
      EntryRecords(body, id, color)
        == if target == [] then [] else [Suggestion(target, if right == [] then "" else right, right == [], id, color)]
  {
  }

  /** `EntryRecords` of a body without an arrow, spelled out. */
  lemma PlainEntryRecords(body: string, id: string, color: string)
    requires '|' !in body && FindArrow(body) == -1
    ensures EntryRecords(body, id, color) == if body == [] then [] else [Suggestion(body, "", false, id, color)]
  {
  }

  /** The loop of `parseCommentLine`, reassigning `text` and appending to `suggestions`. */
  method ParseCommentLine(commentId: string, text0: string, color: string) returns (suggestions: seq<Suggestion>)
    ensures suggestions == Parse(text0, commentId, color)
  {
    var text := text0;
    suggestions := [];
    while text != ""
      invariant suggestions + Parse(text, commentId, color) == Parse(text0, commentId, color)
      decreases |text|
    {
      ghost var before := text;
      text := SkipPastPipe(text);
      var endIdx := IndexOf(text, '|');
      if endIdx == -1 {
        LoopExit(before, text, commentId, color);
        break;
      }
      LoopStep(before, text, endIdx, commentId, color);
      var records := ReadEntry(text[..endIdx], commentId, color);
      AppendAssoc(suggestions, records, Parse(text[endIdx + 1..], commentId, color));
      suggestions := suggestions + records;
      text := text[endIdx + 1..];
    }
  }

  /** A loop turn that finds no closing `|` ends the parse. */
  lemma LoopExit(text: string, rest: string, id: string, color: string)
    requires text != [] && rest == SkipPastPipe(text) && IndexOf(rest, '|') == -1
    ensures Parse(text, id, color) == []
  {
    assert NextEntry(text).None?;
  }

  /** A loop turn that finds a closing `|` contributes that entry's records, then parsing goes on after it. */
  lemma LoopStep(text: string, rest: string, endIdx: int, id: string, color: string)
    requires text != [] && rest == SkipPastPipe(text) && endIdx == IndexOf(rest, '|') && endIdx != -1
    ensures Parse(text, id, color) == EntryRecords(rest[..endIdx], id, color) + Parse(rest[endIdx + 1..], id, color)
  {
    assert NextEntry(text) == Some((rest[..endIdx], rest[endIdx + 1..]));
    NextEntryParse(text, id, color);
  }

  /** One unfolding of `Parse` on a text with a complete entry. */
  lemma NextEntryParse(text: string, id: string, color: string)
    requires text != [] && NextEntry(text).Some?
    ensures Parse(text, id, color)
         == EntryRecords(NextEntry(text).value.0, id, color) + Parse(NextEntry(text).value.1, id, color)
  {
  }

  // ---------------------------------------------------------------------------
  // Properties of the parser

  /**
   * Every record has a non-empty target, never both `remove` and a non-empty replacement,
   * no `|` and no arrow in its target, and carries the comment's id and colour.
   */
  lemma {:induction false} ParseWellFormed(text: string, id: string, color: string)
    ensures forall s :: s in Parse(text, id, color) ==> WellFormed(s) && s.id == id && s.color == color
    decreases |text|
  {
    if text != [] {
      match NextEntry(text)
      case None =>
      case Some((body, tail)) =>
        ParseWellFormed(tail, id, color);
    }
  }

  // Regroupings of concatenations, kept apart so that their proofs see only sequences.

  lemma Regroup(p: string, a: string, q: string, b: string, r: string)
    ensures p + a + q + b + r == p + (a + (q + (b + r)))
    ensures p + a + q + b + r == p + a + q + (b + r)
    ensures p + (a + q + b) + r == p + a + q + b + r
  {
  }

  lemma DropEmptyEnds(body: string)
    ensures "" + "|" + body + "|" + "" == "|" + body + "|"
  {
  }

  /** A text holding `|` is its `|`-free part before the first `|`, that `|`, and the rest. */
  lemma SplitAtPipe(s: string) returns (pre: string, post: string)
    requires '|' in s
    ensures s == pre + "|" + post && '|' !in pre && Count(post, '|') + 1 == Count(s, '|')
  {
    var i := IndexOf(s, '|');
    pre, post := s[..i], s[i + 1..];
    assert s == pre + "|" + post;
    CountConcat(pre + "|", post, '|');
    CountConcat(pre, "|", '|');
    CountZero(pre, '|');
  }

  /** A text with an even, non-zero number of `|` is `pre|body|tail` with `|`-free `pre` and `body`. */
  lemma SplitFirstEntry(a: string) returns (pre: string, body: string, tail: string)
    requires '|' in a && Count(a, '|') % 2 == 0
    ensures a == pre + "|" + body + "|" + tail
    ensures '|' !in pre && '|' !in body && Count(tail, '|') % 2 == 0 && |tail| < |a|
  {
    var rest;
    pre, rest := SplitAtPipe(a);
    assert Count(rest, '|') == Count(a, '|') - 1;
    CountZero(rest, '|');
    body, tail := SplitAtPipe(rest);
    assert Count(tail, '|') == Count(a, '|') - 2;
    ParityDown(Count(a, '|'));
    Regroup(pre, "|", body, "|", tail);
  }

  lemma ParityDown(n: int)
    requires n % 2 == 0
    ensures (n - 2) % 2 == 0
  {
  }

  lemma AppendAfterEntry(a: string, pre: string, body: string, tail: string, b: string)
    requires a == pre + "|" + body + "|" + tail
    ensures a + b == pre + "|" + body + "|" + (tail + b)
  {
  }

  /** The next entry of `pre|body|post`, when `pre` and `body` hold no `|`, is `body`, followed by `post`. */
  lemma NextEntryOf(pre: string, body: string, post: string)
    requires '|' !in pre && '|' !in body
    ensures NextEntry(pre + "|" + body + "|" + post) == Some((body, post))
  {
    var t := pre + "|" + body + "|" + post;
    var u := body + ("|" + post);
    Regroup(pre, "|", body, "|", post);
    assert t == pre + ("|" + u);
    IndexOfConcat(pre, "|" + u, '|');
    assert IndexOf("|" + u, '|') == 0;
    assert SkipPastPipe(t) == u;
    IndexOfConcat(body, "|" + post, '|');
    assert IndexOf("|" + post, '|') == 0;
    assert u[..|body|] == body && u[|body| + 1..] == post;
  }

  /** Parsing `pre|body|post` reads the entry `body`, then parses `post`. */
  lemma ParseStep(pre: string, body: string, post: string, id: string, color: string)
    requires '|' !in pre && '|' !in body
    ensures Parse(pre + "|" + body + "|" + post, id, color)
         == EntryRecords(body, id, color) + Parse(post, id, color)
  {
    NextEntryOf(pre, body, post);
  }

  /** Text without `|` yields no suggestions. */
  lemma NoPipeNoSuggestions(text: string, id: string, color: string)
    requires '|' !in text
    ensures Parse(text, id, color) == []
  {
    if text != [] {
      assert SkipPastPipe(text) == text;
    }
  }

  /** A lone closing `|` after text without `|` opens no entry. */
  lemma TrailingPipeOnly(p: string, id: string, color: string)
    requires '|' !in p
    ensures Parse(p + "|", id, color) == []
  {
    var t := p + "|";
    assert IndexOf(t, '|') == |p| by {
      IndexOfConcat(p, "|", '|');
    }
    assert SkipPastPipe(t) == [];
  }

  /** A trailing entry with no closing `|` is discarded. */
  lemma UnterminatedDiscarded(a: string, id: string, color: string)
    requires '|' !in a
    ensures Parse("|" + a, id, color) == []
  {
    var t := "|" + a;
    assert IndexOf(t, '|') == 0;
    assert SkipPastPipe(t) == a;
  }

  /** Text without `|` in front of the next `|` is skipped over. */
  lemma NextEntrySkip(a: string, b: string)
    requires '|' !in a && '|' in b
    ensures NextEntry(a + b) == NextEntry(b)
  {
    var k := IndexOf(b, '|');
    assert IndexOf(a + b, '|') == |a| + k by {
      IndexOfConcat(a, b, '|');
    }
    assert SkipPastPipe(a + b) == SkipPastPipe(b) by {
      SliceAfterPrefix(a, b, k + 1);
    }
    SameRestSameEntry(a + b, b);
  }

  /** The next entry depends only on the text after the first `|`. */
  lemma SameRestSameEntry(x: string, y: string)
    requires SkipPastPipe(x) == SkipPastPipe(y)
    ensures NextEntry(x) == NextEntry(y)
  {
    var rest := SkipPastPipe(x);
    var e := IndexOf(rest, '|');
    var entry := if e == -1 then None else Some((rest[..e], rest[e + 1..]));
    assert NextEntry(x) == entry;
    assert NextEntry(y) == entry;
  }

  /** Leading text without `|` does not change what is parsed. */
  lemma ParseNoPipePrefix(a: string, b: string, id: string, color: string)
    requires '|' !in a
    ensures Parse(a + b, id, color) == Parse(b, id, color)
  {
    if '|' in b {
      NextEntrySkip(a, b);
    } else {
      assert forall c :: c in a + b ==> c in a || c in b;
      NoPipeNoSuggestions(a + b, id, color);
      NoPipeNoSuggestions(b, id, color);
    }
  }

  /**
   * Suggestions come out in left-to-right order: when `a` holds an even number of `|`,
   * parsing `a + b` is parsing `a` followed by parsing `b`.
   */
  lemma {:induction false} ParseConcat(a: string, b: string, id: string, color: string)
    requires Count(a, '|') % 2 == 0
    ensures Parse(a + b, id, color) == Parse(a, id, color) + Parse(b, id, color)
    decreases |a|
  {
    if '|' !in a {
      ParseNoPipePrefix(a, b, id, color);
      NoPipeNoSuggestions(a, id, color);
    } else {
      var pre, body, tail := SplitFirstEntry(a);
      AppendAfterEntry(a, pre, body, tail, b);
      ParseStep(pre, body, tail, id, color);
      ParseStep(pre, body, tail + b, id, color);
      ParseConcat(tail, b, id, color);
      AppendAssoc(EntryRecords(body, id, color), Parse(tail, id, color), Parse(b, id, color));
    }
  }

  lemma AppendAssoc(x: seq<Suggestion>, y: seq<Suggestion>, z: seq<Suggestion>)
    ensures x + y + z == x + (y + z)
  {
  }

  /** One entry set off by `|` on both sides is read as that entry. */
  lemma ParseOneEntry(body: string, id: string, color: string)
    requires '|' !in body
    ensures Parse("|" + body + "|", id, color) == EntryRecords(body, id, color)
  {
    ParseStep("", body, "", id, color);
    DropEmptyEnds(body);
  }

  /** An entry without an arrow is a highlight-only record whose target is the whole body, untrimmed. */
  lemma EntryWithoutArrow(body: string, id: string, color: string)
    requires body != [] && '|' !in body && !HasArrow(body)
    ensures EntryRecords(body, id, color) == [Suggestion(body, "", false, id, color)]
  {
  }

  /** `|A|` yields a highlight-only record: the target is `A` untrimmed, no replacement, no removal. */
  lemma HighlightEntry(a: string, id: string, color: string)
    requires a != [] && '|' !in a && !HasArrow(a)
    ensures Parse("|" + a + "|", id, color) == [Suggestion(a, "", false, id, color)]
  {
    ParseOneEntry(a, id, color);
    EntryWithoutArrow(a, id, color);
  }

  /** The first arrow of `A + "->" + B` is the one after `A` when `A` has none. */
  lemma FirstArrowAfter(a: string, b: string)
    requires !HasArrow(a)
    ensures FindArrow(a + "->" + b) == |a|
  {
    var s := a + "->" + b;
    assert ArrowAt(s, |a|);
    forall j | 0 <= j < |a| ensures !ArrowAt(s, j) {
      if j + 1 < |a| {
        assert ArrowAt(s, j) ==> ArrowAt(a, j);
      } else {
        assert s[j + 1] == '-';
      }
    }
  }

  /** The entry `A -> B` has target `trimEnd(A)` and replacement `trimStart(B)`; it removes when that is empty. */
  lemma EntryWithArrow(a: string, b: string, id: string, color: string)
    requires '|' !in a + "->" + b && !HasArrow(a) && TrimEnd(a) != []
    ensures EntryRecords(a + "->" + b, id, color)
         == [Suggestion(TrimEnd(a), TrimStart(b), TrimStart(b) == [], id, color)]
  {
    var body := a + "->" + b;
    FirstArrowAfter(a, b);
    assert body[..|a|] == a;
    assert body[|a| + 2..] == b;
  }

  /**
   * `|A -> B|` yields target `trimEnd(A)` and replacement `trimStart(B)` (trailing spaces kept);
   * the record is a removal exactly when `trimStart(B)` is empty. Only the first arrow splits:
   * `B` may itself contain `->`.
   */
  lemma ArrowEntry(a: string, b: string, id: string, color: string)
    requires '|' !in a && '|' !in b && !HasArrow(a) && TrimEnd(a) != []
    ensures Parse("|" + a + "->" + b + "|", id, color)
         == [Suggestion(TrimEnd(a), TrimStart(b), TrimStart(b) == [], id, color)]
  {
    var body := a + "->" + b;
    assert forall c :: c in body ==> c in a || c == '-' || c == '>' || c in b;
    ParseOneEntry(body, id, color);
    Regroup("|", a, "->", b, "|");
    EntryWithArrow(a, b, id, color);
  }

  /** `|A -> |` (nothing but whitespace after the arrow) yields a removal. */
  lemma RemovalEntry(a: string, b: string, id: string, color: string)
    requires '|' !in a && '|' !in b && !HasArrow(a) && TrimEnd(a) != []
    requires forall i :: 0 <= i < |b| ==> IsJsWhitespace(b[i])
    ensures Parse("|" + a + "->" + b + "|", id, color) == [Suggestion(TrimEnd(a), "", true, id, color)]
  {
    TrimStartAllWhitespace(b);
    ArrowEntry(a, b, id, color);
  }

  /** The two-entry example: `|A -> B| |C -> |` yields the replacement, then the removal. */
  lemma TwoEntriesInOrder(id: string, color: string)
    ensures Parse("|A -> B| |C -> |", id, color)
         == [Suggestion("A", "B", false, id, color), Suggestion("C", "", true, id, color)]
  {
    ExampleSplit();
    ParseStep("", "A -> B", " |C -> |", id, color);
    ParseStep(" ", "C -> ", "", id, color);
    ExampleEntries();
    EntryWithArrow("A ", " B", id, color);
    EntryWithArrow("C ", " ", id, color);
    assert Parse("", id, color) == [];
    PairOfRecords(Suggestion("A", "B", false, id, color), Suggestion("C", "", true, id, color));
  }

  lemma PairOfRecords(x: Suggestion, y: Suggestion)
    ensures [x] + ([y] + []) == [x, y]
  {
  }

  lemma ExampleSplit()
    ensures "|A -> B| |C -> |" == "" + "|" + "A -> B" + "|" + " |C -> |"
    ensures " |C -> |" == " " + "|" + "C -> " + "|" + ""
  {
  }

  lemma ExampleEntries()
    ensures "A -> B" == "A " + "->" + " B" && !HasArrow("A ") && TrimEnd("A ") == "A" && TrimStart(" B") == "B"
    ensures "C -> " == "C " + "->" + " " && !HasArrow("C ") && TrimEnd("C ") == "C" && TrimStart(" ") == ""
  {
    ExampleTrims();
    assert !ArrowAt("A ", 0) && !ArrowAt("C ", 0);
  }

  lemma ExampleTrims()
    ensures TrimEnd("A ") == "A"
    ensures TrimEnd("C ") == "C"
    ensures TrimStart(" B") == "B"
    ensures TrimStart(" ") == ""
  {
    assert TrimEnd("A ") == "A" by { LetterThenSpace('A'); }
    assert TrimEnd("C ") == "C" by { LetterThenSpace('C'); }
    assert TrimStart(" B") == "B" by { SpaceThenLetter('B'); }
    TrimStartAllWhitespace(" ");
  }

  /** A letter with a space after it trims to the letter. */
  lemma LetterThenSpace(c: char)
    requires !IsJsWhitespace(c)
    ensures TrimEnd([c, ' ']) == [c]
  {
    assert [c, ' '] == [c] + " ";
    TrimEndSpace([c]);
  }

  /** A letter with a space before it trims to the letter. */
  lemma SpaceThenLetter(c: char)
    requires !IsJsWhitespace(c)
    ensures TrimStart([' ', c]) == [c]
  {
    var s := [' ', c];
    TrimStartDrops(s);
    assert s[1..] == [c];
    TrimStartKeeps([c]);
  }

}
