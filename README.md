# Inline suggestions in comments: a Dafny model

This project models the suggestion engine of the editor's comment extension
(`src/extensions/suggestions.js`). A comment's text can carry edit suggestions for the main
document, written in a small mini-language:

- `|target|` highlights the whole-word occurrences of `target` that a left-to-right scan finds
  without overlap (an occurrence overlapping an earlier one is skipped);
- `|target -> replacement|` offers to replace `target` by `replacement`;
- `|target -> |` offers to remove `target`.

The model covers four parts of that file.

1. **The annotation parser** (`parseCommentLine`), module `Parser`.
   - A recursive specification `Parse` says what the parser reads.
   - The `while` loop of the source is the method `ParseCommentLine`, proved equal to `Parse`.
   - Lemmas cover the record invariants, the entry shapes, unterminated and absent entries, and
     concatenation and order.
2. **Regex escaping and the boundary rule**, modules `Escape` and `Matcher`.
   - `escapeRegExp` is modelled with its inverse.
   - The pattern `(?<=^|[ \t\r\.]|\W)<escaped target>(?=$|[\s\.]|\W)` with flags `gm` is read
     alternative by alternative. It is proved to mean "the literal target with no word character
     directly before or after it" (`MatchAt`).
   - `FindFrom` is the meaning of a global scan: the first match at or after the scan position,
     then resume at that match's end. It is proved sound and ordered, and complete in the sense
     that every whole-word occurrence starts inside a reported match.
3. **Decorations and accepting a suggestion**, module `Edits`.
   - `modifyHighlight` is modelled as a pure function returning a decoration descriptor.
   - The `Replacement` widget's click handler becomes `ClickChange`.
   - Applying a change is a splice.
   - Lemmas state what accepting a replacement or a removal does to the document.
4. **Authoring a suggestion from a selection** (`suggestionPopup`), module `Authoring`.
   - The button predicate is modelled.
   - The two word-widening `for` loops are the methods `ExpandLeft` and `ExpandRight`, each proved
     against a specification predicate whose outcome is unique.
   - The annotation text `|X -> |` is modelled, including the `"\n"` prefix for an existing
     comment and the caret placed before the closing `|`.
   - A round trip is proved: parsing the comment after the annotation is appended, and after a
     replacement is typed at the caret, gives the old suggestions followed by one new one. This
     holds when the old comment text holds an even number of `|`, and `X` has no `|`, no `->`
     and is not all whitespace. When the old text ends in an unclosed `|A` with `A` free of `|`
     and `->`, the annotation is swallowed instead: only a highlight of `A` and the line break results
     (`UnclosedPipeSwallowsAnnotation`). Other unclosed old entries are not characterised.

Supporting modules:

- `Wrappers` holds `Option`.
- `Strings` holds the word-character class, ECMAScript whitespace for `trimStart`/`trimEnd`,
  `indexOf`, `includes("->")` and counting.
- `Document` holds the line of a position (`lineAt(pos).from`, `.to` and `.number`).

Modelling choices:

- The editor document is a `string`. Line breaks are `"\n"`, as CodeMirror normalises them, and
  offsets are character positions.
- An absent colour is the empty string, which is falsy like `undefined`.
- A record's `targetRegexSrc` is not stored. It is the function `Escape.RegexSource` of the
  record's target, and `Matcher.PatternMatchesTarget` gives its meaning.
- `sliceString` is clamped to the document length.

## Model

| member | source | states |
|---|---|---|
| Strings.TrimStart | src/extensions/suggestions.js:30 | `trimStart` keeps a suffix of its input that is empty or does not start with ECMAScript whitespace |
| Strings.TrimStartStripsWhitespace | src/extensions/suggestions.js:30 | every character `trimStart` drops is whitespace |
| Strings.TrimStartAllWhitespace | src/extensions/suggestions.js:30-32 | a right-hand side of whitespace only trims to empty, the removal case |
| Strings.TrimEnd | src/extensions/suggestions.js:36 | `trimEnd` keeps a prefix of its input that is empty or does not end with whitespace |
| Strings.TrimEndStripsWhitespace | src/extensions/suggestions.js:36 | every character `trimEnd` drops is whitespace |
| Strings.IndexOf | src/extensions/suggestions.js:22-23 | `indexOf("\|")` is -1 exactly when there is no `\|`, otherwise the first position of one |
| Strings.IndexOfConcat | src/extensions/suggestions.js:22-23 | `indexOf` on a concatenation finds the first part's occurrence, else the second's shifted by the first's length |
| Strings.FindArrow | src/extensions/suggestions.js:29-36 | `indexOf("->")` is -1 exactly when `includes("->")` is false, otherwise the first arrow position |
| Escape.EscapeRegExp | src/extensions/suggestions.js:14-16 | escaping never shortens and leaves a string without metacharacters unchanged |
| Escape.EscapeLength | src/extensions/suggestions.js:14-16 | escaping adds exactly one character per metacharacter `.*+?^${}()\|[]\` |
| Escape.EscapeConcat | src/extensions/suggestions.js:14-16 | each character is escaped on its own (escaping distributes over concatenation) |
| Escape.UnescapeEscape | src/extensions/suggestions.js:14-16 | deleting the inserted backslashes gives back the input |
| Escape.EscapeInjective | src/extensions/suggestions.js:14-16 | different targets never get the same escaped form |
| Escape.RegexSource | src/extensions/suggestions.js:41 | the pattern source is the lookbehind, the escaped target and the lookahead; `SourceRoundTrip` proves the target can be read back from it |
| Escape.SourceRoundTrip | src/extensions/suggestions.js:41 | the target can be read back out of the pattern source built for it |
| Parser.SkipPastPipe | src/extensions/suggestions.js:22 | `text.slice(text.indexOf("\|") + 1)` is never longer than the text |
| Parser.SkipPastPipeMeaning | src/extensions/suggestions.js:22 | a text without `\|` is kept whole; otherwise it is a `\|`-free prefix, its first `\|`, and the result |
| Parser.ParseEntry | src/extensions/suggestions.js:26-49 | a record made from one entry is well formed and carries the comment's id and colour |
| Parser.NextEntry | src/extensions/suggestions.js:22-24 | one loop turn yields an entry body without `\|` and a strictly shorter rest |
| Parser.ReadEntry | src/extensions/suggestions.js:26-49 | the loop body's arrow search, trimming and push give the entry's records |
| Parser.Parse | src/extensions/suggestions.js:21-52 | the records of a comment text, entry after entry until no closing `\|` is left; `ParseCommentLine` is proved to compute it and the lemmas below state what it yields |
| Parser.ParseCommentLine | src/extensions/suggestions.js:18-55 | the loop computes `Parse` of the comment text |
| Parser.ParseWellFormed | src/extensions/suggestions.js:26-49 | every record has a non-empty target without `\|` or `->`, never both `remove` and a replacement, and the comment's id and colour |
| Parser.NoPipeNoSuggestions | src/extensions/suggestions.js:21-24 | text without `\|` yields no suggestions |
| Parser.UnterminatedDiscarded | src/extensions/suggestions.js:21-24 | an entry with no closing `\|` is dropped without error |
| Parser.TrailingPipeOnly | src/extensions/suggestions.js:21-24 | a lone `\|` after text without `\|` opens no entry and yields nothing |
| Parser.ParseNoPipePrefix | src/extensions/suggestions.js:22 | text before the first `\|` is skipped |
| Parser.ParseConcat | src/extensions/suggestions.js:21-52 | after a text with an even number of `\|`, parsing continues independently: `Parse(a + b) == Parse(a) + Parse(b)` |
| Parser.ParseOneEntry | src/extensions/suggestions.js:21-52 | a lone `\|body\|` parses to that body's records |
| Parser.EntryWithoutArrow | src/extensions/suggestions.js:26-49 | a non-empty body without an arrow is one untrimmed highlight record |
| Parser.HighlightEntry | src/extensions/suggestions.js:26-49 | `\|A\|` yields target `A` untrimmed, replacement "" and `remove` false |
| Parser.FirstArrowAfter | src/extensions/suggestions.js:29-36 | the first arrow wins: when `A` has no arrow, `A->B` splits at position `len(A)` whatever `B` holds |
| Parser.EntryWithArrow | src/extensions/suggestions.js:29-37 | an arrow body gives target `trimEnd(A)`, replacement `trimStart(B)` and removal when that is empty |
| Parser.ArrowEntry | src/extensions/suggestions.js:29-37 | `\|A->B\|` yields `trimEnd(A)`, `trimStart(B)` (trailing spaces kept), `remove` exactly when that is empty; `B` may contain `->` |
| Parser.RemovalEntry | src/extensions/suggestions.js:29-33 | `\|A -> \|` with only whitespace after the arrow yields a removal |
| Parser.TwoEntriesInOrder | src/extensions/suggestions.js:21-52 | `\|A -> B\| \|C -> \|` yields the replacement of A by B, then the removal of C |
| Document.LineEnd | src/extensions/suggestions.js:122-123 | `lineAt(pos).to` is the first line break at or after `pos`, or the document end |
| Document.LineStart | src/extensions/suggestions.js:175 | `lineAt(pos).from` is just after the last line break before `pos`, or 0 |
| Document.LineNumber | src/extensions/suggestions.js:150 | `lineAt(pos).number` is at least 1: one more than the line breaks before `pos` (its meaning is `SameLine`) |
| Document.SameLine | src/extensions/suggestions.js:150 | two positions have the same line number exactly when no line break lies between them |
| Document.LineOfPosition | src/extensions/suggestions.js:175 | a position's line holds no line break, and its start and end have the position's line number |
| Document.EndsOnLine | src/extensions/suggestions.js:175-188 | a range without line breaks ends no later than the end of the line it starts on |
| Matcher.MatchAt | src/extensions/suggestions.js:41 | the target stands literally at the position with no word character directly before or after it; `PatternMatchesTarget` proves the pattern means exactly this |
| Matcher.LookaroundsAreWordBoundaries | src/extensions/suggestions.js:41 | the lookbehind and lookahead alternatives amount to "no word character before" and "no word character after" |
| Matcher.PatternMatchesTarget | src/extensions/suggestions.js:41-42 | the record's pattern matches at a position exactly when the literal target stands there as a whole word |
| Matcher.FindFrom | src/extensions/suggestions.js:41-42 | every reported match has the target's length and lies inside the document, at or after the scan position |
| Matcher.FindFromOrdered | src/extensions/suggestions.js:41-42 | reported matches come left to right and do not overlap |
| Matcher.FindFromSound | src/extensions/suggestions.js:41-42 | every reported match is a whole-word occurrence of the target |
| Matcher.FindFromComplete | src/extensions/suggestions.js:41-42 | every whole-word occurrence at or after the scan position starts inside (overlaps) a reported match |
| Matcher.FindAll | src/extensions/suggestions.js:41-42 | the scan of the whole document; every match ends inside the document |
| Matcher.FindAllComplete | src/extensions/suggestions.js:41-42 | no whole-word occurrence in the document is missed: each starts inside (overlaps) a reported match |
| Matcher.FindFromReportsIsolated | src/extensions/suggestions.js:41-42 | an occurrence that no earlier occurrence overlaps is reported itself |
| Matcher.FooAtLineStart | src/extensions/suggestions.js:41 | `foo` matches at [0,3) in "foo bar" |
| Matcher.FooBeforeFullStop | src/extensions/suggestions.js:41 | `foo` matches at [4,7) in "say foo." |
| Matcher.FooInParentheses | src/extensions/suggestions.js:41 | `foo` matches at [1,4) in "(foo)" |
| Matcher.FooInsideWords | src/extensions/suggestions.js:41 | `foo` does not match in "foobar" or "barfoo" |
| Edits.ModifyHighlight | src/extensions/suggestions.js:57-99 | a colour sets the style; a removal gets a replace decoration over the match that shows the matched text; a replacement adds class " replaced" and a point widget at the match end; otherwise no widget; the widget always acts on the match range |
| Edits.ClickChange | src/extensions/suggestions.js:120-139 | the change starts at the widget's start, inserts the replacement or nothing, and extends one past the end exactly for a removal followed by a character other than a line break |
| Edits.Apply | src/extensions/suggestions.js:133-139 | a change keeps the text before and after its range and puts the inserted text between |
| Edits.Activate | src/extensions/suggestions.js:133-139 | the click dispatches `ClickChange` and the document becomes its splice; `ActivateReplacement` and `ActivateRemoval` state the outcome |
| Edits.ActivateReplacement | src/extensions/suggestions.js:133-139 | clicking a replacement gives `doc[..from] + text + doc[to..]` |
| Edits.ActivateRemoval | src/extensions/suggestions.js:121-139 | clicking a removal deletes [from, to + 1) before a same-line character and [from, to) at a line end |
| Edits.RemovalKeepsLineBreaks | src/extensions/suggestions.js:121-139 | a removal deletes no line break outside the removed range |
| Edits.AcceptReplacement | src/extensions/suggestions.js:62-139 | accepting a replacement at a match puts the replacement in place of the target and changes nothing else |
| Edits.AcceptRemoval | src/extensions/suggestions.js:62-139 | accepting a removal at a match deletes the target and, unless it ends its line, the non-word character after it |
| Edits.RemoveBeforeCharacter | src/extensions/suggestions.js:121-139 | removing a word followed by a character other than a line break deletes the word and that character |
| Edits.RemoveAtLineEnd | src/extensions/suggestions.js:121-139 | removing a word that ends its line (or the document) deletes only the word |
| Edits.ReplaceWord | src/extensions/suggestions.js:121-139 | replacing a word puts the replacement text exactly where the word was |
| Edits.RemovalExample | src/extensions/suggestions.js:121-139 | removing "this" at [4,8) of "cut this out" gives "cut out" |
| Edits.RemovalAtLineEndExample | src/extensions/suggestions.js:121-139 | removing a line's last word keeps the line break |
| Edits.RemovalTakesFullStopExample | src/extensions/suggestions.js:121-139 | removing "foo" from "say foo." also deletes the full stop |
| Edits.ReplacementExample | src/extensions/suggestions.js:121-139 | replacing [4,7) of "the foo bar" by "XYZ" gives "the XYZ bar" |
| Authoring.ShowsButton | src/extensions/suggestions.js:149-151 | the button is hidden without focus, with an empty selection, or when head and anchor lie on different lines; `ShowsButtonMeaning` restates this without line numbers |
| Authoring.ShowsButtonMeaning | src/extensions/suggestions.js:148-154 | the button shows exactly with focus and a non-empty selection that holds no line break |
| Authoring.BoundaryTest | src/extensions/suggestions.js:178 | `/[ \t\r\W]/.test(s)` holds exactly when some character of `s` is not a word character |
| Authoring.SliceString | src/extensions/suggestions.js:181 | `sliceString` is the plain slice inside the document and is clamped at its end |
| Authoring.BoundaryAt | src/extensions/suggestions.js:178-189 | the one-character test succeeds exactly on a non-word character inside the document |
| Authoring.ExpandLeft | src/extensions/suggestions.js:177-185 | the backward loop stops at the line start or just after a non-word character, having passed only word characters |
| Authoring.ExpandRight | src/extensions/suggestions.js:187-193 | the forward loop stops at a non-word character or one past the line end, having passed only word characters |
| Authoring.LeftExpansionUnique | src/extensions/suggestions.js:177-185 | the backward widening has exactly one outcome |
| Authoring.RightExpansionUnique | src/extensions/suggestions.js:187-193 | the forward widening has exactly one outcome |
| Authoring.RightExpansionStaysOnLine | src/extensions/suggestions.js:187-193 | on a line ended by a line break, `newTo <= line.to` |
| Authoring.ExpandedText | src/extensions/suggestions.js:175-195 | the widened text is the selection with word characters on each side, and stays on the line |
| Authoring.ExistingId | src/extensions/suggestions.js:196-197 | the lookup names an existing comment exactly when an id is present and not empty |
| Authoring.SuggestionPopup | src/extensions/suggestions.js:146-201 | no draft unless the button shows; otherwise the widened range, `\|X -> \|` with the "\n" prefix exactly for an existing comment, and the comment chosen by line number |
| Authoring.AnnotationText | src/extensions/suggestions.js:195-198 | `\|X -> \|`, preceded by a line break exactly for an existing comment; `CaretBeforeClosingPipe` and `AnnotationIsRemoval` state what it reads as |
| Authoring.AppendDraft | src/extensions/suggestions.js:203-217 | the comment keeps its old text with the draft text appended at its end (`text.insert(text.length, ..)`), and the caret is one before the new end (`doc.length - 1`) |
| Authoring.CaretBeforeClosingPipe | src/extensions/suggestions.js:195-217 | after `AppendDraft` of an annotation, the text before the caret is the old text, the prefix, `\|X -> `, and the text from the caret on is the closing `\|` alone |
| Authoring.TypeAtCaret | src/extensions/suggestions.js:195-217 | typing `r` at the caret `AppendDraft` places yields `\|X -> r\|` at the end of the comment |
| Authoring.DraftRoundTrip | src/extensions/suggestions.js:195-217 | when the old comment text holds an even number of `\|` and `X` has no `\|`, no `->` and is not all whitespace: after `AppendDraft` and typing `r` at its caret, the comment parses to its old suggestions followed by target `trimEnd(X)` with replacement `trimStart(r)`, a removal while that is empty |
| Authoring.AnnotationIsRemoval | src/extensions/suggestions.js:195-199 | under the same conditions (an even number of `\|` in the old text), parsing the comment `AppendDraft` produces, ending in `\|X -> \|`, yields one removal suggestion for `trimEnd(X)` after the old ones |
| Authoring.UnclosedPipeSwallowsAnnotation | src/extensions/suggestions.js:195-199 | after an old comment text `\|A` with an unclosed `\|`, where `A` holds no `\|` and no `->`, the appended `\|X -> \|` yields only a highlight of `A` plus the line break, and no removal |
| Authoring.QuickExample | src/extensions/suggestions.js:175-195 | selecting "uic" in "the quick brown fox" widens to [4,9) and writes `\|quick -> \|` |
| Authoring.QuickLine | src/extensions/suggestions.js:175 | "the quick brown fox" is one line running from 0 to 19 |

## Left out

- Button geometry and DOM work are left out: `coordsAtPos`, the pixel arithmetic and `dir-up`
  classes (lines 155-170), the span built in `toDOM` with its class and title (114-118), and the
  `AddSuggestionBtn` styled component (223-261). They are UI and floating-point layout.
- The calls into the collaborative comment store are left out. These are `ydoc.transact`,
  `lineAuthors().mark`, `display().updateComment`, `updateMainCodeMirror` and the awaited
  `getEditorForComment` (203-219). They are foreign, asynchronous library calls.
  - `findCommentOn` is a function parameter of `Authoring.SuggestionPopup`.
  - `newComment(line)` is represented by the draft's `NewComment(line)` target.
  - Appending the text and placing the caret are `Authoring.AppendDraft`.
- The regex engine and CodeMirror's `Decoration`, `StateEffect` and `Compartment` machinery are
  not modelled. `suggestionEffect` and `suggestionCompartment` (9-11) are only declarations.
  - The recurring `exec` loop that feeds `modifyHighlight` lives in a caller that is not part of
    this model; `Matcher.FindFrom` gives its meaning.
  - `modifyHighlight` returns a descriptor instead of a closure over `builder.add`, and it mutates
    the returned mark parameters instead of its argument.
- The constant fields `cssClass: "cm-suggestion"` and `targetRegexFlags: "gm"` (42, 44) are not
  stored in the record.
- The `view` reference kept by the widget is not modelled.
- Logging through `loggerFacet` (127-131) is left out.
- Offsets could go stale between render and click under remote edits. This concurrency race is
  not modelled: widget offsets are taken to refer to the current document.
- Positions are counted in characters, not JavaScript UTF-16 code units.
- Authoring.ExpandRight: on the document's last line the forward loop can stop at `line.to + 1`,
  because clamped `sliceString` gives "" there. So `newTo <= line.to` is stated only for lines
  ended by a line break (`Authoring.RightExpansionStaysOnLine`).
- Authoring.DraftRoundTrip: stated only when the old comment text holds an even number of `|` and
  the selected text holds no `|` and no `->` and is not all whitespace. For other selections the
  appended annotation splits or turns into a different entry, and no round trip holds. With an
  odd number of `|` in the old text, the annotation's opening `|` closes the old unclosed entry
  instead. When that old text ends in `|A` with `A` free of `|` and `->`, the result is only a
  highlight of `A` plus the line break, and no suggestion for the selection
  (`Authoring.UnclosedPipeSwallowsAnnotation`). Other odd-`|` texts are not characterised: the
  swallowed old entry can itself yield a suggestion, for instance when `A` holds `->`.
- Authoring.AnnotationIsRemoval: stated under the same conditions as `Authoring.DraftRoundTrip`.
