/**
 * The editor document as text. CodeMirror keeps line breaks as "\n" (its default line
 * separator normalises "\r\n" and "\r"), offsets are character positions 0..|doc|, and
 * `lineAt(pos)` is the line holding `pos`, from its first character to just before its "\n".
 */
module Document {
  import opened Strings

  /** `lineAt(pos).to`: the end of the line holding `pos`. */
  function LineEnd(doc: string, pos: nat): (r: nat)
    requires pos <= |doc|
    ensures pos <= r <= |doc|
    ensures r == |doc| || doc[r] == '\n'
    ensures forall k :: pos <= k < r ==> doc[k] != '\n'
    decreases |doc| - pos
  {
    if pos == |doc| || doc[pos] == '\n' then pos else LineEnd(doc, pos + 1)
  }

  /** `lineAt(pos).from`: the start of the line holding `pos`. */
  function LineStart(doc: string, pos: nat): (r: nat)
    requires pos <= |doc|
    ensures r <= pos
    ensures r == 0 || doc[r - 1] == '\n'
    ensures forall k :: r <= k < pos ==> doc[k] != '\n'
  {
    if pos == 0 || doc[pos - 1] == '\n' then pos else LineStart(doc, pos - 1)
  }

  /** `lineAt(pos).number`: one more than the line breaks before `pos`. */
  function LineNumber(doc: string, pos: nat): (r: nat)
    requires pos <= |doc|
    ensures r >= 1
  {
    Count(doc[..pos], '\n') + 1
  }

  /** Two positions lie on the same line exactly when no line break stands between them. */
  lemma SameLine(doc: string, a: nat, b: nat)
    requires a <= b <= |doc|
    ensures LineNumber(doc, a) == LineNumber(doc, b) <==> '\n' !in doc[a..b]
  {
    assert doc[..b] == doc[..a] + doc[a..b];
    CountConcat(doc[..a], doc[a..b], '\n');
    CountZero(doc[a..b], '\n');
  }

  /** A position's line runs from `LineStart` to `LineEnd` and holds no line break. */
  lemma LineOfPosition(doc: string, pos: nat)
    requires pos <= |doc|
    ensures '\n' !in doc[LineStart(doc, pos)..LineEnd(doc, pos)]
    ensures LineNumber(doc, LineStart(doc, pos)) == LineNumber(doc, pos) == LineNumber(doc, LineEnd(doc, pos))
  {
    var s, e := LineStart(doc, pos), LineEnd(doc, pos);
    assert forall k :: s <= k < e ==> doc[k] != '\n';
    assert '\n' !in doc[s..e];
    assert '\n' !in doc[s..pos] by { assert doc[s..pos] == doc[s..e][..pos - s]; }
    assert '\n' !in doc[pos..e] by { assert doc[pos..e] == doc[s..e][pos - s..]; }
    SameLine(doc, s, pos);
    SameLine(doc, pos, e);
  }

  /** A range without a line break ends no later than the end of the line it starts on. */
  lemma EndsOnLine(doc: string, a: nat, b: nat)
    requires a <= b <= |doc| && '\n' !in doc[a..b]
    ensures b <= LineEnd(doc, a)
  {
  }

}
