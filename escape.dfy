/**
 * `escapeRegExp` and the literal reading of the pattern built from a suggestion's target:
 * the pattern source is a lookbehind, the escaped target and a lookahead.
 */
module Escape {
  import opened Wrappers

  /** The characters `escapeRegExp` escapes: `. * + ? ^ $ { } ( ) | [ ] \`. */
  predicate IsMeta(c: char) {
    c == '.' || c == '*' || c == '+' || c == '?' || c == '^' || c == '$' || c == '{' || c == '}'
    || c == '(' || c == ')' || c == '|' || c == '[' || c == ']' || c == '\\'
  }

  /** How `escapeRegExp` rewrites one character. */
  function EscapeChar(c: char): string {
    if IsMeta(c) then ['\\', c] else [c]
  }

  /** `escapeRegExp(s)`: every metacharacter gets a backslash in front, every other character is kept. */
  function EscapeRegExp(s: string): (r: string)
    ensures |r| >= |s|
    ensures (forall i :: 0 <= i < |s| ==> !IsMeta(s[i])) ==> r == s
  {
    if s == [] then [] else EscapeChar(s[0]) + EscapeRegExp(s[1..])
  }

  /**
   * The literal text a pattern stands for, when the pattern uses only `\` followed by a
   * metacharacter or a plain character that is not a metacharacter; None for any other pattern.
   * This deletes exactly the backslashes `EscapeRegExp` inserts.
   */
  function Unescape(p: string): (r: Option<string>)
    ensures r.Some? ==> |r.value| <= |p|
  {
    if p == [] then Some([])
    else if p[0] == '\\' then
      if |p| >= 2 && IsMeta(p[1]) then
        match Unescape(p[2..])
        case Some(t) => Some([p[1]] + t)
        case None => None
      else None
    else if IsMeta(p[0]) then None
    else
      match Unescape(p[1..])
      case Some(t) => Some([p[0]] + t)
      case None => None
  }

  /** Escaping distributes over concatenation: each character is escaped on its own. */
  lemma {:induction false} EscapeConcat(a: string, b: string)
    ensures EscapeRegExp(a + b) == EscapeRegExp(a) + EscapeRegExp(b)
  {
    if a == [] {
      assert a + b == b;
    } else {
      assert (a + b)[0] == a[0] && (a + b)[1..] == a[1..] + b;
      EscapeConcat(a[1..], b);
      calc {
        EscapeRegExp(a + b);
        EscapeChar(a[0]) + EscapeRegExp(a[1..] + b);
        EscapeChar(a[0]) + (EscapeRegExp(a[1..]) + EscapeRegExp(b));
        (EscapeChar(a[0]) + EscapeRegExp(a[1..])) + EscapeRegExp(b);
      }
    }
  }

  /** The number of metacharacters in `s`. */
  function MetaCount(s: string): nat {
    if s == [] then 0 else (if IsMeta(s[0]) then 1 else 0) + MetaCount(s[1..])
  }

  /** Escaping adds one backslash per metacharacter and nothing else. */
  lemma {:induction false} EscapeLength(s: string)
    ensures |EscapeRegExp(s)| == |s| + MetaCount(s)
  {
    if s != [] {
      EscapeLength(s[1..]);
    }
  }

  /** Deleting the inserted backslashes recovers the input, so the escaped pattern is the literal target. */
  lemma {:induction false} UnescapeEscape(s: string)
    ensures Unescape(EscapeRegExp(s)) == Some(s)
  {
    if s != [] {
      UnescapeEscape(s[1..]);
      var e := EscapeRegExp(s);
      if IsMeta(s[0]) {
        assert e[2..] == EscapeRegExp(s[1..]);
      } else {
        assert e[1..] == EscapeRegExp(s[1..]);
      }
      assert s == [s[0]] + s[1..];
    }
  }

  /** Escaping is injective: different targets never share a pattern. */
  lemma EscapeInjective(s: string, t: string)
    requires EscapeRegExp(s) == EscapeRegExp(t)
    ensures s == t
  {
    UnescapeEscape(s);
    UnescapeEscape(t);
  }

  /** The lookbehind `(?<=^|[ \t\r\.]|\W)` as it stands in the pattern source. */
  const Lookbehind: string := "(?<=^|[ \\t\\r\\.]|\\W)"

  /** The lookahead `(?=$|[\s\.]|\W)` as it stands in the pattern source. */
  const Lookahead: string := "(?=$|[\\s\\.]|\\W)"

  /** The pattern source a suggestion is given for its target (used with flags `gm`). */
  function RegexSource(target: string): string {
    Lookbehind + EscapeRegExp(target) + Lookahead
  }

  /** Reads the target back out of a pattern source, or None when it is not of that form. */
  function TargetOfSource(src: string): (r: Option<string>)
    ensures r.Some? ==> |Lookbehind| + |Lookahead| <= |src|
  {
    if |src| < |Lookbehind| + |Lookahead| then None
    else if src[..|Lookbehind|] != Lookbehind || src[|src| - |Lookahead|..] != Lookahead then None
    else Unescape(src[|Lookbehind|..|src| - |Lookahead|])
  }

  /** The target is recoverable from its pattern source. */
  lemma SourceRoundTrip(target: string)
    ensures TargetOfSource(RegexSource(target)) == Some(target)
  {
    var src := RegexSource(target);
    var e := EscapeRegExp(target);
    assert src[..|Lookbehind|] == Lookbehind;
    assert src[|src| - |Lookahead|..] == Lookahead;
    assert src[|Lookbehind|..|src| - |Lookahead|] == e;
    UnescapeEscape(target);
  }

}
