/** Character classes and the JavaScript string operations the suggestion engine relies on. */
module Strings {

  /** A word character of a JavaScript regular expression without the `u` flag: `[A-Za-z0-9_]`. */
  predicate IsWordChar(c: char) {
    ('a' <= c <= 'z') || ('A' <= c <= 'Z') || ('0' <= c <= '9') || c == '_'
  }

  /** A line terminator as ECMAScript defines it (what `^`, `$` in multiline mode and `\s` see). */
  predicate IsLineTerminator(c: char) {
    c == '\n' || c == '\r' || c == '\U{2028}' || c == '\U{2029}'
  }

  /** ECMAScript WhiteSpace or LineTerminator: what `trimStart`, `trimEnd` strip and `\s` matches. */
  predicate IsJsWhitespace(c: char) {
    IsLineTerminator(c)
    || c == '\t' || c == '\U{000B}' || c == '\U{000C}' || c == ' ' || c == '\U{00A0}'
    || c == '\U{1680}' || ('\U{2000}' <= c <= '\U{200A}') || c == '\U{202F}' || c == '\U{205F}'
    || c == '\U{3000}' || c == '\U{FEFF}'
  }

  /** `s.trimStart()`: the longest suffix of `s` that does not start with whitespace. */
  function TrimStart(s: string): (r: string)
    ensures |r| <= |s| && r == s[|s| - |r|..]
    ensures r == [] || !IsJsWhitespace(r[0])
  {
    if s == [] || !IsJsWhitespace(s[0]) then s else TrimStart(s[1..])
  }

  /** `trimStart` keeps a text that starts with a character other than whitespace. */
  lemma TrimStartKeeps(s: string)
    requires s != [] && !IsJsWhitespace(s[0])
    ensures TrimStart(s) == s
  {
  }

  /** `trimStart` drops a leading whitespace character and goes on with the rest. */
  lemma TrimStartDrops(s: string)
    requires s != [] && IsJsWhitespace(s[0])
    ensures TrimStart(s) == TrimStart(s[1..])
  {
  }

  /** Everything `trimStart` removes is whitespace, so it removes a whitespace-only prefix. */
  lemma {:induction false} TrimStartStripsWhitespace(s: string)
    ensures forall i :: 0 <= i < |s| - |TrimStart(s)| ==> IsJsWhitespace(s[i])
  {
    if s != [] && IsJsWhitespace(s[0]) {
      TrimStartStripsWhitespace(s[1..]);
    }
  }

  /** `s.trimEnd()`: the longest prefix of `s` that does not end with whitespace. */
  function TrimEnd(s: string): (r: string)
    ensures |r| <= |s| && r == s[..|r|]
    ensures r == [] || !IsJsWhitespace(r[|r| - 1])
  {
    if s == [] || !IsJsWhitespace(s[|s| - 1]) then s else TrimEnd(s[..|s| - 1])
  }

  /** Everything `trimEnd` removes is whitespace, so it removes a whitespace-only suffix. */
  lemma {:induction false} TrimEndStripsWhitespace(s: string)
    ensures forall i :: |TrimEnd(s)| <= i < |s| ==> IsJsWhitespace(s[i])
  {
    if s != [] && IsJsWhitespace(s[|s| - 1]) {
      TrimEndStripsWhitespace(s[..|s| - 1]);
    }
  }

  /** A string that is whitespace throughout trims to nothing. */
  lemma {:induction false} TrimStartAllWhitespace(s: string)
    requires forall i :: 0 <= i < |s| ==> IsJsWhitespace(s[i])
    ensures TrimStart(s) == []
  {
    if s != [] {
      TrimStartAllWhitespace(s[1..]);
    }
  }

  /** `s.indexOf(c)` for a one-character needle: the first position of `c`, or -1. */
  function IndexOf(s: string, c: char): (r: int)
    ensures -1 <= r < |s|
    ensures r == -1 <==> c !in s
    ensures r >= 0 ==> s[r] == c && forall j :: 0 <= j < r ==> s[j] != c
  {
    if s == [] then -1
    else if s[0] == c then 0
    else
      var k := IndexOf(s[1..], c);
      if k == -1 then -1 else k + 1
  }

  /** The two-character arrow token `->` starts at position `k` of `s`. */
  predicate ArrowAt(s: string, k: int) {
    0 <= k && k + 1 < |s| && s[k] == '-' && s[k + 1] == '>'
  }

  /** `s.includes("->")`. */
  predicate HasArrow(s: string) {
    exists k :: 0 <= k < |s| && ArrowAt(s, k)
  }

  /** `s.indexOf("->")`: the first position of the arrow token, or -1. */
  function FindArrow(s: string): (r: int)
    ensures -1 <= r < |s|
    ensures r == -1 <==> !HasArrow(s)
    ensures r >= 0 ==> ArrowAt(s, r) && forall j :: 0 <= j < r ==> !ArrowAt(s, j)
  {
    if |s| < 2 then -1
    else if s[0] == '-' && s[1] == '>' then assert ArrowAt(s, 0); 0
    else
      var k := FindArrow(s[1..]);
      assert forall j {:trigger ArrowAt(s, j)} :: 1 <= j ==> (ArrowAt(s, j) <==> ArrowAt(s[1..], j - 1));
      assert k >= 0 ==> ArrowAt(s, k + 1);
      if k == -1 then -1 else k + 1
  }

  /** The number of occurrences of `c` in `s`. */
  function Count(s: string, c: char): nat
  {
    if s == [] then 0 else (if s[0] == c then 1 else 0) + Count(s[1..], c)
  }

  lemma {:induction false} CountConcat(a: string, b: string, c: char)
    ensures Count(a + b, c) == Count(a, c) + Count(b, c)
  {
    if a != [] {
      assert (a + b)[1..] == a[1..] + b;
      CountConcat(a[1..], b, c);
    } else {
      assert a + b == b;
    }
  }

  lemma {:induction false} CountZero(s: string, c: char)
    ensures Count(s, c) == 0 <==> c !in s
  {
    if s != [] {
      CountZero(s[1..], c);
      assert s == [s[0]] + s[1..];
    }
  }

  /** `indexOf` on a concatenation finds the first string's occurrence, else the second's shifted. */
  lemma {:induction false} IndexOfConcat(a: string, b: string, c: char)
    ensures IndexOf(a + b, c) == if c in a then IndexOf(a, c)
                                 else if c in b then |a| + IndexOf(b, c) else -1
  {
    if a != [] {
      assert (a + b)[1..] == a[1..] + b;
      IndexOfConcat(a[1..], b, c);
      assert a == [a[0]] + a[1..];
    } else {
      assert a + b == b;
    }
  }

  /** A string is its text before `i`, between `i` and `j`, and from `j` on. */
  lemma SplitThree(s: string, i: nat, j: nat)
    requires i <= j <= |s|
    ensures s == s[..i] + s[i..j] + s[j..]
  {
  }

  /** A range of a string is its three consecutive sub-ranges. */
  lemma SplitRange(s: string, a: nat, b: nat, c: nat, d: nat)
    requires a <= b <= c <= d <= |s|
    ensures s[a..d] == s[a..b] + s[b..c] + s[c..d]
  {
    assert s[a..d] == s[a..c] + s[c..d];
    assert s[a..c] == s[a..b] + s[b..c];
  }

  /** A character absent from a range is absent at each of its positions. */
  lemma NotInRange(s: string, c: char, a: nat, b: nat)
    requires a <= b <= |s| && c !in s[a..b]
    ensures forall k :: a <= k < b ==> s[k] != c
  {
    forall k | a <= k < b
      ensures s[k] != c
    {
      assert s[a..b][k - a] == s[k];
    }
  }

  /** Past a prefix, a concatenation is the second part. */
  lemma SliceAfterPrefix(a: string, b: string, k: nat)
    requires k <= |b|
    ensures (a + b)[|a| + k..] == b[k..]
  {
  }

  /** A trailing space is trimmed away by `trimEnd`. */
  lemma TrimEndSpace(x: string)
    ensures TrimEnd(x + " ") == TrimEnd(x)
  {
    assert (x + " ")[..|x|] == x;
  }

  /** A leading space is trimmed away by `trimStart`. */
  lemma TrimStartSpace(x: string)
    ensures TrimStart(" " + x) == TrimStart(x)
  {
    assert (" " + x)[1..] == x;
  }

  /** A trailing character other than `>` cannot complete an arrow. */
  lemma NoArrowBefore(x: string, c: char)
    requires !HasArrow(x) && c != '>'
    ensures !HasArrow(x + [c])
  {
    var s := x + [c];
    forall k | 0 <= k < |s| && ArrowAt(s, k)
      ensures false
    {
      assert k + 1 < |x| && ArrowAt(x, k);
    }
  }

}
