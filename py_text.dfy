/**
 * Python `str` operations written out over `seq<char>`: `isspace`, `strip()`
 * and `"\n".join(...)`, which the scripts call; the first index of a
 * character, which gives the piece `split(':', 1)[-1]` returns; and
 * `split("\n")`, the inverse used to state what a joined text holds.
 */
module PyText {

  /** Python's `str.isspace()` for one code point (the `Py_UNICODE_ISSPACE` table). */
  predicate IsSpace(c: char)
    ensures c == ' ' || c == '\t' || c == '\n' || c == '\r' ==> IsSpace(c)
    ensures ('0' <= c <= '9' || 'a' <= c <= 'z' || 'A' <= c <= 'Z' || c == ':') ==> !IsSpace(c)
  {
    || ('\t' <= c <= '\r')             // tab, line feed, vertical tab, form feed, carriage return
    || ('\U{1C}' <= c <= '\U{1F}')     // file, group, record and unit separators
    || c == ' '
    || c == '\U{85}' || c == '\U{A0}' || c == '\U{1680}'
    || ('\U{2000}' <= c <= '\U{200A}')
    || c == '\U{2028}' || c == '\U{2029}' || c == '\U{202F}' || c == '\U{205F}' || c == '\U{3000}'
  }

  predicate AllSpace(s: string) {
    forall k :: 0 <= k < |s| ==> IsSpace(s[k])
  }

  /** Index of the first character that is not whitespace (|s| when there is none). */
  function StripStart(s: string): (i: nat)
    ensures i <= |s|
    ensures AllSpace(s[..i])
    ensures i < |s| ==> !IsSpace(s[i])
  {
    if s == [] || !IsSpace(s[0]) then 0
    else
      var i := 1 + StripStart(s[1..]);
      assert s[..i] == [s[0]] + s[1..][..i - 1];
      i
  }

  /** One past the last character that is not whitespace (0 when there is none). */
  function StripEnd(s: string): (j: nat)
    ensures j <= |s|
    ensures AllSpace(s[j..])
    ensures 0 < j ==> !IsSpace(s[j - 1])
  {
    if s == [] || !IsSpace(s[|s| - 1]) then |s|
    else
      var j := StripEnd(s[..|s| - 1]);
      assert s[j..] == s[..|s| - 1][j..] + [s[|s| - 1]];
      j
  }

  /**
   * Python's `s.strip()`: `s` without its leading and trailing whitespace.
   * The result is the block of `s` that starts at the first non-whitespace
   * character and ends at the last one; it is empty exactly when `s` is all
   * whitespace.
   */
  function Strip(s: string): (r: string)
    ensures |r| <= |s|
    ensures r == [] <==> AllSpace(s)
    ensures r != [] ==> !IsSpace(r[0]) && !IsSpace(r[|r| - 1])
    ensures StripStart(s) + |r| <= |s|
    ensures r == s[StripStart(s)..StripStart(s) + |r|]
    ensures AllSpace(s[StripStart(s) + |r|..])
  {
    var i, j := StripStart(s), StripEnd(s);
    if i < |s| then
      assert !IsSpace(s[i]);
      assert forall k :: j <= k < |s| ==> s[k] == s[j..][k - j];
      s[i..j]
    else
      assert s[..i] == s;
      []
  }

  /** Stripping twice is stripping once. */
  lemma StripIdempotent(s: string)
    ensures Strip(Strip(s)) == Strip(s)
  {
    StripOfTrimmed(Strip(s));
  }

  /** A string with no whitespace at either end is left alone by `strip()`. */
  lemma StripOfTrimmed(t: string)
    requires t != [] ==> !IsSpace(t[0]) && !IsSpace(t[|t| - 1])
    ensures Strip(t) == t
  {
    if t != [] {
      assert StripStart(t) == 0;
      var r := Strip(t);
      assert r != [] by { assert !AllSpace(t) by { assert !IsSpace(t[0]); } }
    }
  }

  /** Index of the first occurrence of `c` in `s` (Python's `s.index(c)`). */
  function IndexOf(s: string, c: char): (i: nat)
    requires c in s
    ensures i < |s| && s[i] == c
    ensures c !in s[..i]
  {
    if s[0] == c then 0
    else
      var i := 1 + IndexOf(s[1..], c);
      assert s[..i] == [s[0]] + s[1..][..i - 1];
      i
  }

  /** The first occurrence is the only index with `c` there and no `c` before it. */
  lemma IndexOfUnique(s: string, c: char, i: nat)
    requires i < |s| && s[i] == c && c !in s[..i]
    ensures IndexOf(s, c) == i
  {
    var k := IndexOf(s, c);
    assert forall m :: 0 <= m < i ==> s[m] == s[..i][m];
    assert forall m :: 0 <= m < k ==> s[m] == s[..k][m];
  }

  /** Python's `"\n".join(parts)`. */
  function JoinLines(parts: seq<string>): (r: string)
    ensures parts == [] ==> r == ""
    ensures parts != [] ==> |parts[0]| <= |r| && r[..|parts[0]|] == parts[0]
    ensures |parts| > 1 ==> |parts[0]| < |r| && r[|parts[0]|] == '\n'
  {
    if parts == [] then ""
    else if |parts| == 1 then parts[0]
    else parts[0] + "\n" + JoinLines(parts[1..])
  }

  /** Python's `s.split("\n")`: always at least one piece. */
  function SplitLines(s: string): (r: seq<string>)
    ensures r != []
    ensures forall k :: 0 <= k < |r| ==> '\n' !in r[k]
    decreases |s|
  {
    if '\n' !in s then [s]
    else
      var i := IndexOf(s, '\n');
      [s[..i]] + SplitLines(s[i + 1..])
  }

  /**
   * Splitting the joined text at line feeds gives back the pieces, as long as
   * there is at least one piece and no piece holds a line feed of its own.
   */
  lemma {:induction false} SplitJoinLines(parts: seq<string>)
    requires parts != []
    requires forall k :: 0 <= k < |parts| ==> '\n' !in parts[k]
    ensures SplitLines(JoinLines(parts)) == parts
  {
    if |parts| > 1 {
      var p, rest := parts[0], JoinLines(parts[1..]);
      var s := p + "\n" + rest;
      assert s[|p|] == '\n' && s[..|p|] == p;
      IndexOfUnique(s, '\n', |p|);
      assert s[|p| + 1..] == rest;
      SplitJoinLines(parts[1..]);
    }
  }
}
