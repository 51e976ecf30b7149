/**
  String primitives the converter relies on: Python's character classes, `strip`,
  `lower`, `capitalize`, substring tests, `endswith` and `split`. Letters and digits
  are the ASCII ones; whitespace is the full set Python's `str.isspace` accepts.
 */
module Text {
  import opened Wrappers

  predicate IsDigit(c: char) { '0' <= c <= '9' }

  predicate IsAsciiLetter(c: char) { 'a' <= c <= 'z' || 'A' <= c <= 'Z' }

  /** `str.isalnum` on one character (ASCII letters and digits). */
  predicate IsAlnum(c: char) { IsDigit(c) || IsAsciiLetter(c) }

  /** A character `secrets.token_hex` produces. */
  predicate IsHexDigit(c: char) { IsDigit(c) || 'a' <= c <= 'f' }

  /** `str.isspace` on one character. */
  predicate IsSpace(c: char) {
    || c == ' ' || c == '\t' || c == '\n' || c == '\r'
    || c == '\U{0B}' || c == '\U{0C}'
    || ('\U{1C}' <= c <= '\U{1F}')
    || c == '\U{85}' || c == '\U{A0}' || c == '\U{1680}'
    || ('\U{2000}' <= c <= '\U{200A}')
    || c == '\U{2028}' || c == '\U{2029}' || c == '\U{202F}' || c == '\U{205F}' || c == '\U{3000}'
  }

  /** `not s or not s.strip()`: empty or whitespace only. */
  predicate IsBlank(s: string) {
    forall i | 0 <= i < |s| :: IsSpace(s[i])
  }

  /** Index of the first non-space character at or after `k` (or |s|). */
  function SkipSpaces(s: string, k: nat): (j: nat)
    requires k <= |s|
    ensures k <= j <= |s|
    ensures forall m | k <= m < j :: IsSpace(s[m])
    ensures j < |s| ==> !IsSpace(s[j])
    decreases |s| - k
  {
    if k == |s| || !IsSpace(s[k]) then k else SkipSpaces(s, k + 1)
  }

  /** One past the last non-space character before `k` (or 0). */
  function TrimEnd(s: string, k: nat): (j: nat)
    requires k <= |s|
    ensures j <= k
    ensures forall m | j <= m < k :: IsSpace(s[m])
    ensures j > 0 ==> !IsSpace(s[j - 1])
  {
    if k == 0 || !IsSpace(s[k - 1]) then k else TrimEnd(s, k - 1)
  }

  /** `str.strip()`: the text between the leading and the trailing whitespace. */
  function Strip(s: string): (r: string)
    ensures |r| <= |s|
    ensures r == [] <==> IsBlank(s)
    ensures r != [] ==> !IsSpace(r[0]) && !IsSpace(r[|r| - 1])
  {
    var i := SkipSpaces(s, 0);
    if i == |s| then []
    else
      var j := TrimEnd(s, |s|);
      assert !IsSpace(s[i]) && i < j;
      s[i..j]
  }

  /** Only whitespace is removed, and only at the two ends. */
  lemma StripRemovesEnds(s: string)
    ensures var r := Strip(s);
            exists i | 0 <= i <= |s| - |r| :: s[i..i + |r|] == r && IsBlank(s[..i]) && IsBlank(s[i + |r|..])
  {
    var i := SkipSpaces(s, 0);
    if i == |s| {
      assert s[0..0] == [] && IsBlank(s[..0]) && IsBlank(s[0..]);
    } else {
      var j := TrimEnd(s, |s|);
      assert Strip(s) == s[i..j];
      assert s[i..i + (j - i)] == s[i..j] && IsBlank(s[..i]) && IsBlank(s[j..]);
    }
  }

  function LowerChar(c: char): char {
    if 'A' <= c <= 'Z' then (c as int + 32) as char else c
  }

  function UpperChar(c: char): char {
    if 'a' <= c <= 'z' then (c as int - 32) as char else c
  }

  /** `str.lower()`. */
  function Lower(s: string): (r: string)
    ensures |r| == |s| && forall i | 0 <= i < |s| :: r[i] == LowerChar(s[i])
  {
    seq(|s|, i requires 0 <= i < |s| => LowerChar(s[i]))
  }

  /** `str.capitalize()`: first character upper-cased, the rest lower-cased. */
  function Capitalize(s: string): (r: string)
    ensures |r| == |s|
    ensures s != [] ==> r[0] == UpperChar(s[0]) && r[1..] == Lower(s[1..])
  {
    if s == [] then [] else [UpperChar(s[0])] + Lower(s[1..])
  }

  predicate OccursAt(s: string, pat: string, i: nat) {
    i + |pat| <= |s| && s[i..i + |pat|] == pat
  }

  /** Python's `pat in s`. */
  predicate Contains(s: string, pat: string) {
    exists i | 0 <= i <= |s| :: OccursAt(s, pat, i)
  }

  /** A text containing `pat` contains every suffix of `pat`. */
  lemma ContainsTail(s: string, pat: string, k: nat)
    requires Contains(s, pat) && k <= |pat|
    ensures Contains(s, pat[k..])
  {
    var i :| 0 <= i <= |s| && OccursAt(s, pat, i);
    assert s[i + k..i + |pat|] == s[i..i + |pat|][k..];
    assert OccursAt(s, pat[k..], i + k);
  }

  /** `s.endswith(suffix)`. */
  predicate EndsWith(s: string, suffix: string) {
    |suffix| <= |s| && s[|s| - |suffix|..] == suffix
  }

  /** The first position at or after `k` that holds `c`. */
  function IndexOfChar(s: string, c: char, k: nat): (r: Option<nat>)
    requires k <= |s|
    ensures r.Some? ==> k <= r.value < |s| && s[r.value] == c
    ensures forall m | k <= m < (if r.Some? then r.value else |s|) :: s[m] != c
    decreases |s| - k
  {
    if k == |s| then None
    else if s[k] == c then Some(k)
    else IndexOfChar(s, c, k + 1)
  }

  /** The end of the longest run of characters satisfying `p` that starts at `k`. */
  function SpanWhile(s: string, k: nat, p: char -> bool): (j: nat)
    requires k <= |s|
    ensures k <= j <= |s|
    ensures forall m | k <= m < j :: p(s[m])
    ensures j < |s| ==> !p(s[j])
    decreases |s| - k
  {
    if k == |s| || !p(s[k]) then k else SpanWhile(s, k + 1, p)
  }

  /** `s.split(sep)`: the pieces between separators, empty pieces included. */
  function Split(s: string, sep: char): (parts: seq<string>)
    ensures |parts| > 0
    ensures forall k, m | 0 <= k < |parts| && 0 <= m < |parts[k]| :: parts[k][m] != sep
    decreases |s|
  {
    match IndexOfChar(s, sep, 0)
    case None => [s]
    case Some(i) => [s[..i]] + Split(s[i + 1..], sep)
  }

  /** `sep.join(parts)`. */
  function Join(parts: seq<string>, sep: char): string
    requires |parts| > 0
  {
    if |parts| == 1 then parts[0] else parts[0] + [sep] + Join(parts[1..], sep)
  }

  /** Splitting loses nothing: joining the pieces gives back the string. */
  lemma {:induction false} JoinSplit(s: string, sep: char)
    ensures Join(Split(s, sep), sep) == s
    decreases |s|
  {
    match IndexOfChar(s, sep, 0)
    case None =>
    case Some(i) =>
      JoinSplit(s[i + 1..], sep);
      assert s == s[..i] + [sep] + s[i + 1..];
  }

  /** In `a + [c] + b` with no `c` in `a`, the first `c` is the one between them. */
  lemma FirstOccurrence(a: string, c: char, b: string)
    requires forall m | 0 <= m < |a| :: a[m] != c
    ensures IndexOfChar(a + [c] + b, c, 0) == Some(|a|)
    ensures (a + [c] + b)[..|a|] == a && (a + [c] + b)[|a| + 1..] == b
  {
    var s := a + [c] + b;
    assert s[|a|] == c;
    assert forall m | 0 <= m < |a| :: s[m] == a[m];
    assert s == a + ([c] + b);
  }

  /** Splitting is exact: pieces without the separator come back from their join. */
  lemma {:induction false} SplitJoin(parts: seq<string>, sep: char)
    requires |parts| > 0
    requires forall k, m | 0 <= k < |parts| && 0 <= m < |parts[k]| :: parts[k][m] != sep
    ensures Split(Join(parts, sep), sep) == parts
    decreases |parts|
  {
    if |parts| == 1 {
      assert IndexOfChar(parts[0], sep, 0) == None;
    } else {
      var tail := parts[1..];
      var rest := Join(tail, sep);
      assert Join(parts, sep) == parts[0] + [sep] + rest;
      assert forall m | 0 <= m < |parts[0]| :: parts[0][m] != sep;
      SplitFirst(parts[0], sep, rest);
      forall k, m | 0 <= k < |tail| && 0 <= m < |tail[k]|
        ensures tail[k][m] != sep
      {
        assert tail[k] == parts[k + 1];
      }
      SplitJoin(tail, sep);
      assert parts == [parts[0]] + tail;
    }
  }

  /** A piece without the separator, then the separator: the piece is split off first. */
  lemma SplitFirst(a: string, sep: char, b: string)
    requires forall m | 0 <= m < |a| :: a[m] != sep
    ensures Split(a + [sep] + b, sep) == [a] + Split(b, sep)
  {
    FirstOccurrence(a, sep, b);
  }
}
