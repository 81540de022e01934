/** The `str` operations the agent applies to a received payload. */
module Text {

  /** `char::is_whitespace`: the characters with the Unicode White_Space property. */
  predicate IsWhitespace(c: char) {
    ('\U{0009}' <= c <= '\U{000D}') || c == '\U{0020}' || c == '\U{0085}' || c == '\U{00A0}' ||
    c == '\U{1680}' || ('\U{2000}' <= c <= '\U{200A}') || c == '\U{2028}' || c == '\U{2029}' ||
    c == '\U{202F}' || c == '\U{205F}' || c == '\U{3000}'
  }

  predicate AllWhitespace(s: string) {
    forall i :: 0 <= i < |s| ==> IsWhitespace(s[i])
  }

  /** `str::trim_start`: drops the longest all-whitespace prefix. */
  function TrimStart(s: string): (r: string)
    ensures |r| <= |s| && r == s[|s| - |r|..]
    ensures AllWhitespace(s[..|s| - |r|])
    ensures r != [] ==> !IsWhitespace(r[0])
  {
    if s != [] && IsWhitespace(s[0]) then TrimStart(s[1..]) else s
  }

  /** `str::trim_end`: drops the longest all-whitespace suffix. */
  function TrimEnd(s: string): (r: string)
    ensures |r| <= |s| && r == s[..|r|]
    ensures AllWhitespace(s[|r|..])
    ensures r != [] ==> !IsWhitespace(r[|r| - 1])
  {
    if s != [] && IsWhitespace(s[|s| - 1]) then
      var r := TrimEnd(s[..|s| - 1]);
      assert s[|r|..] == s[..|s| - 1][|r|..] + [s[|s| - 1]];
      r
    else s
  }

  /** `str::trim`. */
  function Trim(s: string): string {
    TrimEnd(TrimStart(s))
  }

  /** The number of occurrences of `c` in `s`. */
  function Count(s: string, c: char): (n: nat)
    ensures n <= |s|
    ensures n == 0 <==> c !in s
  {
    if s == [] then 0 else (if s[0] == c then 1 else 0) + Count(s[1..], c)
  }

  /** The parts joined back together, `sep` between neighbours (`[T]::join`). */
  function Join(parts: seq<string>, sep: char): string
    requires |parts| > 0
  {
    if |parts| == 1 then parts[0] else parts[0] + [sep] + Join(parts[1..], sep)
  }

  /**
   * `parts` is `s` cut at every `sep`: one more part than separators, no part
   * holding a separator, joined back with `sep` they give `s`, and the first part
   * runs up to the first separator.
   */
  predicate IsSplit(parts: seq<string>, s: string, sep: char) {
    && |parts| == Count(s, sep) + 1
    && (forall i :: 0 <= i < |parts| ==> sep !in parts[i])
    && Join(parts, sep) == s
    && |parts[0]| <= |s| && parts[0] == s[..|parts[0]|]
    && (|parts| > 1 ==> |parts[0]| < |s| && s[|parts[0]|] == sep)
  }

  /**
   * `str::split` on a one-character pattern, collected: the maximal runs between
   * separators, so that there is always one more part than separators (an empty
   * text gives one empty part).
   */
  function Split(s: string, sep: char): (parts: seq<string>)
    ensures IsSplit(parts, s, sep)
  {
    if s == [] then [[]]
    else
      var rest := Split(s[1..], sep);
      if s[0] == sep then
        SplitAtSeparator(s, rest, sep);
        [[]] + rest
      else
        SplitExtendHead(s, rest, sep);
        [[s[0]] + rest[0]] + rest[1..]
  }

  /** A text starting with the separator: an empty first part, then the parts of the rest. */
  lemma SplitAtSeparator(s: string, rest: seq<string>, sep: char)
    requires s != [] && s[0] == sep && IsSplit(rest, s[1..], sep)
    ensures IsSplit([[]] + rest, s, sep)
  {
    var parts := [[]] + rest;
    assert parts[1..] == rest;
    assert s == [sep] + s[1..];
  }

  /** A text starting with another character: it joins the first part of the rest. */
  lemma SplitExtendHead(s: string, rest: seq<string>, sep: char)
    requires s != [] && s[0] != sep && IsSplit(rest, s[1..], sep)
    ensures IsSplit([[s[0]] + rest[0]] + rest[1..], s, sep)
  {
    var parts := [[s[0]] + rest[0]] + rest[1..];
    if |rest| > 1 {
      assert parts[1..] == rest[1..];
    }
    assert s == [s[0]] + s[1..];
    forall i | 0 <= i < |parts|
      ensures sep !in parts[i]
    {
      if i > 0 {
        assert parts[i] == rest[i];
      }
    }
  }

  /** Split's parts are determined by its text: the first part is all of `a` when `a` ends at a separator. */
  lemma {:induction false} SplitFirstAt(a: string, b: string, sep: char)
    requires sep !in a
    ensures Split(a + [sep] + b, sep)[0] == a
    ensures Split(a, sep) == [a]
  {
    var s := a + [sep] + b;
    var p0 := Split(s, sep)[0];
    assert s[|a|] == sep;
    assert Count(s, sep) > 0 by {
      assert sep in s;
    }
    assert |p0| == |a|;
    var q := Split(a, sep);
    assert |q| == 1;
    assert Join(q, sep) == q[0];
  }

  /** Text without a separator is one part. */
  lemma SplitNone(s: string, sep: char)
    requires sep !in s
    ensures Split(s, sep) == [s]
  {
    var q := Split(s, sep);
    assert Join(q, sep) == q[0];
  }

  /** Two separator-free texts around one separator split back into exactly those two. */
  lemma SplitPair(a: string, b: string, sep: char)
    requires sep !in a && sep !in b
    ensures Split(a + [sep] + b, sep) == [a, b]
  {
    var s := a + [sep] + b;
    var q := Split(s, sep);
    SplitFirstAt(a, b, sep);
    assert s[..|a|] == a && s[|a|] == sep && s[|a| + 1..] == b;
    assert Count(s, sep) == 1 by {
      CountAppend(a + [sep], b, sep);
      CountAppend(a, [sep], sep);
    }
    assert Join(q, sep) == q[0] + [sep] + q[1];
  }

  lemma {:induction false} CountAppend(a: string, b: string, c: char)
    ensures Count(a + b, c) == Count(a, c) + Count(b, c)
  {
    if a != [] {
      assert (a + b)[1..] == a[1..] + b;
      CountAppend(a[1..], b, c);
    } else {
      assert a + b == b;
    }
  }
}
