/**
 * The pieces of Rust's string library the loader leans on: `str::trim`,
 * `str::to_uppercase` and `str::splitn(2, c)`, stated over `seq<char>`.
 */
module Text {
  import opened Wrappers

  /** Rust's `char::is_whitespace`: the Unicode White_Space property. */
  predicate IsWhitespace(c: char): (b: bool)
    ensures b ==> !('!' <= c <= '~')
  {
    || ('\t' <= c <= '\r')          // U+0009 .. U+000D
    || c == ' '
    || c == '\U{0085}' || c == '\U{00A0}' || c == '\U{1680}'
    || ('\U{2000}' <= c <= '\U{200A}')
    || c == '\U{2028}' || c == '\U{2029}' || c == '\U{202F}'
    || c == '\U{205F}' || c == '\U{3000}'
  }

  /** The number of whitespace characters `s` starts with. */
  function LeadingSpace(s: string): (n: nat)
    ensures n <= |s|
    ensures forall i :: 0 <= i < n ==> IsWhitespace(s[i])
    ensures n < |s| ==> !IsWhitespace(s[n])
  {
    if s == [] || !IsWhitespace(s[0]) then 0 else 1 + LeadingSpace(s[1..])
  }

  /** The number of whitespace characters `s` ends with. */
  function TrailingSpace(s: string): (n: nat)
    ensures n <= |s|
    ensures forall i :: |s| - n <= i < |s| ==> IsWhitespace(s[i])
    ensures n < |s| ==> !IsWhitespace(s[|s| - n - 1])
  {
    if s == [] || !IsWhitespace(s[|s| - 1]) then 0 else 1 + TrailingSpace(s[..|s| - 1])
  }

  /**
   * Rust's `str::trim`: `s` without its leading and trailing whitespace. What
   * is cut off is whitespace, and what is kept neither starts nor ends with it.
   */
  function Trim(s: string): (r: string)
    ensures var a := LeadingSpace(s);
      && a + |r| <= |s| && r == s[a..a + |r|]
      && (forall i :: 0 <= i < a ==> IsWhitespace(s[i]))
      && (forall i :: a + |r| <= i < |s| ==> IsWhitespace(s[i]))
    ensures r != [] ==> !IsWhitespace(r[0]) && !IsWhitespace(r[|r| - 1])
  {
    var a := LeadingSpace(s);
    var b := TrailingSpace(s[a..]);
    s[a..|s| - b]
  }

  /** A string that neither starts nor ends with whitespace is its own trim. */
  lemma TrimOfTrimmed(s: string)
    requires s != [] ==> !IsWhitespace(s[0]) && !IsWhitespace(s[|s| - 1])
    ensures Trim(s) == s
  {
    assert s[0..] == s;
  }

  /** Whitespace put in front of a string is exactly what LeadingSpace counts. */
  lemma {:induction false} LeadingSpaceOfPadded(ws: string, t: string)
    requires forall i :: 0 <= i < |ws| ==> IsWhitespace(ws[i])
    requires t != [] ==> !IsWhitespace(t[0])
    ensures LeadingSpace(ws + t) == |ws|
  {
    if ws != [] {
      assert (ws + t)[1..] == ws[1..] + t;
      LeadingSpaceOfPadded(ws[1..], t);
    }
  }

  /** Trimming removes whitespace put in front of a trimmed string. */
  lemma TrimOfPadded(ws: string, t: string)
    requires forall i :: 0 <= i < |ws| ==> IsWhitespace(ws[i])
    requires t != [] ==> !IsWhitespace(t[0]) && !IsWhitespace(t[|t| - 1])
    ensures Trim(ws + t) == t
  {
    LeadingSpaceOfPadded(ws, t);
    assert (ws + t)[|ws|..] == t;
  }

  /** Trimming twice is trimming once. */
  lemma TrimIdempotent(s: string)
    ensures Trim(Trim(s)) == Trim(s)
  {
    TrimOfTrimmed(Trim(s));
  }

  predicate IsAsciiLower(c: char) {
    'a' <= c <= 'z'
  }

  /** `char::to_uppercase` on ASCII letters; every other character is kept. */
  function UpperChar(c: char): (u: char)
    ensures !IsAsciiLower(u)
    ensures IsAsciiLower(c) ==> u as int == c as int - 32
    ensures !IsAsciiLower(c) ==> u == c
  {
    if IsAsciiLower(c) then (c as int - 32) as char else c
  }

  /** True when no character of `s` is a lower-case ASCII letter. */
  predicate NoLower(s: string) {
    forall i :: 0 <= i < |s| ==> !IsAsciiLower(s[i])
  }

  /** `str::to_uppercase` on ASCII text: same length, each character upper-cased. */
  function Upper(s: string): (r: string)
    ensures |r| == |s|
    ensures forall i :: 0 <= i < |s| ==> r[i] == UpperChar(s[i])
    ensures NoLower(r)
  {
    if s == [] then [] else [UpperChar(s[0])] + Upper(s[1..])
  }

  /** Upper-casing leaves a string without lower-case letters alone. */
  lemma UpperFixesNoLower(s: string)
    requires NoLower(s)
    ensures Upper(s) == s
  {
    assert forall i :: 0 <= i < |s| ==> Upper(s)[i] == s[i];
  }

  /** Upper-casing is idempotent, so a key upper-cased twice is the key upper-cased once. */
  lemma UpperIdempotent(s: string)
    ensures Upper(Upper(s)) == Upper(s)
  {
    UpperFixesNoLower(Upper(s));
  }

  /** A string holding a lower-case letter is the upper-case form of nothing. */
  lemma LowerNotInUpperRange(key: string)
    requires !NoLower(key)
    ensures forall k :: Upper(k) != key
  {
  }

  /** The index of the first `c` in `s`, or None when `s` has none. */
  function FindFirst(s: string, c: char): (r: Option<nat>)
    ensures r.None? <==> c !in s
    ensures r.Some? ==> r.value < |s| && s[r.value] == c && c !in s[..r.value]
  {
    if s == [] then None
    else if s[0] == c then Some(0)
    else match FindFirst(s[1..], c)
      case None => None
      case Some(i) =>
        assert s[..i + 1] == [s[0]] + s[1..][..i];
        Some(i + 1)
  }

  /**
   * Rust's `s.splitn(2, c).collect()`: `[s]` when `s` holds no `c`,
   * otherwise the text before the first `c` and everything after it.
   */
  function SplitOnce(s: string, c: char): (parts: seq<string>)
    ensures |parts| == 1 || |parts| == 2
    ensures |parts| == 1 <==> c !in s
    ensures |parts| == 1 ==> parts[0] == s
    ensures |parts| == 2 ==> s == parts[0] + [c] + parts[1] && c !in parts[0]
  {
    match FindFirst(s, c)
    case None => [s]
    case Some(i) =>
      assert s == s[..i] + [c] + s[i + 1..];
      [s[..i], s[i + 1..]]
  }

  /** Cutting at the first `c` is unambiguous. */
  lemma {:induction false} SplitAtFirstUnique(pre: string, post: string, pre': string, post': string, c: char)
    requires pre + [c] + post == pre' + [c] + post'
    requires c !in pre && c !in pre'
    ensures pre == pre' && post == post'
  {
    var s := pre + [c] + post;
    assert |pre| == |pre'| by {
      assert s[|pre|] == c && s[|pre'|] == c;
    }
    assert pre == s[..|pre|] == pre';
    assert post == s[|pre| + 1..] == post';
  }

  /** SplitOnce cuts exactly at the first occurrence, whatever follows it. */
  lemma SplitOnceAt(pre: string, post: string, c: char)
    requires c !in pre
    ensures SplitOnce(pre + [c] + post, c) == [pre, post]
  {
    var parts := SplitOnce(pre + [c] + post, c);
    assert c in pre + [c] + post by { assert (pre + [c] + post)[|pre|] == c; }
    SplitAtFirstUnique(parts[0], parts[1], pre, post, c);
  }
}
