/** Text primitives shared by the rest of the model: an Option type for
    values that may be missing (and for operations that panic in Rust),
    ASCII character classes and case mapping, prefix/suffix tests,
    substring search, `str::replace`, `str::split` and decimal rendering. */
module Strings {

  datatype Option<+T> = None | Some(value: T)

  type byte = x: int | 0 <= x < 256

  predicate IsDigit(c: char) { '0' <= c <= '9' }

  /** Rust's `char::is_ascii_hexdigit`. */
  predicate IsHexDigit(c: char) {
    '0' <= c <= '9' || 'a' <= c <= 'f' || 'A' <= c <= 'F'
  }

  predicate IsAsciiLower(c: char) { 'a' <= c <= 'z' }

  predicate IsAsciiUpper(c: char) { 'A' <= c <= 'Z' }

  predicate IsAsciiAlpha(c: char) { IsAsciiLower(c) || IsAsciiUpper(c) }

  predicate IsAsciiAlphanumeric(c: char) { IsAsciiAlpha(c) || IsDigit(c) }

  predicate IsAscii(s: string) { forall i :: 0 <= i < |s| ==> s[i] < 128 as char }

  function UpperChar(c: char): (r: char)
    ensures IsAsciiLower(c) ==> IsAsciiUpper(r)
    ensures !IsAsciiLower(c) ==> r == c
  {
    if IsAsciiLower(c) then (c as int - 32) as char else c
  }

  function LowerChar(c: char): (r: char)
    ensures IsAsciiUpper(c) ==> IsAsciiLower(r)
    ensures !IsAsciiUpper(c) ==> r == c
  {
    if IsAsciiUpper(c) then (c as int + 32) as char else c
  }

  /** `str::to_uppercase`, restricted to the ASCII letters. */
  function Upper(s: string): (r: string)
    ensures |r| == |s|
    ensures forall i :: 0 <= i < |s| ==> r[i] == UpperChar(s[i])
  {
    seq(|s|, i requires 0 <= i < |s| => UpperChar(s[i]))
  }

  /** `str::to_lowercase`, restricted to the ASCII letters. */
  function Lower(s: string): (r: string)
    ensures |r| == |s|
    ensures forall i :: 0 <= i < |s| ==> r[i] == LowerChar(s[i])
  {
    seq(|s|, i requires 0 <= i < |s| => LowerChar(s[i]))
  }

  lemma LowerAppend(a: string, b: string)
    ensures Lower(a + b) == Lower(a) + Lower(b)
  {
    assert forall i :: 0 <= i < |a + b| ==> Lower(a + b)[i] == (Lower(a) + Lower(b))[i];
  }

  /** Text without upper-case letters is its own lower case. */
  lemma LowerNoUpper(s: string)
    requires forall i :: 0 <= i < |s| ==> !IsAsciiUpper(s[i])
    ensures Lower(s) == s
  {
    assert forall i :: 0 <= i < |s| ==> Lower(s)[i] == s[i];
  }

  predicate StartsWith(s: string, p: string) { |p| <= |s| && s[..|p|] == p }

  predicate EndsWith(s: string, p: string) { |p| <= |s| && s[|s| - |p|..] == p }

  /** `p` occurs in `s` starting at index `i`. */
  predicate OccursAt(s: string, p: string, i: nat) {
    i + |p| <= |s| && s[i..i + |p|] == p
  }

  /** `str::contains` with a string pattern. */
  predicate Contains(s: string, p: string) {
    exists i: nat | i <= |s| :: OccursAt(s, p, i)
  }

  /** The first index at or after `from` where `p` occurs (`str::find`). */
  function IndexOfFrom(s: string, p: string, from: nat): (r: Option<nat>)
    decreases |s| - from
    ensures r.Some? ==> from <= r.value && OccursAt(s, p, r.value)
    ensures r.Some? ==> forall j: nat :: from <= j < r.value ==> !OccursAt(s, p, j)
    ensures r.None? ==> forall j: nat :: from <= j ==> !OccursAt(s, p, j)
  {
    if from + |p| > |s| then None
    else if OccursAt(s, p, from) then Some(from)
    else IndexOfFrom(s, p, from + 1)
  }

  function IndexOf(s: string, p: string): (r: Option<nat>)
    ensures r.Some? ==> OccursAt(s, p, r.value)
    ensures r.Some? ==> forall j: nat :: j < r.value ==> !OccursAt(s, p, j)
    ensures r.None? <==> !Contains(s, p)
  {
    IndexOfFrom(s, p, 0)
  }

  /** The first occurrence is where it occurs with none before it. */
  lemma IndexOfIs(s: string, p: string, i: nat)
    requires OccursAt(s, p, i)
    requires forall j: nat :: j < i ==> !OccursAt(s, p, j)
    ensures IndexOf(s, p) == Some(i)
  {
    assert i <= |s|;
  }

  /** Rust's `str::replace(p, r)` for a non-empty pattern: the leftmost
      occurrences, scanned left to right without overlap, become `r`. */
  function ReplaceAll(s: string, p: string, r: string): string
    requires |p| > 0
    decreases |s|
  {
    if |s| < |p| then s
    else if s[..|p|] == p then r + ReplaceAll(s[|p|..], p, r)
    else [s[0]] + ReplaceAll(s[1..], p, r)
  }

  /** Replacing a pattern that does not occur leaves the text unchanged. */
  lemma {:induction false} ReplaceAbsent(s: string, p: string, r: string)
    requires |p| > 0
    requires !Contains(s, p)
    ensures ReplaceAll(s, p, r) == s
  {
    if |s| >= |p| {
      assert !OccursAt(s, p, 0);
      assert s[..|p|] != p;
      if Contains(s[1..], p) {
        var i: nat :| i <= |s[1..]| && OccursAt(s[1..], p, i);
        assert s[i + 1..i + 1 + |p|] == s[1..][i..i + |p|];
        assert OccursAt(s, p, i + 1);
      }
      ReplaceAbsent(s[1..], p, r);
      assert s == [s[0]] + s[1..];
    }
  }

  /** A pattern found in the text without its first character is found
      in the text. */
  lemma ContainsTail(s: string, p: string)
    requires |s| > 0 && Contains(s[1..], p)
    ensures Contains(s, p)
  {
    var i: nat :| i <= |s[1..]| && OccursAt(s[1..], p, i);
    assert s[i + 1..i + 1 + |p|] == s[1..][i..i + |p|];
    assert OccursAt(s, p, i + 1);
  }

  /** No occurrence of `p` in `u + v` starts inside `u` and ends inside `v`. */
  predicate NoSpanningOccurrence(u: string, v: string, p: string)
  {
    forall i: nat :: i < |u| < i + |p| ==> !OccursAt(u + v, p, i)
  }

  /** Dropping the first `d` characters of `u` keeps the cut clean. */
  lemma NoSpanningShift(u: string, v: string, p: string, d: nat)
    requires d <= |u| && NoSpanningOccurrence(u, v, p)
    ensures (u + v)[d..] == u[d..] + v
    ensures NoSpanningOccurrence(u[d..], v, p)
  {
    var s, u' := u + v, u[d..];
    assert s[d..] == u' + v;
    forall i: nat | i < |u'| < i + |p|
      ensures !OccursAt(u' + v, p, i)
    {
      assert !OccursAt(s, p, i + d);
      if i + |p| <= |u' + v| {
        assert (u' + v)[i..i + |p|] == s[i + d..i + d + |p|];
      }
    }
  }

  /** An occurrence at the front of `u + v` lies inside `u`: `replace`
      takes it from `u` and goes on with the rest of `u`. */
  lemma ReplaceAllAppendMatch(u: string, v: string, p: string, r: string)
    requires |p| > 0 && |u| > 0 && NoSpanningOccurrence(u, v, p)
    requires |u + v| >= |p| && (u + v)[..|p|] == p
    ensures |u| >= |p|
    ensures ReplaceAll(u[|p|..] + v, p, r) == ReplaceAll(u[|p|..], p, r) + ReplaceAll(v, p, r) ==>
            ReplaceAll(u + v, p, r) == ReplaceAll(u, p, r) + ReplaceAll(v, p, r)
  {
    var s := u + v;
    assert OccursAt(s, p, 0);
    assert |u| >= |p|;
    assert u[..|p|] == s[..|p|];
    assert s[|p|..] == u[|p|..] + v;
  }

  /** Without an occurrence at the front, `replace` copies the first
      character of `u + v`; it copies the first character of `u` too. */
  lemma ReplaceAllAppendSkip(u: string, v: string, p: string, r: string)
    requires |p| > 0 && |u| > 0 && |u + v| >= |p| && (u + v)[..|p|] != p
    ensures ReplaceAll(u[1..] + v, p, r) == ReplaceAll(u[1..], p, r) + ReplaceAll(v, p, r) ==>
            ReplaceAll(u + v, p, r) == ReplaceAll(u, p, r) + ReplaceAll(v, p, r)
  {
    var s := u + v;
    assert s[1..] == u[1..] + v;
    assert ReplaceAll(s, p, r) == [u[0]] + ReplaceAll(u[1..] + v, p, r);
    if |u| >= |p| {
      assert u[..|p|] == s[..|p|];
      assert ReplaceAll(u, p, r) == [u[0]] + ReplaceAll(u[1..], p, r);
    } else {
      ReplaceAllShort(u[1..], p, r);
      ReplaceAllShort(u, p, r);
      assert u == [u[0]] + u[1..];
    }
  }

  /** Text shorter than the pattern is kept. */
  lemma ReplaceAllShort(s: string, p: string, r: string)
    requires |p| > 0 && |s| < |p|
    ensures ReplaceAll(s, p, r) == s
  {
  }

  /** `replace` works on the two halves of a text separately when no
      occurrence straddles the cut. */
  lemma {:induction false} ReplaceAllAppend(u: string, v: string, p: string, r: string)
    requires |p| > 0 && NoSpanningOccurrence(u, v, p)
    ensures ReplaceAll(u + v, p, r) == ReplaceAll(u, p, r) + ReplaceAll(v, p, r)
    decreases |u|
  {
    if u == [] {
      assert u + v == v;
    } else if |u + v| < |p| {
      assert ReplaceAll(u + v, p, r) == u + v;
    } else if (u + v)[..|p|] == p {
      ReplaceAllAppendMatch(u, v, p, r);
      NoSpanningShift(u, v, p, |p|);
      ReplaceAllAppend(u[|p|..], v, p, r);
    } else {
      ReplaceAllAppendSkip(u, v, p, r);
      NoSpanningShift(u, v, p, 1);
      ReplaceAllAppend(u[1..], v, p, r);
    }
  }

  /** With a one-character pattern, `replace` maps every character. */
  lemma ReplaceCharStep(s: string, c: char, r: string)
    requires |s| > 0
    ensures ReplaceAll(s, [c], r)
            == (if s[0] == c then r else [s[0]]) + ReplaceAll(s[1..], [c], r)
  {
    assert s[..1] == [s[0]];
  }

  /** Replacing a character distributes over concatenation. */
  lemma {:induction false} ReplaceCharAppend(a: string, b: string, c: char, r: string)
    ensures ReplaceAll(a + b, [c], r) == ReplaceAll(a, [c], r) + ReplaceAll(b, [c], r)
  {
    if a == [] {
      assert a + b == b;
    } else {
      ReplaceCharStep(a + b, c, r);
      ReplaceCharStep(a, c, r);
      assert (a + b)[1..] == a[1..] + b;
      ReplaceCharAppend(a[1..], b, c, r);
    }
  }

  /** Number of occurrences of `c` in `s`. */
  function CountChar(s: string, c: char): (n: nat)
    ensures n <= |s|
    ensures n == 0 <==> c !in s
  {
    if s == [] then 0 else (if s[0] == c then 1 else 0) + CountChar(s[1..], c)
  }

  lemma {:induction false} CountCharAppend(a: string, b: string, c: char)
    ensures CountChar(a + b, c) == CountChar(a, c) + CountChar(b, c)
  {
    if a != [] {
      assert (a + b)[1..] == a[1..] + b;
      CountCharAppend(a[1..], b, c);
    } else {
      assert a + b == b;
    }
  }

  function DigitChar(d: nat): (c: char)
    requires d < 10
    ensures IsDigit(c)
  {
    ('0' as int + d) as char
  }

  /** Decimal rendering of a natural number, as `format!("{}", n)`. */
  function NatToString(n: nat): (r: string)
    decreases n
    ensures |r| >= 1
    ensures forall i :: 0 <= i < |r| ==> IsDigit(r[i])
  {
    if n < 10 then [DigitChar(n)] else NatToString(n / 10) + [DigitChar(n % 10)]
  }

  /** `str::split(sep)` with a character separator: the pieces between the
      separators, always at least one. */
  function Split(s: string, sep: char): (r: seq<string>)
    ensures |r| >= 1
    ensures forall k :: 0 <= k < |r| ==> sep !in r[k]
  {
    if s == [] then [[]]
    else if s[0] == sep then [[]] + Split(s[1..], sep)
    else
      var rest := Split(s[1..], sep);
      [[s[0]] + rest[0]] + rest[1..]
  }

  /** The first piece of `split(sep)`: the text before the first `sep`. */
  function TakeUntil(s: string, sep: char): (r: string)
    ensures sep !in r
    ensures StartsWith(s, r)
    ensures |r| < |s| ==> s[|r|] == sep
  {
    if s == [] || s[0] == sep then [] else [s[0]] + TakeUntil(s[1..], sep)
  }

  /** Text without the separator splits into itself alone. */
  lemma {:induction false} SplitNoSeparator(s: string, sep: char)
    requires sep !in s
    ensures Split(s, sep) == [s]
  {
    if s != [] {
      assert s[0] != sep;
      SplitNoSeparator(s[1..], sep);
      assert s == [s[0]] + s[1..];
    }
  }

  lemma {:induction false} SplitHeadIsTakeUntil(s: string, sep: char)
    ensures Split(s, sep)[0] == TakeUntil(s, sep)
  {
    if s != [] && s[0] != sep {
      SplitHeadIsTakeUntil(s[1..], sep);
    }
  }

  /** Joining the pieces of `split(sep)` with `sep` gives back the text. */
  function Join(parts: seq<string>, sep: char): string
    requires |parts| >= 1
  {
    if |parts| == 1 then parts[0] else parts[0] + [sep] + Join(parts[1..], sep)
  }

  lemma {:induction false} JoinSplit(s: string, sep: char)
    ensures Join(Split(s, sep), sep) == s
  {
    if s == [] {
    } else if s[0] == sep {
      JoinSplit(s[1..], sep);
      assert Split(s, sep)[1..] == Split(s[1..], sep);
    } else {
      JoinSplit(s[1..], sep);
      var rest := Split(s[1..], sep);
      if |rest| == 1 {
      } else {
        assert Split(s, sep)[1..] == rest[1..];
      }
    }
  }

  /** A text is its three consecutive slices. */
  lemma SliceSplit(s: string, i: nat, e: nat)
    requires i <= e <= |s|
    ensures s == s[..i] + s[i..e] + s[e..]
  {
    assert s[..e] == s[..i] + s[i..e];
    assert s == s[..e] + s[e..];
  }

  /** Swapping a middle part holding one `c` for one holding none removes
      exactly one `c`. */
  lemma CountSplice(a: string, m: string, repl: string, b: string, c: char)
    requires CountChar(m, c) == 1 && c !in repl
    ensures CountChar(a + repl + b, c) == CountChar(a + m + b, c) - 1
  {
    CountCharAppend(a + m, b, c);
    CountCharAppend(a, m, c);
    CountCharAppend(a + repl, b, c);
    CountCharAppend(a, repl, c);
  }

  /** The number of bytes UTF-8 spends on `c`. */
  function Utf8Width(c: char): (n: nat)
    ensures 1 <= n <= 4
    ensures c < 128 as char <==> n == 1
  {
    if c < 0x80 as char then 1
    else if c < 0x800 as char then 2
    else if c < 0x1_0000 as char then 3
    else 4
  }

  /** `str::len`: the UTF-8 length in bytes. */
  function Utf8Len(s: string): (n: nat)
    ensures n >= |s|
    ensures n == 0 <==> s == []
  {
    if s == [] then 0 else Utf8Width(s[0]) + Utf8Len(s[1..])
  }

  /** ASCII text is as long in bytes as in characters. */
  lemma {:induction false} Utf8LenAscii(s: string)
    requires IsAscii(s)
    ensures Utf8Len(s) == |s|
  {
    if s != [] {
      assert s[0] < 128 as char;
      Utf8LenAscii(s[1..]);
    }
  }

  /** `String::truncate(n)` and `&s[..n]` on a longer text: the prefix of
      `n` bytes; `None` where Rust panics, when `n` falls inside a
      character. A text of at most `n` bytes is kept whole. */
  function TruncateBytes(s: string, n: nat): (r: Option<string>)
    ensures Utf8Len(s) <= n ==> r == Some(s)
    ensures r.Some? ==> StartsWith(s, r.value) && Utf8Len(r.value) <= n
    ensures r.Some? && Utf8Len(s) > n ==> Utf8Len(r.value) == n
  {
    if s == [] || n == 0 then Some([])
    else if Utf8Width(s[0]) > n then None
    else match TruncateBytes(s[1..], n - Utf8Width(s[0]))
      case None => None
      case Some(t) =>
        assert s == [s[0]] + s[1..];
        Some([s[0]] + t)
  }

  /** `n` bytes into `s` is the end of a character. */
  ghost predicate IsCharBoundary(s: string, n: nat)
  {
    exists k :: 0 <= k <= |s| && Utf8Len(s[..k]) == n
  }

  /** Truncating at the end of a character keeps the characters before it. */
  lemma {:induction false} TruncateBytesAtBoundary(s: string, n: nat, k: nat)
    requires k <= |s| && Utf8Len(s[..k]) == n
    ensures TruncateBytes(s, n) == Some(s[..k])
  {
    if k > 0 {
      assert s[..k] == [s[0]] + s[1..][..k - 1];
      assert s[..k][1..] == s[1..][..k - 1];
      TruncateBytesAtBoundary(s[1..], n - Utf8Width(s[0]), k - 1);
    }
  }

  /** Truncation panics exactly when the text is longer than `n` bytes and
      `n` falls inside a character. */
  lemma TruncateBytesPanics(s: string, n: nat)
    ensures TruncateBytes(s, n).None? <==> Utf8Len(s) > n && !IsCharBoundary(s, n)
  {
    var r := TruncateBytes(s, n);
    if r.Some? && Utf8Len(s) > n {
      var t := r.value;
      assert s[..|t|] == t;
      assert Utf8Len(s[..|t|]) == n;
    }
    if IsCharBoundary(s, n) {
      var k :| 0 <= k <= |s| && Utf8Len(s[..k]) == n;
      TruncateBytesAtBoundary(s, n, k);
    }
  }

  /** On ASCII text, truncating to `n` bytes keeps the first `n` characters. */
  lemma {:induction false} TruncateBytesAscii(s: string, n: nat)
    requires IsAscii(s)
    ensures TruncateBytes(s, n) == Some(s[..if n <= |s| then n else |s|])
  {
    if s != [] && n != 0 {
      assert s[0] < 128 as char;
      assert IsAscii(s[1..]);
      TruncateBytesAscii(s[1..], n - 1);
      assert s[..if n <= |s| then n else |s|] == [s[0]] + s[1..][..if n - 1 <= |s| - 1 then n - 1 else |s| - 1];
    } else if s == [] {
    }
  }

  /** Rust's `char::is_whitespace`: the characters with the Unicode
      White_Space property. */
  predicate IsWhitespace(c: char)
  {
    ('\t' <= c <= '\r') || c == ' ' || c == '\U{0085}' || c == '\U{00A0}' || c == '\U{1680}'
    || ('\U{2000}' <= c <= '\U{200A}') || c == '\U{2028}' || c == '\U{2029}'
    || c == '\U{202F}' || c == '\U{205F}' || c == '\U{3000}'
  }

  function TrimStart(s: string): (r: string)
    ensures r == [] || !IsWhitespace(r[0])
  {
    if s != [] && IsWhitespace(s[0]) then TrimStart(s[1..]) else s
  }

  function TrimEnd(s: string): (r: string)
    ensures r == [] || !IsWhitespace(r[|r| - 1])
    ensures |r| <= |s| && r == s[..|r|]
  {
    if s != [] && IsWhitespace(s[|s| - 1]) then TrimEnd(s[..|s| - 1]) else s
  }

  /** `str::trim`. */
  function Trim(s: string): (r: string)
    ensures r == [] || (!IsWhitespace(r[0]) && !IsWhitespace(r[|r| - 1]))
  {
    TrimEnd(TrimStart(s))
  }

  /** A text with no white space at either end is its own trim. */
  lemma TrimNoop(s: string)
    requires s == [] || (!IsWhitespace(s[0]) && !IsWhitespace(s[|s| - 1]))
    ensures Trim(s) == s
  {
  }
}
