/** The inputs of the preview generator
    (components/preview-generator/src/inputs.rs): the colour field, which
    accepts hex and `rgb(...)` colours and keeps the caret in place while
    normalising, and the brand field with its suggestion lists. */
module PreviewInputs {
  import opened Strings
  import opened Types
  import Sdk

  // ---------------------------------------------------------------------
  // parse_color_to_hex

  predicate AllHex(s: string) { forall i :: 0 <= i < |s| ==> IsHexDigit(s[i]) }

  predicate AllDigits(s: string) { forall i :: 0 <= i < |s| ==> IsDigit(s[i]) }

  function DigitValue(c: char): nat
    requires IsDigit(c)
  {
    c as int - '0' as int
  }

  /** The value of a run of decimal digits. */
  function DigitsValue(s: string): nat
    requires AllDigits(s)
  {
    if s == [] then 0 else DigitsValue(s[..|s| - 1]) * 10 + DigitValue(s[|s| - 1])
  }

  /** `str::parse::<u8>()`: an optional '+', at least one digit, and a value
      below 256. */
  function ParseU8(s: string): (r: Option<nat>)
    ensures r.Some? ==> r.value < 256
  {
    var digits := if |s| > 0 && s[0] == '+' then s[1..] else s;
    if digits == [] || !AllDigits(digits) then None
    else if DigitsValue(digits) > 255 then None
    else Some(DigitsValue(digits))
  }

  /** Decimal text parses back to its number. */
  lemma {:induction false} DigitsValueOfNatToString(n: nat)
    ensures AllDigits(NatToString(n)) && DigitsValue(NatToString(n)) == n
  {
    var s := NatToString(n);
    if n >= 10 {
      DigitsValueOfNatToString(n / 10);
      assert s[..|s| - 1] == NatToString(n / 10);
    }
  }

  lemma ParseU8OfNatToString(n: nat)
    requires n < 256
    ensures ParseU8(NatToString(n)) == Some(n)
  {
    DigitsValueOfNatToString(n);
    assert IsDigit(NatToString(n)[0]);
  }

  function HexDigitUpper(d: nat): (c: char)
    requires d < 16
    ensures IsHexDigit(c) && !IsAsciiLower(c)
  {
    if d < 10 then ('0' as int + d) as char else ('A' as int + d - 10) as char
  }

  function HexDigitValue(c: char): nat
  {
    if '0' <= c <= '9' then c as int - '0' as int
    else if 'A' <= c <= 'F' then c as int - 'A' as int + 10
    else if 'a' <= c <= 'f' then c as int - 'a' as int + 10
    else 0
  }

  /** Rust's two-digit upper-case hex formatting of a byte. */
  function Hex2(n: nat): (r: string)
    requires n < 256
    ensures |r| == 2 && AllHex(r) && !IsAsciiLower(r[0]) && !IsAsciiLower(r[1])
  {
    [HexDigitUpper(n / 16), HexDigitUpper(n % 16)]
  }

  /** The two digits read back as the byte they format. */
  lemma Hex2Decodes(n: nat)
    requires n < 256
    ensures 16 * HexDigitValue(Hex2(n)[0]) + HexDigitValue(Hex2(n)[1]) == n
  {
  }

  const RgbPrefix: string := "rgb("
  const RgbaPrefix: string := "rgba("

  /** The text between the first '(' and the first ')'; `None` when either
      is missing (the `?` on `find`). */
  function RgbContent(trimmed: string): (r: Option<string>)
    requires StartsWith(trimmed, RgbPrefix) || StartsWith(trimmed, RgbaPrefix)
  {
    match IndexOf(trimmed, "(")
    case None => None
    case Some(start) =>
      match IndexOf(trimmed, ")")
      case None => None
      case Some(end) =>
        ParenthesesOrdered(trimmed, start, end);
        Some(trimmed[start + 1..end])
  }

  /** In a text starting with "rgb(" or "rgba(", the first ')' comes after
      the first '('. */
  lemma ParenthesesOrdered(trimmed: string, start: nat, end: nat)
    requires StartsWith(trimmed, RgbPrefix) || StartsWith(trimmed, RgbaPrefix)
    requires IndexOf(trimmed, "(") == Some(start)
    requires IndexOf(trimmed, ")") == Some(end)
    ensures start + 1 <= end <= |trimmed|
  {
    var p := if StartsWith(trimmed, RgbPrefix) then RgbPrefix else RgbaPrefix;
    assert OccursAt(trimmed, "(", |p| - 1) by {
      assert trimmed[|p| - 1] == p[|p| - 1];
    }
    forall j: nat | j < |p|
      ensures !OccursAt(trimmed, ")", j)
    {
      assert trimmed[j] == p[j];
      assert trimmed[j..j + 1] == [trimmed[j]];
    }
  }

  /** The hex text for `rgb(r, g, b)`: three components parsed as bytes. */
  function ParseRgb(trimmed: string): Option<string>
    requires StartsWith(trimmed, RgbPrefix) || StartsWith(trimmed, RgbaPrefix)
  {
    match RgbContent(trimmed)
    case None => None
    case Some(content) =>
      var parts := Split(content, ',');
      if |parts| >= 3 then
        match (ParseU8(Trim(parts[0])), ParseU8(Trim(parts[1])), ParseU8(Trim(parts[2])))
        case (Some(r), Some(g), Some(b)) => Some(Hex2(r) + Hex2(g) + Hex2(b))
        case _ => None
      else None
  }

  /** The trimmed, lower-cased input `parse_color_to_hex` works on. */
  function Prepared(input: string): string { Lower(Trim(input)) }

  /** `parse_color_to_hex`: a '#' and hex digits give the digits upper-cased;
      `rgb(...)`/`rgba(...)` gives the first three components as hex;
      anything else gives nothing. */
  function ParseColorToHex(input: string): Option<string>
  {
    var trimmed := Prepared(input);
    if StartsWith(trimmed, "#") && AllHex(Upper(trimmed[1..])) then Some(Upper(trimmed[1..]))
    else if StartsWith(trimmed, RgbPrefix) || StartsWith(trimmed, RgbaPrefix) then ParseRgb(trimmed)
    else None
  }

  /** A colour read from `rgb(...)` is six upper-case hex digits. */
  lemma ParseRgbSound(trimmed: string)
    requires StartsWith(trimmed, RgbPrefix) || StartsWith(trimmed, RgbaPrefix)
    requires ParseRgb(trimmed).Some?
    ensures var h := ParseRgb(trimmed).value;
      |h| == 6 && AllHex(h) && forall i :: 0 <= i < |h| ==> !IsAsciiLower(h[i])
  {
    var content := RgbContent(trimmed).value;
    var parts := Split(content, ',');
    var r, g, b := ParseU8(Trim(parts[0])).value, ParseU8(Trim(parts[1])).value, ParseU8(Trim(parts[2])).value;
    assert ParseRgb(trimmed).value == Hex2(r) + Hex2(g) + Hex2(b);
    UpperHexConcat(Hex2(r), Hex2(g), Hex2(b));
  }

  /** Three two-digit upper-case hex strings make six such digits. */
  lemma UpperHexConcat(x: string, y: string, z: string)
    requires |x| == 2 && AllHex(x) && !IsAsciiLower(x[0]) && !IsAsciiLower(x[1])
    requires |y| == 2 && AllHex(y) && !IsAsciiLower(y[0]) && !IsAsciiLower(y[1])
    requires |z| == 2 && AllHex(z) && !IsAsciiLower(z[0]) && !IsAsciiLower(z[1])
    ensures var h := x + y + z;
      |h| == 6 && AllHex(h) && forall i :: 0 <= i < |h| ==> !IsAsciiLower(h[i])
  {
    var h := x + y + z;
    forall i | 0 <= i < 6
      ensures IsHexDigit(h[i]) && !IsAsciiLower(h[i])
    {
      if i < 2 { assert h[i] == x[i]; }
      else if i < 4 { assert h[i] == y[i - 2]; }
      else { assert h[i] == z[i - 4]; }
    }
  }

  /** A parsed colour is made of upper-case hex digits; one read from
      `rgb(...)` has exactly six, two per component. */
  lemma ParseColorToHexSound(input: string)
    requires ParseColorToHex(input).Some?
    ensures var h := ParseColorToHex(input).value;
      AllHex(h) && (forall i :: 0 <= i < |h| ==> !IsAsciiLower(h[i]))
      && (!StartsWith(Prepared(input), "#") ==> |h| == 6)
  {
    var trimmed := Prepared(input);
    if StartsWith(trimmed, "#") && AllHex(Upper(trimmed[1..])) {
      var h := Upper(trimmed[1..]);
      assert forall i :: 0 <= i < |h| ==> !IsAsciiLower(h[i]);
    } else {
      ParseRgbSound(trimmed);
    }
  }

  /** `rgb(...)` gives a colour exactly when both parentheses are there,
      the content has at least three comma-separated parts, and the first
      three, trimmed, are bytes. */
  lemma ParseRgbSomeIff(trimmed: string)
    requires StartsWith(trimmed, RgbPrefix) || StartsWith(trimmed, RgbaPrefix)
    ensures ParseRgb(trimmed).Some? <==>
      RgbContent(trimmed).Some?
      && var parts := Split(RgbContent(trimmed).value, ',');
         |parts| >= 3 && ParseU8(Trim(parts[0])).Some? && ParseU8(Trim(parts[1])).Some?
         && ParseU8(Trim(parts[2])).Some?
  {
  }

  /** Text that is neither '#'-prefixed nor an `rgb(`/`rgba(` call gives
      nothing. */
  lemma ParseColorOtherSyntax(input: string)
    requires !StartsWith(Prepared(input), "#")
    requires !StartsWith(Prepared(input), RgbPrefix) && !StartsWith(Prepared(input), RgbaPrefix)
    ensures ParseColorToHex(input).None?
  {
  }

  lemma UpperLowerUpper(s: string)
    ensures Upper(Lower(s)) == Upper(s)
  {
    assert forall i :: 0 <= i < |s| ==> UpperChar(LowerChar(s[i])) == UpperChar(s[i]);
  }

  /** '#' and hex digits, in any case, parse to the digits upper-cased. */
  lemma ParseHashHex(h: string)
    requires AllHex(h)
    ensures ParseColorToHex("#" + h) == Some(Upper(h))
  {
    HashHexPrepared(h);
    var low := "#" + Lower(h);
    assert StartsWith(low, "#");
    assert low[1..] == Lower(h);
    UpperLowerUpper(h);
    UpperKeepsHex(h);
  }

  /** Trimming leaves "#" and hex digits alone; lower-casing keeps the '#'. */
  lemma HashHexPrepared(h: string)
    requires AllHex(h)
    ensures Prepared("#" + h) == "#" + Lower(h)
  {
    var s := "#" + h;
    assert !IsWhitespace(s[0]);
    assert !IsWhitespace(s[|s| - 1]) by {
      if h != [] {
        assert s[|s| - 1] == h[|h| - 1];
      }
    }
    TrimNoop(s);
    LowerAppend("#", h);
    assert Lower("#")[0] == LowerChar('#') == '#';
  }

  lemma UpperKeepsHex(h: string)
    requires AllHex(h)
    ensures AllHex(Upper(h))
  {
    forall i | 0 <= i < |h|
      ensures IsHexDigit(Upper(h)[i])
    {
      assert Upper(h)[i] == UpperChar(h[i]);
    }
  }

  lemma {:induction false} SplitBeforeSep(a: string, rest: string, sep: char)
    requires sep !in a
    ensures Split(a + [sep] + rest, sep) == [a] + Split(rest, sep)
  {
    if a == [] {
      assert a + [sep] + rest == [sep] + rest;
      assert ([sep] + rest)[1..] == rest;
    } else {
      assert a[0] != sep;
      assert (a + [sep] + rest)[1..] == a[1..] + [sep] + rest;
      SplitBeforeSep(a[1..], rest, sep);
      assert [a[0]] + a[1..] == a;
    }
  }

  lemma NatToStringFacts(n: nat)
    ensures ',' !in NatToString(n) && ')' !in NatToString(n) && '(' !in NatToString(n)
    ensures Trim(NatToString(n)) == NatToString(n)
    ensures Lower(NatToString(n)) == NatToString(n)
  {
    var s := NatToString(n);
    assert IsDigit(s[0]) && IsDigit(s[|s| - 1]);
    TrimNoop(s);
    assert forall i :: 0 <= i < |s| ==> Lower(s)[i] == s[i];
  }

  /** The text `rgb(r,g,b)` for three bytes. */
  function RgbText(r: nat, g: nat, b: nat): string
  {
    RgbPrefix + (NatToString(r) + [','] + (NatToString(g) + [','] + NatToString(b))) + ")"
  }

  /** The content of `rgb(` + `content` + `)`, when the content holds no ')'. */
  lemma RgbContentOf(content: string)
    requires ')' !in content
    ensures StartsWith(RgbPrefix + content + ")", RgbPrefix)
    ensures RgbContent(RgbPrefix + content + ")") == Some(content)
  {
    var s := RgbPrefix + content + ")";
    assert s[..4] == RgbPrefix;
    assert IndexOf(s, "(") == Some(3) by {
      assert s[3..4] == "(";
      forall j: nat | j < 3
        ensures !OccursAt(s, "(", j)
      {
        assert s[j] == RgbPrefix[j];
        assert s[j..j + 1] == [s[j]];
      }
      IndexOfIs(s, "(", 3);
    }
    assert IndexOf(s, ")") == Some(|s| - 1) by {
      assert s[|s| - 1..] == ")";
      forall j: nat | j < |s| - 1
        ensures !OccursAt(s, ")", j)
      {
        assert s[j..j + 1] == [s[j]];
        if j >= 4 {
          assert s[j] == content[j - 4];
        } else {
          assert s[j] == RgbPrefix[j];
        }
      }
      IndexOfIs(s, ")", |s| - 1);
    }
    assert s[4..|s| - 1] == content;
  }

  /** Three comma-free, parenthesis-free parts: `rgb(a,b,c)` is read as the
      three parts. */
  lemma ParseRgbOfParts(a: string, b: string, c: string)
    requires ',' !in a && ',' !in b && ',' !in c
    requires ')' !in a && ')' !in b && ')' !in c
    ensures var s := RgbPrefix + (a + [','] + (b + [','] + c)) + ")";
      StartsWith(s, RgbPrefix)
      && ParseRgb(s) == match (ParseU8(Trim(a)), ParseU8(Trim(b)), ParseU8(Trim(c)))
                        case (Some(r), Some(g), Some(bl)) => Some(Hex2(r) + Hex2(g) + Hex2(bl))
                        case _ => None
  {
    var content := a + [','] + (b + [','] + c);
    assert ')' !in content by {
      forall i | 0 <= i < |content| ensures content[i] != ')' {
        if i < |a| {
          assert content[i] == a[i];
        } else if i == |a| {
        } else if i < |a| + 1 + |b| {
          assert content[i] == b[i - |a| - 1];
        } else if i == |a| + 1 + |b| {
        } else {
          assert content[i] == c[i - |a| - 1 - |b| - 1];
        }
      }
    }
    RgbContentOf(content);
    SplitBeforeSep(a, b + [','] + c, ',');
    SplitBeforeSep(b, c, ',');
    SplitNoSeparator(c, ',');
    assert Split(content, ',') == [a, b, c];
  }

  /** `rgb(a,b,c)` with digit parts is already trimmed and lower case. */
  lemma RgbOfDigitsPrepared(a: string, b: string, c: string)
    requires AllDigits(a) && AllDigits(b) && AllDigits(c)
    ensures var s := RgbPrefix + (a + [','] + (b + [','] + c)) + ")";
      Prepared(s) == s
  {
    var content := a + [','] + (b + [','] + c);
    var s := RgbPrefix + content + ")";
    assert s[0] == 'r' && s[|s| - 1] == ')';
    TrimNoop(s);
    assert forall i :: 0 <= i < |content| ==> !IsAsciiUpper(content[i]) by {
      forall i | 0 <= i < |content| ensures !IsAsciiUpper(content[i]) {
        if i < |a| {
          assert content[i] == a[i];
        } else if i == |a| {
        } else if i < |a| + 1 + |b| {
          assert content[i] == b[i - |a| - 1];
        } else if i == |a| + 1 + |b| {
        } else {
          assert content[i] == c[i - |a| - 1 - |b| - 1];
        }
      }
    }
    LowerAppend(RgbPrefix + content, ")");
    LowerAppend(RgbPrefix, content);
    LowerNoUpper(RgbPrefix);
    LowerNoUpper(content);
    LowerNoUpper(")");
  }

  /** Digits hold neither separator. */
  lemma DigitsHaveNoSeparator(d: string)
    requires AllDigits(d)
    ensures ',' !in d && ')' !in d
  {
    forall i | 0 <= i < |d|
      ensures d[i] != ',' && d[i] != ')'
    {
      assert IsDigit(d[i]);
    }
  }

  /** `rgb(a,b,c)` with digit parts parses each part as a byte. */
  lemma ParseRgbOfDigits(a: string, b: string, c: string)
    requires AllDigits(a) && AllDigits(b) && AllDigits(c)
    ensures var s := RgbPrefix + (a + [','] + (b + [','] + c)) + ")";
      ParseColorToHex(s) == match (ParseU8(Trim(a)), ParseU8(Trim(b)), ParseU8(Trim(c)))
                            case (Some(r), Some(g), Some(bl)) => Some(Hex2(r) + Hex2(g) + Hex2(bl))
                            case _ => None
  {
    var s := RgbPrefix + (a + [','] + (b + [','] + c)) + ")";
    RgbOfDigitsPrepared(a, b, c);
    DigitsHaveNoSeparator(a);
    DigitsHaveNoSeparator(b);
    DigitsHaveNoSeparator(c);
    ParseRgbOfParts(a, b, c);
    assert !StartsWith(s, "#") by {
      assert s[0] == 'r';
    }
    assert ParseColorToHex(s) == ParseRgb(s);
  }

  /** `rgb(r,g,b)` with byte components gives the three bytes as two hex
      digits each, in order. */
  lemma ParseRgbTriple(r: nat, g: nat, b: nat)
    requires r < 256 && g < 256 && b < 256
    ensures ParseColorToHex(RgbText(r, g, b)) == Some(Hex2(r) + Hex2(g) + Hex2(b))
  {
    var sr, sg, sb := NatToString(r), NatToString(g), NatToString(b);
    DigitsValueOfNatToString(r);
    DigitsValueOfNatToString(g);
    DigitsValueOfNatToString(b);
    NatToStringFacts(r);
    NatToStringFacts(g);
    NatToStringFacts(b);
    ParseU8OfNatToString(r);
    ParseU8OfNatToString(g);
    ParseU8OfNatToString(b);
    ParseRgbOfDigits(sr, sg, sb);
  }

  // ---------------------------------------------------------------------
  // The colour field's on-input handler

  /** The value the colour field shows after an edit: the parsed colour, or
      else the text upper-cased without '#', cut to six bytes. `None` where
      Rust panics: the sixth byte falls inside a character. */
  function NormalizedColorValue(original: string): (r: Option<string>)
    ensures r.Some? ==> Utf8Len(r.value) <= 6 && '#' !in r.value
  {
    match ParseColorToHex(original)
    case Some(hex) =>
      var t := TruncateBytes(hex, 6);
      if t.Some? then
        NoHashInPrefix(hex, t.value);
        t
      else None
    case None =>
      var value := ReplaceAll(Upper(original), "#", "");
      Sdk.ReplaceHashIsWithout(Upper(original));
      var t := TruncateBytes(value, 6);
      if t.Some? then
        NoHashInPrefix(value, t.value);
        t
      else None
  }

  lemma NoHashInPrefix(s: string, p: string)
    requires StartsWith(s, p)
    requires '#' !in s || AllHex(s)
    ensures '#' !in p
  {
    forall i | 0 <= i < |p|
      ensures p[i] != '#'
    {
      assert p[i] == s[i];
    }
  }

  /** A parsed colour is ASCII, so cutting it never panics: the field shows
      its first six digits. */
  lemma NormalizedParsedColor(original: string)
    requires ParseColorToHex(original).Some?
    ensures var hex := ParseColorToHex(original).value;
      NormalizedColorValue(original) == Some(hex[..if |hex| <= 6 then |hex| else 6])
  {
    var hex := ParseColorToHex(original).value;
    ParseColorToHexSound(original);
    assert IsAscii(hex) by {
      assert forall i :: 0 <= i < |hex| ==> IsHexDigit(hex[i]);
    }
    TruncateBytesAscii(hex, 6);
  }

  /** The number of '#' among the first `caret` characters. */
  function HashesBefore(original: string, caret: nat): (n: nat)
    ensures n <= caret
  {
    var k := if caret <= |original| then caret else |original|;
    CountChar(original[..k], '#')
  }

  /** The caret after normalisation: moved left past the removed '#'s and
      kept inside the new value. */
  function RemapCaret(original: string, normalizedLen: nat, caret: nat): (r: nat)
    ensures r <= normalizedLen && r <= caret
    ensures r == if caret - HashesBefore(original, caret) <= normalizedLen
                 then caret - HashesBefore(original, caret) else normalizedLen
  {
    var moved := caret - HashesBefore(original, caret);
    if moved <= normalizedLen then moved else normalizedLen
  }

  lemma {:induction false} HashesStep(original: string, caret: nat)
    ensures HashesBefore(original, caret) <= HashesBefore(original, caret + 1)
                                          <= HashesBefore(original, caret) + 1
  {
    if caret < |original| {
      assert original[..caret + 1] == original[..caret] + [original[caret]];
      CountCharAppend(original[..caret], [original[caret]], '#');
    }
  }

  /** A selection stays a selection: remapping keeps start before end. */
  lemma {:induction false} RemapCaretMonotone(original: string, normalizedLen: nat, a: nat, b: nat)
    requires a <= b
    decreases b - a
    ensures RemapCaret(original, normalizedLen, a) <= RemapCaret(original, normalizedLen, b)
  {
    if a < b {
      HashesStep(original, a);
      RemapCaretMonotone(original, normalizedLen, a + 1, b);
    }
  }

  /** With no '#' typed before the caret it only gets clamped. */
  lemma RemapCaretWithoutHashes(original: string, normalizedLen: nat, caret: nat)
    requires '#' !in original
    ensures RemapCaret(original, normalizedLen, caret)
            == if caret <= normalizedLen then caret else normalizedLen
  {
    var k := if caret <= |original| then caret else |original|;
    assert '#' !in original[..k];
  }

  // ---------------------------------------------------------------------
  // BrandSuggestionsState

  const MinInputLength: nat := 4
  const MaxMinimalSuggestions: nat := 6

  class BrandSuggestionsState {
    var brandSuggestions: seq<SimpleIcon>
    var moreBrandSuggestions: seq<SimpleIcon>
    var inputValue: string
    var showBrandSuggestionsFlag: bool
    var showMoreBrandSuggestionsFlag: bool

    /** `Default::default()`: empty lists and text, nothing shown. */
    constructor ()
      ensures brandSuggestions == [] && moreBrandSuggestions == [] && inputValue == []
      ensures !showBrandSuggestionsFlag && !showMoreBrandSuggestionsFlag
    {
      brandSuggestions := [];
      moreBrandSuggestions := [];
      inputValue := [];
      showBrandSuggestionsFlag := false;
      showMoreBrandSuggestionsFlag := false;
    }

    /** `show_brand_suggestions()`. */
    predicate ShowBrandSuggestions()
      reads this
    {
      inputValue != [] && showBrandSuggestionsFlag
    }

    /** `show_more_brand_suggestions()`; the length is in bytes. */
    predicate ShowMoreBrandSuggestions()
      reads this
    {
      Utf8Len(inputValue) >= MinInputLength && moreBrandSuggestions != []
      && showBrandSuggestionsFlag && showMoreBrandSuggestionsFlag
    }

    /** The "+" item that shows the remaining suggestions. */
    predicate ShowMoreButton()
      reads this
    {
      moreBrandSuggestions != [] && !ShowMoreBrandSuggestions()
      && Utf8Len(inputValue) >= MinInputLength
    }

    /** Typing: the new text and its suggestions, split by
        `search_brand_suggestions` from the search `results` for the text
        (indexes into `icons`) without the current brand `currentSlug`;
        the short list shows, the long one hides. */
    method OnInput(value: string, icons: seq<SimpleIcon>, results: seq<nat>, currentSlug: string)
      requires forall k :: 0 <= k < |results| ==> results[k] < |icons|
      modifies this
      ensures inputValue == value
      ensures brandSuggestions + moreBrandSuggestions == Candidates(icons, results, currentSlug)
      ensures |brandSuggestions| == if |Candidates(icons, results, currentSlug)| <= MaxMinimalSuggestions
                                   then |Candidates(icons, results, currentSlug)| else MaxMinimalSuggestions
      ensures showBrandSuggestionsFlag && !showMoreBrandSuggestionsFlag
      ensures ShowBrandSuggestions() <==> value != []
      ensures !ShowMoreBrandSuggestions()
    {
      var bs, moreBs := SearchBrandSuggestions(icons, results, currentSlug);
      inputValue := value;
      brandSuggestions := bs;
      moreBrandSuggestions := moreBs;
      showBrandSuggestionsFlag := true;
      showMoreBrandSuggestionsFlag := false;
    }

    /** Focusing: like typing, but the long list keeps its visibility. */
    method OnFocus(value: string, icons: seq<SimpleIcon>, results: seq<nat>, currentSlug: string)
      requires forall k :: 0 <= k < |results| ==> results[k] < |icons|
      modifies this
      ensures inputValue == value
      ensures brandSuggestions + moreBrandSuggestions == Candidates(icons, results, currentSlug)
      ensures |brandSuggestions| == if |Candidates(icons, results, currentSlug)| <= MaxMinimalSuggestions
                                   then |Candidates(icons, results, currentSlug)| else MaxMinimalSuggestions
      ensures showBrandSuggestionsFlag
      ensures showMoreBrandSuggestionsFlag == old(showMoreBrandSuggestionsFlag)
    {
      var bs, moreBs := SearchBrandSuggestions(icons, results, currentSlug);
      inputValue := value;
      brandSuggestions := bs;
      moreBrandSuggestions := moreBs;
      showBrandSuggestionsFlag := true;
    }

    /** A click outside the field hides both lists. */
    method OnClickOutside()
      modifies this
      ensures !showBrandSuggestionsFlag && !showMoreBrandSuggestionsFlag
      ensures inputValue == old(inputValue) && brandSuggestions == old(brandSuggestions)
      ensures moreBrandSuggestions == old(moreBrandSuggestions)
      ensures !ShowBrandSuggestions() && !ShowMoreBrandSuggestions()
    {
      showBrandSuggestionsFlag := false;
      showMoreBrandSuggestionsFlag := false;
    }

    /** The "+" item shows both lists. */
    method OnMoreClick()
      modifies this
      ensures showBrandSuggestionsFlag && showMoreBrandSuggestionsFlag
      ensures inputValue == old(inputValue) && brandSuggestions == old(brandSuggestions)
      ensures moreBrandSuggestions == old(moreBrandSuggestions)
      ensures old(ShowMoreButton()) ==> ShowMoreBrandSuggestions()
    {
      showBrandSuggestionsFlag := true;
      showMoreBrandSuggestionsFlag := true;
    }

    /** Picking a suggestion hides both lists. */
    method OnSuggestionClick()
      modifies this
      ensures !showBrandSuggestionsFlag && !showMoreBrandSuggestionsFlag
      ensures inputValue == old(inputValue) && brandSuggestions == old(brandSuggestions)
      ensures moreBrandSuggestions == old(moreBrandSuggestions)
    {
      showBrandSuggestionsFlag := false;
      showMoreBrandSuggestionsFlag := false;
    }
  }

  /** The long list never shows without the short one. */
  lemma MoreImpliesShown(state: BrandSuggestionsState)
    ensures state.ShowMoreBrandSuggestions() ==> state.ShowBrandSuggestions()
  {
  }

  // ---------------------------------------------------------------------
  // search_brand_suggestions

  /** The icons of the search result other than the current brand, in
      result order. */
  function Candidates(icons: seq<SimpleIcon>, results: seq<nat>, currentSlug: string): seq<SimpleIcon>
    requires forall k :: 0 <= k < |results| ==> results[k] < |icons|
  {
    if results == [] then []
    else
      var rest := Candidates(icons, results[..|results| - 1], currentSlug);
      var icon := icons[results[|results| - 1]];
      if icon.slug == currentSlug then rest else rest + [icon]
  }

  /** `search_brand_suggestions`. The fuzzy search is a foreign library, so
      its result (the `order_alpha` index of each match, best first) is an
      input; `icons` is the icon table those indexes point into. */
  method SearchBrandSuggestions(icons: seq<SimpleIcon>, results: seq<nat>, currentSlug: string)
    returns (initialIcons: seq<SimpleIcon>, moreIcons: seq<SimpleIcon>)
    requires forall k :: 0 <= k < |results| ==> results[k] < |icons|
    ensures initialIcons + moreIcons == Candidates(icons, results, currentSlug)
    ensures |initialIcons| == if |Candidates(icons, results, currentSlug)| <= MaxMinimalSuggestions
                              then |Candidates(icons, results, currentSlug)| else MaxMinimalSuggestions
  {
    initialIcons := [];
    moreIcons := [];
    var i := 0;
    while i < |results|
      invariant 0 <= i <= |results|
      invariant initialIcons + moreIcons == Candidates(icons, results[..i], currentSlug)
      invariant |initialIcons| <= MaxMinimalSuggestions
      invariant moreIcons != [] ==> |initialIcons| == MaxMinimalSuggestions
    {
      assert results[..i + 1][..i] == results[..i];
      var icon := icons[results[i]];
      if icon.slug != currentSlug {
        if |initialIcons| >= MaxMinimalSuggestions {
          moreIcons := moreIcons + [icon];
        } else {
          initialIcons := initialIcons + [icon];
        }
      }
      i := i + 1;
    }
    assert results[..|results|] == results;
  }

  /** The suggestions never contain the current brand, and every other
      match is suggested, in search order. */
  lemma {:induction false} CandidatesSpec(icons: seq<SimpleIcon>, results: seq<nat>, currentSlug: string)
    requires forall k :: 0 <= k < |results| ==> results[k] < |icons|
    ensures forall k :: 0 <= k < |Candidates(icons, results, currentSlug)| ==>
      Candidates(icons, results, currentSlug)[k].slug != currentSlug
    ensures forall k :: 0 <= k < |results| && icons[results[k]].slug != currentSlug ==>
      icons[results[k]] in Candidates(icons, results, currentSlug)
  {
    if results != [] {
      CandidatesSpec(icons, results[..|results| - 1], currentSlug);
    }
  }
}
