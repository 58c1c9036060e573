/** The string helpers of the Simple Icons SDK
    (libs/simple-icons-sdk/src/lib.rs): brand title to slug, path
    extraction from an icon SVG and hex colour normalisation. */
module Sdk {
  import opened Strings

  // ---------------------------------------------------------------------
  // title_to_slug

  /** The non-ASCII letters `title_to_slug_replace_chars` maps explicitly. */
  const SpecialLetters: string := "\U{0111}\U{0127}\U{0131}\U{0138}\U{0140}\U{0142}\U{00DF}\U{0167}"

  /** The titles modelled here: ASCII text and the explicitly mapped
      letters. Canonical decomposition of any other letter is not modelled;
      on these characters it is the identity. */
  predicate InSlugAlphabet(c: char) { c < 128 as char || c in SpecialLetters }

  /** What one (already lower-cased) title character becomes in the slug. */
  function SlugPiece(c: char): string
  {
    if c == '+' then "plus"
    else if c == '.' then "dot"
    else if c == '&' then "and"
    else if c == '\U{0111}' then "d"
    else if c == '\U{0127}' then "h"
    else if c == '\U{0131}' then "i"
    else if c == '\U{0138}' then "k"
    else if c == '\U{0140}' then "l"
    else if c == '\U{0142}' then "l"
    else if c == '\U{00DF}' then "ss"
    else if c == '\U{0167}' then "t"
    else if IsAsciiAlphanumeric(c) then [c]
    else ""
  }

  /** A slug character: a lower-case ASCII letter or a digit. */
  predicate IsSlugChar(c: char) { IsAsciiLower(c) || IsDigit(c) }

  predicate IsSlug(s: string) { forall i :: 0 <= i < |s| ==> IsSlugChar(s[i]) }

  /** Every character replaced by its piece, in order. */
  function ReplaceChars(s: string): string
  {
    if s == [] then [] else SlugPiece(s[0]) + ReplaceChars(s[1..])
  }

  method TitleToSlugReplaceChars(title: string) returns (newTitle: string)
    requires forall i :: 0 <= i < |title| ==> InSlugAlphabet(title[i])
    ensures newTitle == ReplaceChars(title)
  {
    newTitle := [];
    var i := 0;
    while i < |title|
      invariant 0 <= i <= |title|
      invariant newTitle == ReplaceChars(title[..i])
    {
      var c := title[i];
      ReplaceCharsAppend(title[..i], [c]);
      assert title[..i + 1] == title[..i] + [c];
      if c == '+' {
        newTitle := newTitle + "plus";
      } else if c == '.' {
        newTitle := newTitle + "dot";
      } else if c == '&' {
        newTitle := newTitle + "and";
      } else if c == '\U{0111}' {
        newTitle := newTitle + ['d'];
      } else if c == '\U{0127}' {
        newTitle := newTitle + ['h'];
      } else if c == '\U{0131}' {
        newTitle := newTitle + ['i'];
      } else if c == '\U{0138}' {
        newTitle := newTitle + ['k'];
      } else if c == '\U{0140}' || c == '\U{0142}' {
        newTitle := newTitle + ['l'];
      } else if c == '\U{00DF}' {
        newTitle := newTitle + "ss";
      } else if c == '\U{0167}' {
        newTitle := newTitle + ['t'];
      } else if IsAsciiAlphanumeric(c) {
        newTitle := newTitle + [c];
      }
      i := i + 1;
    }
    assert title[..|title|] == title;
  }

  /** `title_to_slug`: lower-case, then replace character by character
      (the final decomposition is the identity on the resulting ASCII). */
  method TitleToSlug(title: string) returns (slug: string)
    requires forall i :: 0 <= i < |title| ==> InSlugAlphabet(title[i])
    ensures slug == ReplaceChars(Lower(title))
    ensures IsSlug(slug)
  {
    var lower := Lower(title);
    LowerKeepsSlugAlphabet(title);
    slug := TitleToSlugReplaceChars(lower);
    assert forall i :: 0 <= i < |lower| ==> !IsAsciiUpper(lower[i]);
    ReplaceCharsIsSlug(lower);
  }

  lemma LowerKeepsSlugAlphabet(title: string)
    requires forall i :: 0 <= i < |title| ==> InSlugAlphabet(title[i])
    ensures forall i :: 0 <= i < |Lower(title)| ==> InSlugAlphabet(Lower(title)[i])
  {
    forall i | 0 <= i < |title|
      ensures InSlugAlphabet(Lower(title)[i])
    {
      if IsAsciiUpper(title[i]) {
        assert Lower(title)[i] < 128 as char;
      }
    }
  }

  /** Every piece is made of slug characters, so the slug is too. */
  lemma {:induction false} ReplaceCharsIsSlug(s: string)
    requires forall i :: 0 <= i < |s| ==> !IsAsciiUpper(s[i])
    ensures IsSlug(ReplaceChars(s))
  {
    if s != [] {
      ReplaceCharsIsSlug(s[1..]);
      var c := s[0];
      assert IsSlug(SlugPiece(c)) by {
        var piece := SlugPiece(c);
        assert piece == "plus" || piece == "dot" || piece == "and" || piece == "ss"
          || piece == "d" || piece == "h" || piece == "i" || piece == "k" || piece == "l"
          || piece == "t" || piece == [c] || piece == "";
      }
    }
  }

  lemma {:induction false} ReplaceCharsAppend(a: string, b: string)
    ensures ReplaceChars(a + b) == ReplaceChars(a) + ReplaceChars(b)
  {
    if a == [] {
      assert a + b == b;
    } else {
      assert (a + b)[0] == a[0];
      assert (a + b)[1..] == a[1..] + b;
      ReplaceCharsAppend(a[1..], b);
    }
  }

  /** A slug is its own slug: `title_to_slug` is idempotent. */
  lemma {:induction false} SlugFixed(s: string)
    requires IsSlug(s)
    ensures ReplaceChars(Lower(s)) == s
  {
    if s != [] {
      assert Lower(s)[0] == s[0];
      assert Lower(s)[1..] == Lower(s[1..]);
      SlugFixed(s[1..]);
      assert s == [s[0]] + s[1..];
    } else {
      assert Lower(s) == [];
    }
  }

  /** Lower-case letters and digits stay; '+', '.', '&' are spelled out;
      everything else of ASCII is dropped. */
  lemma SlugPieceAscii(c: char)
    requires c < 128 as char
    ensures IsSlugChar(c) ==> SlugPiece(c) == [c]
    ensures c == '+' ==> SlugPiece(c) == "plus"
    ensures c == '.' ==> SlugPiece(c) == "dot"
    ensures c == '&' ==> SlugPiece(c) == "and"
    ensures !IsAsciiAlphanumeric(c) && c !in "+.&" ==> SlugPiece(c) == ""
  {
  }

  // ---------------------------------------------------------------------
  // svg_to_path

  const PathAttribute: string := " d=\""

  /** The second piece of `split(" d=\"")`, given the text after the first
      separator: everything up to the next separator. */
  function SecondPiece(rest: string): string
  {
    match IndexOf(rest, PathAttribute)
    case None => rest
    case Some(j) => rest[..j]
  }

  /** `svg.split(" d=\"").nth(1).unwrap().split('"').next()`: the text after
      the first ` d="`, up to the next ` d="` or the next '"'. `None` where
      Rust panics: the SVG holds no ` d="`. */
  function SvgToPath(svg: string): (r: Option<string>)
    ensures r.None? <==> !Contains(svg, PathAttribute)
    ensures r.Some? ==> '"' !in r.value
  {
    match IndexOf(svg, PathAttribute)
    case None => None
    case Some(i) => Some(TakeUntil(SecondPiece(svg[i + |PathAttribute|..]), '"'))
  }

  /** No attribute starts inside a prefix that holds none, even one
      running into the attribute that follows it. */
  lemma NoAttributeInPrefix(prefix: string, tail: string)
    requires !Contains(prefix + " d=", PathAttribute)
    ensures forall j: nat :: j < |prefix| ==> !OccursAt(prefix + PathAttribute + tail, PathAttribute, j)
  {
    var svg := prefix + PathAttribute + tail;
    forall j: nat | j < |prefix|
      ensures !OccursAt(svg, PathAttribute, j)
    {
      assert (prefix + " d=")[j..j + 4] == svg[j..j + 4];
      assert !OccursAt(prefix + " d=", PathAttribute, j);
    }
  }

  /** Text before an attribute that holds no ` d="` is skipped, and the
      path is read up to its closing quote. */
  lemma SvgToPathOf(prefix: string, path: string, suffix: string)
    requires !Contains(prefix + " d=", PathAttribute)
    requires '"' !in path && !EndsWith(path, " d=")
    ensures SvgToPath(prefix + PathAttribute + path + "\"" + suffix) == Some(path)
  {
    var rest := path + "\"" + suffix;
    var svg := prefix + PathAttribute + rest;
    assert prefix + PathAttribute + path + "\"" + suffix == svg;
    var p := |prefix|;
    assert OccursAt(svg, PathAttribute, p) by {
      assert svg[p..p + 4] == PathAttribute;
    }
    NoAttributeInPrefix(prefix, rest);
    assert IndexOf(svg, PathAttribute) == Some(p);
    assert svg[p + 4..] == rest;
    SecondPieceStartsWithPath(path, suffix);
    TakeUntilPrefix(SecondPiece(rest), path);
  }

  lemma SecondPieceStartsWithPath(path: string, suffix: string)
    requires '"' !in path && !EndsWith(path, " d=")
    ensures StartsWith(SecondPiece(path + "\"" + suffix), path + "\"")
  {
    var rest := path + "\"" + suffix;
    match IndexOf(rest, PathAttribute)
    case None =>
      assert rest[..|path| + 1] == path + "\"";
    case Some(j) =>
      if j <= |path| {
        NoAttributeUntilQuote(path, suffix, j);
      }
      assert rest[..j][..|path| + 1] == path + "\"";
  }

  /** An attribute cannot start inside a quote-free path that does not end
      in ` d=`, nor at its closing quote. */
  lemma NoAttributeUntilQuote(path: string, suffix: string, j: nat)
    requires '"' !in path && !EndsWith(path, " d=")
    requires j <= |path|
    ensures !OccursAt(path + "\"" + suffix, PathAttribute, j)
  {
    var rest := path + "\"" + suffix;
    if j + 3 < |path| {
      assert rest[j + 3] == path[j + 3];
    } else if j + 3 == |path| {
      assert rest[j..j + 3] == path[|path| - 3..];
    } else if j + 4 <= |rest| {
      assert rest[|path|] == '"';
      assert rest[j..j + 4][|path| - j] == rest[|path|];
      assert PathAttribute[|path| - j] != '"';
    }
  }

  lemma {:induction false} TakeUntilPrefix(s: string, p: string)
    requires '"' !in p
    requires StartsWith(s, p + "\"")
    ensures TakeUntil(s, '"') == p
  {
    if p != [] {
      assert s[0] == p[0];
      assert s[1..][..|p[1..]| + 1] == p[1..] + "\"";
      TakeUntilPrefix(s[1..], p[1..]);
    } else {
      assert s[0] == '"';
    }
  }

  // ---------------------------------------------------------------------
  // normalize_color

  /** `s` with every `c` removed. */
  function Without(s: string, c: char): (r: string)
    ensures c !in r
    ensures |r| <= |s|
  {
    if s == [] then [] else (if s[0] == c then [] else [s[0]]) + Without(s[1..], c)
  }

  /** `hex.replace('#', "")` removes exactly the '#' characters. */
  lemma {:induction false} ReplaceHashIsWithout(s: string)
    ensures ReplaceAll(s, "#", "") == Without(s, '#')
  {
    if s != [] {
      ReplaceCharStep(s, '#', "");
      ReplaceHashIsWithout(s[1..]);
    }
  }

  lemma {:induction false} WithoutAbsent(s: string, c: char)
    requires c !in s
    ensures Without(s, c) == s
  {
    if s != [] {
      WithoutAbsent(s[1..], c);
    }
  }

  /** The colour with '#' removed and upper-cased. */
  function StrippedColor(hex: string): (r: string)
    ensures '#' !in r
  {
    var r := Upper(ReplaceAll(hex, "#", ""));
    ReplaceHashIsWithout(hex);
    assert '#' !in r by {
      forall i | 0 <= i < |r| ensures r[i] != '#' {
        assert ReplaceAll(hex, "#", "")[i] != '#';
      }
    }
    r
  }

  /** Removing a character keeps only characters the text already had. */
  lemma {:induction false} WithoutKeepsAscii(s: string, c: char)
    requires IsAscii(s)
    ensures IsAscii(Without(s, c))
  {
    if s != [] {
      assert s[0] < 128 as char;
      assert IsAscii(s[1..]);
      WithoutKeepsAscii(s[1..], c);
    }
  }

  /** ASCII colour text stays ASCII once stripped and upper-cased. */
  lemma StrippedColorAscii(hex: string)
    requires IsAscii(hex)
    ensures IsAscii(StrippedColor(hex))
    ensures Utf8Len(StrippedColor(hex)) == |StrippedColor(hex)|
  {
    ReplaceHashIsWithout(hex);
    WithoutKeepsAscii(hex, '#');
    var w := Without(hex, '#');
    assert forall i :: 0 <= i < |w| ==> Upper(w)[i] < 128 as char by {
      forall i | 0 <= i < |w| ensures Upper(w)[i] < 128 as char {
        assert w[i] < 128 as char;
      }
    }
    Utf8LenAscii(StrippedColor(hex));
  }

  /** The result of `normalize_color`, whose cases go by the byte length of
      the stripped colour: up to five bytes give its first three characters
      each doubled, six bytes are kept, more are cut to six bytes. `None`
      where Rust panics: up to five bytes but fewer than three characters,
      or a cut at six bytes that falls inside a character. */
  function NormalizedColor(hex: string): Option<string>
  {
    var color := StrippedColor(hex);
    var n := Utf8Len(color);
    if n <= 5 then
      if |color| < 3 then None
      else Some([color[0], color[0], color[1], color[1], color[2], color[2]])
    else if n >= 7 then TruncateBytes(color, 6)
    else Some(color)
  }

  method NormalizeColor(hex: string) returns (r: Option<string>)
    ensures r == NormalizedColor(hex)
  {
    var color := StrippedColor(hex);
    var n := Utf8Len(color);
    if n <= 5 {
      if |color| < 3 {
        return None;
      }
      var newColor := [];
      for k := 0 to 3
        invariant |newColor| == 2 * k
        invariant forall j :: 0 <= j < 2 * k ==> newColor[j] == color[j / 2]
      {
        var c := color[k];
        newColor := newColor + [c, c];
      }
      assert newColor == [color[0], color[0], color[1], color[1], color[2], color[2]];
      r := Some(newColor);
    } else if n >= 7 {
      r := TruncateBytes(color, 6);
    } else {
      r := Some(color);
    }
  }

  /** `normalize_color` panics exactly when at most five bytes hold fewer
      than three characters, or when six bytes end inside a character of a
      longer colour. Otherwise the result holds no '#' and no lower-case
      ASCII letter; it is six characters long when doubled and six bytes
      long when kept or cut. */
  lemma NormalizedColorShape(hex: string)
    ensures var c := StrippedColor(hex);
      NormalizedColor(hex).None?
      <==> (Utf8Len(c) <= 5 && |c| < 3) || (Utf8Len(c) >= 7 && !IsCharBoundary(c, 6))
    ensures NormalizedColor(hex).Some? ==>
      var r := NormalizedColor(hex).value;
      '#' !in r && (forall i :: 0 <= i < |r| ==> !IsAsciiLower(r[i]))
      && (Utf8Len(StrippedColor(hex)) <= 5 ==> |r| == 6)
      && (Utf8Len(StrippedColor(hex)) >= 6 ==> Utf8Len(r) == 6)
  {
    var color := StrippedColor(hex);
    assert forall i :: 0 <= i < |color| ==> !IsAsciiLower(color[i]);
    if Utf8Len(color) >= 7 {
      TruncateBytesPanics(color, 6);
      var t := TruncateBytes(color, 6);
      if t.Some? {
        assert forall i :: 0 <= i < |t.value| ==> t.value[i] == color[i];
      }
    }
  }

  /** On ASCII input bytes and characters coincide: three to five
      characters keep only the first three, each doubled; six are kept;
      longer colours keep their first six; fewer than three panic. */
  lemma NormalizedColorCases(hex: string)
    requires IsAscii(hex)
    ensures |StrippedColor(hex)| < 3 ==> NormalizedColor(hex).None?
    ensures 3 <= |StrippedColor(hex)| <= 5 ==>
      var c := StrippedColor(hex);
      NormalizedColor(hex) == Some([c[0], c[0], c[1], c[1], c[2], c[2]])
    ensures |StrippedColor(hex)| == 6 ==> NormalizedColor(hex) == Some(StrippedColor(hex))
    ensures |StrippedColor(hex)| >= 7 ==> NormalizedColor(hex) == Some(StrippedColor(hex)[..6])
    ensures NormalizedColor(hex).Some? ==> |NormalizedColor(hex).value| == 6
  {
    StrippedColorAscii(hex);
    TruncateBytesAscii(StrippedColor(hex), 6);
  }

  /** Normalising a normalised ASCII colour changes nothing. */
  lemma NormalizeColorIdempotent(hex: string)
    requires IsAscii(hex)
    requires NormalizedColor(hex).Some?
    ensures NormalizedColor(NormalizedColor(hex).value) == NormalizedColor(hex)
  {
    var c := NormalizedColor(hex).value;
    NormalizedColorShape(hex);
    NormalizedColorCases(hex);
    StrippedColorAscii(hex);
    assert IsAscii(c) by {
      var color := StrippedColor(hex);
      assert forall i :: 0 <= i < |c| ==> exists j :: 0 <= j < |color| && c[i] == color[j];
    }
    WithoutAbsent(c, '#');
    ReplaceHashIsWithout(c);
    assert Upper(c) == c by {
      forall i | 0 <= i < |c| ensures Upper(c)[i] == c[i] {
        assert !IsAsciiLower(c[i]);
      }
    }
    Utf8LenAscii(c);
  }

  /** Outside ASCII a second normalisation can change the colour: "aéb"
      normalises to "AAééBB", eight bytes, which a second pass cuts to the
      six bytes "AAéé". */
  lemma NormalizeColorNotIdempotentOutsideAscii()
    ensures NormalizedColor("aéb") == Some("AAééBB")
    ensures NormalizedColor("AAééBB") == Some("AAéé")
  {
    NormalizeOnce();
    NormalizeTwice();
  }

  lemma NormalizeOnce()
    ensures NormalizedColor("aéb") == Some("AAééBB")
  {
    var once := "aéb";
    WithoutAbsent(once, '#');
    ReplaceHashIsWithout(once);
    var color := StrippedColor(once);
    assert color == "AéB" by {
      assert Upper(once)[0] == 'A' && Upper(once)[1] == 'é' && Upper(once)[2] == 'B';
    }
    assert Utf8Len(color) == 4 by {
      assert color[1..] == "éB" && "éB"[1..] == "B" && "B"[1..] == [];
    }
  }

  lemma NormalizeTwice()
    ensures NormalizedColor("AAééBB") == Some("AAéé")
  {
    var twice := "AAééBB";
    StrippedUpperHex(twice);
    TwiceLengths();
    TruncateBytesAtBoundary(twice, 6, 4);
    assert twice[..4] == "AAéé";
  }

  lemma StrippedUpperHex(s: string)
    requires '#' !in s && forall i :: 0 <= i < |s| ==> !IsAsciiLower(s[i])
    ensures StrippedColor(s) == s
  {
    WithoutAbsent(s, '#');
    ReplaceHashIsWithout(s);
    assert Upper(s) == s by {
      forall i | 0 <= i < |s| ensures Upper(s)[i] == s[i] {
        assert !IsAsciiLower(s[i]);
      }
    }
  }

  lemma TwiceLengths()
    ensures Utf8Len("AAééBB"[..4]) == 6
    ensures Utf8Len("AAééBB") == 8
  {
    var twice := "AAééBB";
    var cut := twice[..4];
    assert cut == "AAéé";
    assert Utf8Len(cut) == 6 by {
      assert cut[1..] == "Aéé" && "Aéé"[1..] == "éé" && "éé"[1..] == "é" && "é"[1..] == [];
    }
    assert Utf8Len(twice) == 8 by {
      assert twice[1..] == "AééBB" && "AééBB"[1..] == "ééBB" && "ééBB"[1..] == "éBB";
      assert "éBB"[1..] == "BB" && "BB"[1..] == "B" && "B"[1..] == [];
    }
  }
}
