/** The SVG text builders of components/svg-icon/src/lib.rs: a 24x24 icon
    from a path, an optional fill colour and an optional title, with the
    title escaped for XML. */
module SvgIcon {
  import opened Strings
  import Sdk

  /** The opening tag shared by both builders. */
  const SvgOpen: string := "<svg role=\"img\" viewBox=\"0 0 24 24\"" + " xmlns=\"http://www.w3.org/2000/svg\">"

  /** The text before the fill attribute without a title. */
  const PathHead: string := SvgOpen + "<path"

  const TitleOpen: string := SvgOpen + "<title>"
  const TitleClose: string := "</title><path"

  /** The `fill` attribute: empty without a colour, else the colour after a
      '#' between quotes, led by a space. */
  function FillAttribute(fill: Option<string>): (r: string)
    ensures fill.None? <==> r == ""
    ensures fill.Some? ==> r == " fill=\"#" + fill.value + "\""
  {
    match fill
    case None => ""
    case Some(f) => " fill=\"#" + f + "\""
  }

  /** `svg_with_path_opt_fill`. */
  function SvgWithPathOptFill(path: string, fill: Option<string>): string
  {
    PathHead + FillAttribute(fill) + " d=\"" + path + "\"/></svg>"
  }

  /** The replace chain that escapes a title, in the source's order. */
  function EscapeTitle(title: string): string
  {
    ReplaceAll(ReplaceAll(ReplaceAll(ReplaceAll(ReplaceAll(
      title, "&", "&amp;"), "'", "&apos;"), "\"", "&quot;"), "<", "&lt;"), ">", "&gt;")
  }

  /** `svg_with_title_path_opt_fill`. */
  function SvgWithTitlePathOptFill(title: string, path: string, fill: Option<string>): string
  {
    TitleOpen + EscapeTitle(title) + TitleClose + FillAttribute(fill) + " d=\"" + path + "\"/></svg>"
  }

  /** XML escaping, one character at a time: the reference the replace
      chain is compared with. */
  function EscapeChar(c: char): string
  {
    if c == '&' then "&amp;"
    else if c == '\'' then "&apos;"
    else if c == '"' then "&quot;"
    else if c == '<' then "&lt;"
    else if c == '>' then "&gt;"
    else [c]
  }

  predicate IsMarkup(c: char) { c == '<' || c == '>' || c == '"' || c == '\'' }

  function EscapeXml(s: string): (r: string)
    ensures forall i :: 0 <= i < |r| ==> !IsMarkup(r[i])
  {
    if s == [] then [] else EscapeChar(s[0]) + EscapeXml(s[1..])
  }

  /** The replace chain distributes over concatenation. */
  lemma EscapeTitleAppend(a: string, b: string)
    ensures EscapeTitle(a + b) == EscapeTitle(a) + EscapeTitle(b)
  {
    ReplaceCharAppend(a, b, '&', "&amp;");
    var a1, b1 := ReplaceAll(a, "&", "&amp;"), ReplaceAll(b, "&", "&amp;");
    ReplaceCharAppend(a1, b1, '\'', "&apos;");
    var a2, b2 := ReplaceAll(a1, "'", "&apos;"), ReplaceAll(b1, "'", "&apos;");
    ReplaceCharAppend(a2, b2, '"', "&quot;");
    var a3, b3 := ReplaceAll(a2, "\"", "&quot;"), ReplaceAll(b2, "\"", "&quot;");
    ReplaceCharAppend(a3, b3, '<', "&lt;");
    var a4, b4 := ReplaceAll(a3, "<", "&lt;"), ReplaceAll(b3, "<", "&lt;");
    ReplaceCharAppend(a4, b4, '>', "&gt;");
  }

  lemma ReplaceOne(c: char, d: char, r: string)
    ensures ReplaceAll([c], [d], r) == if c == d then r else [c]
  {
    ReplaceCharStep([c], d, r);
  }

  lemma {:induction false} ReplaceCharAbsent(s: string, d: char, r: string)
    requires d !in s
    ensures ReplaceAll(s, [d], r) == s
  {
    if s != [] {
      ReplaceCharStep(s, d, r);
      ReplaceCharAbsent(s[1..], d, r);
      assert s == [s[0]] + s[1..];
    }
  }

  /** On one character the chain gives that character's escape: the later
      replacements never touch the entities the earlier ones wrote, because
      '&' is replaced first. */
  lemma EscapeTitleChar(c: char)
    ensures EscapeTitle([c]) == EscapeChar(c)
  {
    ReplaceOne(c, '&', "&amp;");
    if c == '&' {
      ReplaceCharAbsent("&amp;", '\'', "&apos;");
      ReplaceCharAbsent("&amp;", '"', "&quot;");
      ReplaceCharAbsent("&amp;", '<', "&lt;");
      ReplaceCharAbsent("&amp;", '>', "&gt;");
      return;
    }
    ReplaceOne(c, '\'', "&apos;");
    if c == '\'' {
      ReplaceCharAbsent("&apos;", '"', "&quot;");
      ReplaceCharAbsent("&apos;", '<', "&lt;");
      ReplaceCharAbsent("&apos;", '>', "&gt;");
      return;
    }
    ReplaceOne(c, '"', "&quot;");
    if c == '"' {
      ReplaceCharAbsent("&quot;", '<', "&lt;");
      ReplaceCharAbsent("&quot;", '>', "&gt;");
      return;
    }
    ReplaceOne(c, '<', "&lt;");
    if c == '<' {
      ReplaceCharAbsent("&lt;", '>', "&gt;");
      return;
    }
    ReplaceOne(c, '>', "&gt;");
  }

  /** The source's replace chain is exactly XML escaping by character. */
  lemma {:induction false} EscapeTitleIsEscapeXml(s: string)
    ensures EscapeTitle(s) == EscapeXml(s)
  {
    if s != [] {
      assert s == [s[0]] + s[1..];
      EscapeTitleAppend([s[0]], s[1..]);
      EscapeTitleChar(s[0]);
      EscapeTitleIsEscapeXml(s[1..]);
    }
  }

  /** The entity at the head of `s`, if any: the character it stands
      for and its length. */
  function EntityAt(s: string): (r: Option<(char, nat)>)
    ensures r.Some? ==> 1 <= r.value.1 <= |s|
  {
    if s == [] || s[0] != '&' then None
    else if StartsWith(s, "&amp;") then Some(('&', 5))
    else if StartsWith(s, "&apos;") then Some(('\'', 6))
    else if StartsWith(s, "&quot;") then Some(('"', 6))
    else if StartsWith(s, "&lt;") then Some(('<', 4))
    else if StartsWith(s, "&gt;") then Some(('>', 4))
    else None
  }

  /** Reading the five entities back. */
  function Unescape(s: string): string
    decreases |s|
  {
    if s == [] then []
    else match EntityAt(s)
      case Some((c, n)) => [c] + Unescape(s[n..])
      case None => [s[0]] + Unescape(s[1..])
  }

  lemma EntityAtEscape(c: char, t: string)
    ensures var e := EscapeChar(c);
      EntityAt(e + t) == (if |e| == 1 then None else Some((c, |e|)))
  {
    var e := EscapeChar(c);
    assert (e + t)[..|e|] == e;
    assert (e + t)[0] == e[0];
    if |e| > 1 {
      assert (e + t)[1] == e[1];
      assert (e + t)[2] == e[2];
    }
  }

  lemma UnescapeStep(c: char, t: string)
    ensures Unescape(EscapeChar(c) + t) == [c] + Unescape(t)
  {
    var e := EscapeChar(c);
    EntityAtEscape(c, t);
    assert (e + t)[|e|..] == t;
    assert e + t != [];
  }

  /** Unescaping the escaped title gives the title back, so no entity is
      escaped twice and no character is lost. */
  lemma {:induction false} UnescapeEscape(s: string)
    ensures Unescape(EscapeXml(s)) == s
  {
    if s != [] {
      UnescapeStep(s[0], EscapeXml(s[1..]));
      UnescapeEscape(s[1..]);
      assert s == [s[0]] + s[1..];
    }
  }

  /** The escaped title holds no raw markup character, and unescaping it
      gives the title back. */
  lemma EscapedTitle(title: string)
    ensures forall i :: 0 <= i < |EscapeTitle(title)| ==> !IsMarkup(EscapeTitle(title)[i])
    ensures Unescape(EscapeTitle(title)) == title
  {
    EscapeTitleIsEscapeXml(title);
    UnescapeEscape(title);
  }

  /** No ` d="` in a text without a 'd'. */
  lemma NoLetterDNoAttribute(s: string)
    requires 'd' !in s
    ensures !Contains(s, Sdk.PathAttribute)
  {
    forall i: nat | i <= |s|
      ensures !OccursAt(s, Sdk.PathAttribute, i)
    {
      if i + 4 <= |s| {
        assert s[i..i + 4][1] == s[i + 1];
      }
    }
  }

  /** No ` d="` in a text without a '"'. */
  lemma NoQuoteNoAttribute(s: string)
    requires '"' !in s
    ensures !Contains(s, Sdk.PathAttribute)
  {
    forall i: nat | i <= |s|
      ensures !OccursAt(s, Sdk.PathAttribute, i)
    {
      if i + 4 <= |s| {
        assert s[i..i + 4][3] == s[i + 3];
      }
    }
  }

  /** None of the last three characters is a space. */
  predicate NoSpaceAtEnd(a: string)
  {
    forall j :: 0 <= j < |a| && |a| - 3 <= j ==> a[j] != ' '
  }

  /** None of the first three characters is a quote. */
  predicate NoQuoteAtStart(b: string)
  {
    forall j :: 0 <= j < 3 && j < |b| ==> b[j] != '"'
  }

  lemma NoSpaceAtEndAppend(a: string, b: string)
    requires NoSpaceAtEnd(b) && (|b| >= 3 || NoSpaceAtEnd(a))
    ensures NoSpaceAtEnd(a + b)
  {
    forall j | 0 <= j < |a + b| && |a + b| - 3 <= j
      ensures (a + b)[j] != ' '
    {
      if j >= |a| {
        assert (a + b)[j] == b[j - |a|];
      } else {
        assert (a + b)[j] == a[j];
      }
    }
  }

  /** ` d="` cannot straddle a junction where the left side ends without a
      space or the right side starts without a quote. */
  lemma ConcatNoAttribute(a: string, b: string)
    requires !Contains(a, Sdk.PathAttribute) && !Contains(b, Sdk.PathAttribute)
    requires NoSpaceAtEnd(a) || NoQuoteAtStart(b)
    ensures !Contains(a + b, Sdk.PathAttribute)
  {
    var s := a + b;
    forall i: nat | i <= |s|
      ensures !OccursAt(s, Sdk.PathAttribute, i)
    {
      if i + 4 <= |s| {
        if i + 4 <= |a| {
          assert s[i..i + 4] == a[i..i + 4];
          assert !OccursAt(a, Sdk.PathAttribute, i);
        } else if i >= |a| {
          assert s[i..i + 4] == b[i - |a|..i - |a| + 4];
          assert !OccursAt(b, Sdk.PathAttribute, i - |a|);
        } else {
          assert |a| - 3 <= i && i + 3 - |a| < 3;
          assert Sdk.PathAttribute[0] == ' ' && Sdk.PathAttribute[3] == '"';
          if NoSpaceAtEnd(a) {
            assert s[i..i + 4][0] == a[i] != ' ';
          } else {
            assert s[i..i + 4][3] == b[i + 3 - |a|] != '"';
          }
        }
      }
    }
  }

  /** The attribute text of a fill colour without quotes or spaces holds no
      ` d="` and ends without a space. */
  lemma FillAttributeNoAttribute(fill: Option<string>)
    requires fill.Some? ==> '"' !in fill.value && ' ' !in fill.value
    ensures !Contains(FillAttribute(fill), Sdk.PathAttribute)
    ensures NoSpaceAtEnd(FillAttribute(fill))
  {
    if fill.Some? {
      var f := fill.value;
      var open := " fill=\"#";
      NoLetterDNoAttribute(open);
      NoQuoteNoAttribute(f);
      ConcatNoAttribute(open, f);
      assert NoSpaceAtEnd(f);
      NoSpaceAtEndAppend(open, f);
      NoLetterDNoAttribute("\"");
      ConcatNoAttribute(open + f, "\"");
      NoSpaceAtEndAppend(open + f, "\"");
    }
  }

  /** An opening text without a ` d="` of its own keeps the path
      attribute the first one. */
  lemma PrefixBeforePath(prefix: string)
    requires !Contains(prefix, Sdk.PathAttribute) && NoSpaceAtEnd(prefix)
    ensures !Contains(prefix + " d=", Sdk.PathAttribute)
  {
    NoQuoteNoAttribute(" d=");
    ConcatNoAttribute(prefix, " d=");
  }

  /** `svg_to_path` on a built icon: the head and the fill attribute hide
      no path attribute, so the path is read back. */
  lemma SvgToPathOfParts(head: string, fill: Option<string>, path: string)
    requires !Contains(head, Sdk.PathAttribute) && NoSpaceAtEnd(head)
    requires fill.Some? ==> '"' !in fill.value && ' ' !in fill.value
    requires '"' !in path && !EndsWith(path, " d=")
    ensures Sdk.SvgToPath(head + FillAttribute(fill) + " d=\"" + path + "\"/></svg>") == Some(path)
  {
    var fa := FillAttribute(fill);
    FillAttributeNoAttribute(fill);
    ConcatNoAttribute(head, fa);
    NoSpaceAtEndAppend(head, fa);
    var prefix := head + fa;
    PrefixBeforePath(prefix);
    Sdk.SvgToPathOf(prefix, path, "/></svg>");
    QuoteSuffix(prefix + Sdk.PathAttribute + path);
  }

  lemma QuoteSuffix(x: string)
    ensures x + "\"" + "/></svg>" == x + "\"/></svg>"
  {
  }

  /** `svg_to_path` reads back the path the builder was given, whatever the
      fill, as long as the path has no quote (and does not end in ` d=`)
      and the fill colour has no quote or space. */
  lemma SvgToPathOfSvgWithPath(path: string, fill: Option<string>)
    requires '"' !in path && !EndsWith(path, " d=")
    requires fill.Some? ==> '"' !in fill.value && ' ' !in fill.value
    ensures Sdk.SvgToPath(SvgWithPathOptFill(path, fill)) == Some(path)
  {
    NoLetterDNoAttribute(PathHead);
    assert NoSpaceAtEnd(PathHead);
    SvgToPathOfParts(PathHead, fill, path);
  }

  /** The same for the builder with a title: the escaped title has no quote,
      so it cannot hide a path attribute, whatever the title says. */
  lemma SvgToPathOfSvgWithTitle(title: string, path: string, fill: Option<string>)
    requires '"' !in path && !EndsWith(path, " d=")
    requires fill.Some? ==> '"' !in fill.value && ' ' !in fill.value
    ensures Sdk.SvgToPath(SvgWithTitlePathOptFill(title, path, fill)) == Some(path)
  {
    var esc := EscapeTitle(title);
    EscapedTitle(title);
    TitleHeadNoAttribute(esc);
    SvgToPathOfParts(TitleOpen + esc + TitleClose, fill, path);
  }

  /** The text before the fill attribute of a titled icon holds no path
      attribute when the title text has no quote. */
  lemma TitleHeadNoAttribute(esc: string)
    requires '"' !in esc
    ensures !Contains(TitleOpen + esc + TitleClose, Sdk.PathAttribute)
    ensures NoSpaceAtEnd(TitleOpen + esc + TitleClose)
  {
    NoLetterDNoAttribute(TitleOpen);
    NoQuoteNoAttribute(esc);
    NoLetterDNoAttribute(TitleClose);
    assert NoQuoteAtStart(TitleClose);
    ConcatNoAttribute(TitleOpen, esc);
    ConcatNoAttribute(TitleOpen + esc, TitleClose);
    assert NoSpaceAtEnd(TitleClose);
    NoSpaceAtEndAppend(TitleOpen + esc, TitleClose);
  }
}
