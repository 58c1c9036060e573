/** The preview generator's text helpers
    (components/preview-generator/src/lib.rs): truncation of the preview
    captions, the brand the generator opens with, and the renaming of the
    gradient identifiers inside a badge so that several badges can share
    one SVG document. */
module PreviewGenerator {
  import opened Strings
  import opened Types
  import Search

  const DefaultInitialBrand: string := "Simple Icons"
  const DefaultInitialSlug: string := "simpleicons"
  const DefaultInitialColor: string := "111111"

  /** The longest caption, in bytes, before it is cut. */
  const MaxLength: nat := 32

  /** U+2026 HORIZONTAL ELLIPSIS, appended to a cut caption. */
  const Ellipsis: char := '…'

  /** `truncate`: a text of at most `maxLen` bytes is kept; a longer one
      is cut to its first `maxLen` bytes and ended with an ellipsis. `None`
      where the cut falls inside a character and Rust panics. */
  function Truncate(s: string, maxLen: nat): (r: Option<string>)
    ensures Utf8Len(s) <= maxLen ==> r == Some(s)
    ensures r.Some? && Utf8Len(s) > maxLen ==>
      var t := r.value;
      |t| >= 1 && t[|t| - 1] == Ellipsis
      && StartsWith(s, t[..|t| - 1]) && Utf8Len(t[..|t| - 1]) == maxLen
  {
    if Utf8Len(s) <= maxLen then Some(s)
    else match TruncateBytes(s, maxLen)
      case None => None
      case Some(t) =>
        assert (t + [Ellipsis])[..|t|] == t;
        Some(t + [Ellipsis])
  }

  /** On ASCII text, a caption longer than `maxLen` characters keeps its
      first `maxLen` characters and gains an ellipsis. */
  lemma TruncateAscii(s: string, maxLen: nat)
    requires IsAscii(s)
    ensures Truncate(s, maxLen) ==
      Some(if |s| <= maxLen then s else s[..maxLen] + [Ellipsis])
  {
    Utf8LenAscii(s);
    TruncateBytesAscii(s, maxLen);
  }

  /** Truncation fails exactly when the text is too long and the cut falls
      inside a character. */
  lemma TruncatePanics(s: string, maxLen: nat)
    ensures Truncate(s, maxLen).None? <==> Utf8Len(s) > maxLen && !IsCharBoundary(s, maxLen)
  {
    TruncateBytesPanics(s, maxLen);
  }

  /** What the generator opens with: brand title and slug, colour, path and
      the matched icon, if any. */
  datatype InitialIcon = InitialIcon(title: string, slug: string, color: string,
                                     path: string, icon: Option<SimpleIcon>)

  /** `default_icon`; the Simple Icons logo path is read from the icon
      package at build time, so it is a parameter. */
  function DefaultIcon(defaultPath: string): InitialIcon
  {
    InitialIcon(DefaultInitialBrand, DefaultInitialSlug, DefaultInitialColor, defaultPath, None)
  }

  /** `search_brand`: the icon of the best match, if the search found
      anything. `results` are the `order_alpha` indices the fuzzy search
      returns for the query. */
  function SearchBrand(icons: seq<SimpleIcon>, results: seq<nat>): (r: Option<SimpleIcon>)
    requires Search.ValidResults(icons, results)
    ensures r.Some? <==> |results| > 0
    ensures r.Some? ==> r.value == icons[results[0]]
  {
    if |results| > 0 then Some(icons[results[0]]) else None
  }

  /** `initial_icon`: the `q` URL parameter picks the best-matching brand,
      with an empty path to be fetched later; no parameter, an empty one or
      no match gives the Simple Icons brand. */
  function InitialIconOf(query: Option<string>, icons: seq<SimpleIcon>, results: seq<nat>,
                         defaultPath: string): (r: InitialIcon)
    requires query.Some? && query.value != "" ==> Search.ValidResults(icons, results)
    ensures r.icon.None? <==> query.None? || query.value == "" || results == []
    ensures r.icon.None? ==>
      r.title == "Simple Icons" && r.slug == "simpleicons" && r.color == "111111"
      && r.path == defaultPath
    ensures r.icon.Some? ==>
      var icon := icons[results[0]];
      r.icon == Some(icon) && r.title == icon.title && r.slug == icon.slug
      && r.color == icon.hex && r.path == ""
  {
    match query
    case None => DefaultIcon(defaultPath)
    case Some(value) =>
      if value == "" then DefaultIcon(defaultPath)
      else match SearchBrand(icons, results)
        case Some(icon) => InitialIcon(icon.title, icon.slug, icon.hex, "", Some(icon))
        case None => DefaultIcon(defaultPath)
  }

  /** The label `badge_svg` asks badge-maker for: none for the social
      style, "simple icons" otherwise. */
  function BadgeLabel(style: string): (r: string)
    ensures r == "" <==> style == "social"
    ensures r != "" ==> r == "simple icons"
  {
    if style == "social" then "" else "simple icons"
  }

  // Gradient identifiers and references.

  /** The attribute `id="name"`. */
  function IdAttr(name: string): string { "id=\"" + name + "\"" }

  /** The reference `url(#name)`. */
  function UrlRef(name: string): string { "url(#" + name + ")" }

  /** The one-letter gradient names badge-maker uses. */
  predicate IsGradientName(c: char) { c == 'r' || c == 's' || c == 'a' || c == 'b' }

  /** Renames gradient `c` and its references to `<id>-c`: a pair of the
      `replace` calls of `badge_svg`. */
  function RenameGradient(s: string, id: string, c: char): string
  {
    var renamed := ReplaceAll(s, IdAttr([c]), IdAttr(id + "-" + [c]));
    ReplaceAll(renamed, UrlRef([c]), UrlRef(id + "-" + [c]))
  }

  /** The `replace` chain of `badge_svg` applied to badge-maker's output. */
  function RewriteIds(badge: string, id: string): string
  {
    RenameGradient(RenameGradient(RenameGradient(RenameGradient(badge, id, 'r'), id, 's'), id, 'a'), id, 'b')
  }

  /** A badge identifier that cannot itself look like an attribute or a
      reference (the source uses "b1" to "b8"). */
  predicate IsPlainId(id: string)
  {
    '"' !in id && '(' !in id && ')' !in id && '=' !in id
  }

  /** Neither the attribute nor a reference of gradient `c` occurs. */
  predicate RefFree(t: string, c: char)
  {
    !Contains(t, IdAttr([c])) && !Contains(t, UrlRef([c]))
  }

  predicate GradientFree(t: string)
  {
    RefFree(t, 'r') && RefFree(t, 's') && RefFree(t, 'a') && RefFree(t, 'b')
  }

  /** A character missing from `s` at position `k` of `p` keeps `p` out of
      `s`. */
  lemma CharAbsentNoOccurrence(s: string, p: string, k: nat)
    requires k < |p| && p[k] !in s
    ensures !Contains(s, p)
  {
    forall i: nat | i <= |s|
      ensures !OccursAt(s, p, i)
    {
      if i + |p| <= |s| {
        assert s[i..i + |p|][k] == s[i + k];
      }
    }
  }

  /** Replacing a whole text that is the pattern gives the replacement. */
  lemma ReplaceWhole(p: string, r: string)
    requires |p| > 0
    ensures ReplaceAll(p, p, r) == r
  {
    assert p[..|p|] == p;
    assert p[|p|..] == [];
  }

  /** `id="n"` holds no `id="d"` unless `n` is `d`. */
  lemma IdAttrNoOtherId(n: string, d: char)
    requires '"' !in n && n != [d]
    ensures !Contains(IdAttr(n), IdAttr([d]))
  {
    var s, p := IdAttr(n), IdAttr([d]);
    forall i: nat | i <= |s|
      ensures !OccursAt(s, p, i)
    {
      if i + 6 <= |s| {
        if i == 0 {
          if |n| == 1 {
            assert n == [n[0]];
            assert s[..6][4] == n[0];
          } else {
            assert s[..6][5] == n[1];
          }
        } else {
          assert s[i..i + 6][3] == n[i - 1];
        }
      }
    }
  }

  /** `url(#n)` holds no `url(#d)` unless `n` is `d`. */
  lemma UrlRefNoOtherUrl(n: string, d: char)
    requires '(' !in n && ')' !in n && n != [d]
    ensures !Contains(UrlRef(n), UrlRef([d]))
  {
    var s, p := UrlRef(n), UrlRef([d]);
    forall i: nat | i <= |s|
      ensures !OccursAt(s, p, i)
    {
      if i + 7 <= |s| {
        if i == 0 {
          if |n| == 1 {
            assert n == [n[0]];
            assert s[..7][5] == n[0];
          } else {
            assert s[..7][6] == n[1];
          }
        } else if i == 1 {
          assert s[1..8][3] == '#';
        } else {
          assert s[i..i + 7][3] == n[i - 2];
        }
      }
    }
  }

  /** One renaming step on a gradient attribute: renamed when the step is
      for its gradient, kept otherwise. */
  lemma RenameIdAttr(n: string, id: string, c: char)
    requires '"' !in n && '(' !in n && IsPlainId(id) && IsGradientName(c)
    ensures RenameGradient(IdAttr(n), id, c) == if n == [c] then IdAttr(id + "-" + [c]) else IdAttr(n)
  {
    var m := id + "-" + [c];
    assert '(' !in IdAttr(m) && '(' !in IdAttr(n);
    CharAbsentNoOccurrence(IdAttr(m), UrlRef([c]), 3);
    CharAbsentNoOccurrence(IdAttr(n), UrlRef([c]), 3);
    if n == [c] {
      ReplaceWhole(IdAttr([c]), IdAttr(m));
    } else {
      IdAttrNoOtherId(n, c);
      ReplaceAbsent(IdAttr(n), IdAttr([c]), IdAttr(m));
    }
    ReplaceAbsent(IdAttr(m), UrlRef([c]), UrlRef(m));
    ReplaceAbsent(IdAttr(n), UrlRef([c]), UrlRef(m));
  }

  /** One renaming step on a gradient reference. */
  lemma RenameUrlRef(n: string, id: string, c: char)
    requires '(' !in n && ')' !in n && '=' !in n && IsPlainId(id) && IsGradientName(c)
    ensures RenameGradient(UrlRef(n), id, c) == if n == [c] then UrlRef(id + "-" + [c]) else UrlRef(n)
  {
    var m := id + "-" + [c];
    assert '=' !in UrlRef(n);
    CharAbsentNoOccurrence(UrlRef(n), IdAttr([c]), 2);
    ReplaceAbsent(UrlRef(n), IdAttr([c]), IdAttr(m));
    if n == [c] {
      ReplaceWhole(UrlRef([c]), UrlRef(m));
    } else {
      UrlRefNoOtherUrl(n, c);
      ReplaceAbsent(UrlRef(n), UrlRef([c]), UrlRef(m));
    }
  }

  /** Text without gradient attributes or references is kept by a step. */
  lemma RenameFree(t: string, id: string, c: char)
    requires RefFree(t, c)
    ensures RenameGradient(t, id, c) == t
  {
    ReplaceAbsent(t, IdAttr([c]), IdAttr(id + "-" + [c]));
    ReplaceAbsent(t, UrlRef([c]), UrlRef(id + "-" + [c]));
  }

  /** The chain of `badge_svg` as four steps, `r`, `s`, `a` then `b`. */
  lemma RewriteIdsSteps(x0: string, x1: string, x2: string, x3: string, x4: string, id: string)
    requires RenameGradient(x0, id, 'r') == x1 && RenameGradient(x1, id, 's') == x2
    requires RenameGradient(x2, id, 'a') == x3 && RenameGradient(x3, id, 'b') == x4
    ensures RewriteIds(x0, id) == x4
  {
  }

  /** The whole chain renames a gradient attribute once. */
  lemma RewriteIdsIdAttr(c: char, id: string)
    requires IsGradientName(c) && IsPlainId(id)
    ensures RewriteIds(IdAttr([c]), id) == IdAttr(id + "-" + [c])
  {
    var m := id + "-" + [c];
    var n1 := if c == 'r' then m else [c];
    var n2 := if c == 's' then m else n1;
    var n3 := if c == 'a' then m else n2;
    RenameIdAttr([c], id, 'r');
    RenameIdAttr(n1, id, 's');
    RenameIdAttr(n2, id, 'a');
    RenameIdAttr(n3, id, 'b');
    RewriteIdsSteps(IdAttr([c]), IdAttr(n1), IdAttr(n2), IdAttr(n3), IdAttr(m), id);
  }

  /** The whole chain renames a gradient reference once. */
  lemma RewriteIdsUrlRef(c: char, id: string)
    requires IsGradientName(c) && IsPlainId(id)
    ensures RewriteIds(UrlRef([c]), id) == UrlRef(id + "-" + [c])
  {
    var m := id + "-" + [c];
    var n1 := if c == 'r' then m else [c];
    var n2 := if c == 's' then m else n1;
    var n3 := if c == 'a' then m else n2;
    RenameUrlRef([c], id, 'r');
    RenameUrlRef(n1, id, 's');
    RenameUrlRef(n2, id, 'a');
    RenameUrlRef(n3, id, 'b');
    RewriteIdsSteps(UrlRef([c]), UrlRef(n1), UrlRef(n2), UrlRef(n3), UrlRef(m), id);
  }

  /** A badge without gradients is left as badge-maker made it. */
  lemma RewriteIdsKeepsPlainBadge(badge: string, id: string)
    requires GradientFree(badge)
    ensures RewriteIds(badge, id) == badge
  {
    RenameFree(badge, id, 'r');
    RenameFree(badge, id, 's');
    RenameFree(badge, id, 'a');
    RenameFree(badge, id, 'b');
  }

  // The renaming on any badge text.

  /** A gradient attribute `id="n"` or reference `url(#n)`. */
  function Token(n: string, isUrl: bool): string
  {
    if isUrl then UrlRef(n) else IdAttr(n)
  }

  /** A name a token carries before or after the renaming: a gradient
      letter, or a badge id, '-' and a gradient letter. */
  predicate TokenName(n: string)
  {
    '"' !in n && '(' !in n && ')' !in n && '=' !in n
    && |n| >= 1 && IsGradientName(n[|n| - 1]) && (|n| >= 2 ==> n[|n| - 2] == '-')
  }

  predicate StartsWithIdToken(s: string)
  {
    |s| >= 6 && IsGradientName(s[4]) && s[..6] == IdAttr([s[4]])
  }

  predicate StartsWithUrlToken(s: string)
  {
    |s| >= 7 && IsGradientName(s[5]) && s[..7] == UrlRef([s[5]])
  }

  /** A gradient attribute or reference starts at index `k`. */
  predicate TokenAt(s: string, k: nat)
  {
    k <= |s| && (StartsWithIdToken(s[k..]) || StartsWithUrlToken(s[k..]))
  }

  /** The reference definition of the renaming: one left-to-right pass
      that rewrites each gradient attribute and reference it meets to carry
      the badge id, and copies every other character. */
  function RenameScan(s: string, id: string): string
    decreases |s|
  {
    if s == [] then []
    else if StartsWithIdToken(s) then IdAttr(id + "-" + [s[4]]) + RenameScan(s[6..], id)
    else if StartsWithUrlToken(s) then UrlRef(id + "-" + [s[5]]) + RenameScan(s[7..], id)
    else [s[0]] + RenameScan(s[1..], id)
  }

  lemma IdAttrChars(n: string)
    ensures |IdAttr(n)| == |n| + 5
    ensures forall k :: 0 <= k < |IdAttr(n)| ==>
      IdAttr(n)[k] == (if k == 0 then 'i' else if k == 1 then 'd' else if k == 2 then '='
                       else if k == 3 then '"' else if k < |n| + 4 then n[k - 4] else '"')
  {
  }

  lemma UrlRefChars(n: string)
    ensures |UrlRef(n)| == |n| + 6
    ensures forall k :: 0 <= k < |UrlRef(n)| ==>
      UrlRef(n)[k] == (if k == 0 then 'u' else if k == 1 then 'r' else if k == 2 then 'l'
                       else if k == 3 then '(' else if k == 4 then '#' else if k < |n| + 5 then n[k - 5] else ')')
  {
  }

  /** The eight patterns hold 'i' and 'u' only as their first character. */
  lemma PatternLead(c: char)
    requires IsGradientName(c)
    ensures forall k :: 1 <= k < |IdAttr([c])| ==> IdAttr([c])[k] != 'i' && IdAttr([c])[k] != 'u'
    ensures forall k :: 1 <= k < |UrlRef([c])| ==> UrlRef([c])[k] != 'i' && UrlRef([c])[k] != 'u'
  {
    IdAttrChars([c]);
    UrlRefChars([c]);
  }

  /** No occurrence of such a pattern runs into text that starts with 'i'
      or 'u'. */
  lemma NoSpanBefore(a: string, w: string, p: string)
    requires |w| > 0 && (w[0] == 'i' || w[0] == 'u')
    requires forall k :: 1 <= k < |p| ==> p[k] != 'i' && p[k] != 'u'
    ensures NoSpanningOccurrence(a, w, p)
  {
    forall i: nat | i < |a| < i + |p|
      ensures !OccursAt(a + w, p, i)
    {
      if i + |p| <= |a + w| {
        assert (a + w)[i..i + |p|][|a| - i] == w[0];
      }
    }
  }

  /** No occurrence of `id="c"` starts inside a token and runs past its
      end: the token's only '=' is its third character, and its last two
      are not 'i'. */
  lemma NoIdSpanAfter(t: string, b: string, c: char)
    requires IsGradientName(c)
    requires |t| >= 6 && t[0] != '=' && t[1] != 'i'
    requires forall k :: 3 <= k < |t| ==> t[k] != '='
    requires t[|t| - 2] != 'i' && t[|t| - 1] != 'i'
    ensures NoSpanningOccurrence(t, b, IdAttr([c]))
  {
    var p := IdAttr([c]);
    assert |p| == 6 && p[0] == 'i' && p[2] == '=';
    forall i: nat | i < |t| < i + |p|
      ensures !OccursAt(t + b, p, i)
    {
      if i + |p| <= |t + b| {
        var s := t + b;
        assert s[i..i + |p|][0] == t[i];
        if i + 2 < |t| {
          assert s[i..i + |p|][2] == t[i + 2];
        }
      }
    }
  }

  /** No occurrence of `url(#c)` starts inside a token and runs past its
      end: the token's only '(' is its fourth character, and its last
      three are not 'u'. */
  lemma NoUrlSpanAfter(t: string, b: string, c: char)
    requires IsGradientName(c)
    requires |t| >= 6 && (|t| == 6 ==> t[0] != 'u') && t[0] != '(' && t[1] != 'u' && t[2] != '('
    requires forall k :: 4 <= k < |t| ==> t[k] != '('
    requires t[|t| - 3] != 'u' && t[|t| - 2] != 'u' && t[|t| - 1] != 'u'
    ensures NoSpanningOccurrence(t, b, UrlRef([c]))
  {
    var p := UrlRef([c]);
    assert |p| == 7 && p[0] == 'u' && p[3] == '(';
    forall i: nat | i < |t| < i + |p|
      ensures !OccursAt(t + b, p, i)
    {
      if i + |p| <= |t + b| {
        var s := t + b;
        assert s[i..i + |p|][0] == t[i];
        if i + 3 < |t| {
          assert s[i..i + |p|][3] == t[i + 3];
        }
      }
    }
  }

  /** A token meets neither pattern across its end. */
  lemma NoSpanAfterToken(n: string, isUrl: bool, b: string, c: char)
    requires TokenName(n) && IsGradientName(c)
    ensures NoSpanningOccurrence(Token(n, isUrl), b, IdAttr([c]))
    ensures NoSpanningOccurrence(Token(n, isUrl), b, UrlRef([c]))
  {
    var t := Token(n, isUrl);
    if isUrl {
      UrlRefChars(n);
      assert forall k :: 5 <= k < |n| + 5 ==> t[k] == n[k - 5] && t[k] != '=' && t[k] != '(';
    } else {
      IdAttrChars(n);
      assert forall k :: 4 <= k < |n| + 4 ==> t[k] == n[k - 4] && t[k] != '=' && t[k] != '(';
    }
    NoIdSpanAfter(t, b, c);
    NoUrlSpanAfter(t, b, c);
  }

  /** One `replace` of a pattern acts on the text before a token, on the
      token and on the text after it separately. */
  lemma ReplaceAroundToken(a: string, n: string, isUrl: bool, b: string, p: string, r: string, c: char)
    requires TokenName(n) && IsGradientName(c) && (p == IdAttr([c]) || p == UrlRef([c]))
    ensures ReplaceAll(a + Token(n, isUrl) + b, p, r)
            == ReplaceAll(a, p, r) + ReplaceAll(Token(n, isUrl), p, r) + ReplaceAll(b, p, r)
  {
    var t := Token(n, isUrl);
    assert a + t + b == a + (t + b);
    assert (t + b)[0] == t[0];
    PatternLead(c);
    NoSpanBefore(a, t + b, p);
    ReplaceAllAppend(a, t + b, p, r);
    NoSpanAfterToken(n, isUrl, b, c);
    ReplaceAllAppend(t, b, p, r);
  }

  /** A renamed name is again a token name. */
  lemma RenamedTokenName(id: string, c: char)
    requires IsPlainId(id) && IsGradientName(c)
    ensures TokenName(id + "-" + [c])
  {
    var m := id + "-" + [c];
    assert m[|m| - 1] == c && m[|m| - 2] == '-';
  }

  /** Each `replace` of one step keeps a token a token. */
  lemma ReplaceOnToken(n: string, isUrl: bool, id: string, c: char)
    requires TokenName(n) && IsPlainId(id) && IsGradientName(c)
    ensures ReplaceAll(Token(n, isUrl), IdAttr([c]), IdAttr(id + "-" + [c]))
            == Token(if !isUrl && n == [c] then id + "-" + [c] else n, isUrl)
    ensures ReplaceAll(Token(n, isUrl), UrlRef([c]), UrlRef(id + "-" + [c]))
            == Token(if isUrl && n == [c] then id + "-" + [c] else n, isUrl)
  {
    var m := id + "-" + [c];
    if isUrl {
      assert '=' !in UrlRef(n);
      CharAbsentNoOccurrence(UrlRef(n), IdAttr([c]), 2);
      ReplaceAbsent(UrlRef(n), IdAttr([c]), IdAttr(m));
      if n == [c] {
        ReplaceWhole(UrlRef([c]), UrlRef(m));
      } else {
        UrlRefNoOtherUrl(n, c);
        ReplaceAbsent(UrlRef(n), UrlRef([c]), UrlRef(m));
      }
    } else {
      assert '(' !in IdAttr(n);
      CharAbsentNoOccurrence(IdAttr(n), UrlRef([c]), 3);
      ReplaceAbsent(IdAttr(n), UrlRef([c]), UrlRef(m));
      if n == [c] {
        ReplaceWhole(IdAttr([c]), IdAttr(m));
      } else {
        IdAttrNoOtherId(n, c);
        ReplaceAbsent(IdAttr(n), IdAttr([c]), IdAttr(m));
      }
    }
  }

  /** One renaming step acts on the text around a token and on the token
      separately, and leaves a token. */
  lemma RenameGradientAroundToken(a: string, n: string, isUrl: bool, b: string, id: string, c: char)
    requires TokenName(n) && IsPlainId(id) && IsGradientName(c)
    ensures RenameGradient(a + Token(n, isUrl) + b, id, c)
            == RenameGradient(a, id, c) + Token(if n == [c] then id + "-" + [c] else n, isUrl)
               + RenameGradient(b, id, c)
  {
    var m := id + "-" + [c];
    var p1, r1, p2, r2 := IdAttr([c]), IdAttr(m), UrlRef([c]), UrlRef(m);
    RenamedTokenName(id, c);
    ReplaceAroundToken(a, n, isUrl, b, p1, r1, c);
    ReplaceOnToken(n, isUrl, id, c);
    var n1 := if !isUrl && n == [c] then m else n;
    ReplaceAroundToken(ReplaceAll(a, p1, r1), n1, isUrl, ReplaceAll(b, p1, r1), p2, r2, c);
    ReplaceOnToken(n1, isUrl, id, c);
  }

  /** The whole chain acts on the text around a gradient attribute or
      reference and on the token separately. */
  lemma RewriteIdsAroundToken(a: string, c: char, isUrl: bool, b: string, id: string)
    requires IsGradientName(c) && IsPlainId(id)
    ensures RewriteIds(a + Token([c], isUrl) + b, id)
            == RewriteIds(a, id) + Token(id + "-" + [c], isUrl) + RewriteIds(b, id)
  {
    var m := id + "-" + [c];
    RenamedTokenName(id, c);
    var n1 := if c == 'r' then m else [c];
    var n2 := if c == 's' then m else n1;
    var n3 := if c == 'a' then m else n2;
    RenameGradientAroundToken(a, [c], isUrl, b, id, 'r');
    var a1, b1 := RenameGradient(a, id, 'r'), RenameGradient(b, id, 'r');
    RenameGradientAroundToken(a1, n1, isUrl, b1, id, 's');
    var a2, b2 := RenameGradient(a1, id, 's'), RenameGradient(b1, id, 's');
    RenameGradientAroundToken(a2, n2, isUrl, b2, id, 'a');
    var a3, b3 := RenameGradient(a2, id, 'a'), RenameGradient(b2, id, 'a');
    RenameGradientAroundToken(a3, n3, isUrl, b3, id, 'b');
  }

  /** A pattern occurrence is a token start. */
  lemma OccurrenceIsToken(s: string, i: nat, c: char)
    requires IsGradientName(c)
    ensures OccursAt(s, IdAttr([c]), i) ==> TokenAt(s, i)
    ensures OccursAt(s, UrlRef([c]), i) ==> TokenAt(s, i)
  {
    if i + 6 <= |s| {
      assert s[i..][..6] == s[i..i + 6];
    }
    if i + 7 <= |s| {
      assert s[i..][..7] == s[i..i + 7];
    }
  }

  /** Text with a gradient attribute or reference has a token start. */
  lemma NotFreeHasToken(s: string) returns (k: nat)
    requires !GradientFree(s)
    ensures k < |s| && TokenAt(s, k)
  {
    var c := if !RefFree(s, 'r') then 'r' else if !RefFree(s, 's') then 's'
             else if !RefFree(s, 'a') then 'a' else 'b';
    var p := if Contains(s, IdAttr([c])) then IdAttr([c]) else UrlRef([c]);
    k :| k <= |s| && OccursAt(s, p, k);
    OccurrenceIsToken(s, k, c);
  }

  /** Some token start has none before it. */
  lemma FirstToken(s: string, k0: nat) returns (k: nat)
    requires TokenAt(s, k0)
    ensures k <= k0 && TokenAt(s, k)
    ensures forall j :: 0 <= j < k ==> !TokenAt(s, j)
    decreases k0
  {
    k := k0;
    if exists j :: 0 <= j < k0 && TokenAt(s, j) {
      var j :| 0 <= j < k0 && TokenAt(s, j);
      k := FirstToken(s, j);
    }
  }

  /** The text before the first token start holds no gradient token. */
  lemma PrefixBeforeTokenFree(s: string, k: nat)
    requires k <= |s|
    requires forall j :: 0 <= j < k ==> !TokenAt(s, j)
    ensures GradientFree(s[..k])
  {
    forall c, i: nat | IsGradientName(c) && i <= k
      ensures !OccursAt(s[..k], IdAttr([c]), i) && !OccursAt(s[..k], UrlRef([c]), i)
    {
      OccurrenceIsToken(s, i, c);
      if i + 6 <= k {
        assert s[..k][i..i + 6] == s[i..i + 6];
      }
      if i + 7 <= k {
        assert s[..k][i..i + 7] == s[i..i + 7];
      }
    }
  }

  lemma GradientFreeTail(s: string)
    requires |s| > 0 && GradientFree(s)
    ensures GradientFree(s[1..])
  {
    forall p | Contains(s[1..], p)
      ensures Contains(s, p)
    {
      ContainsTail(s, p);
    }
  }

  /** Text with a gradient token but none at its start splits at its first
      token into a nonempty token-free head, the token and the rest. */
  lemma SplitAtFirstToken(s: string) returns (a: string, c: char, isUrl: bool, b: string)
    requires !GradientFree(s) && !TokenAt(s, 0)
    ensures s == a + Token([c], isUrl) + b
    ensures |a| > 0 && GradientFree(a) && IsGradientName(c)
  {
    var k0 := NotFreeHasToken(s);
    var k := FirstToken(s, k0);
    isUrl := !StartsWithIdToken(s[k..]);
    c := if isUrl then s[k + 5] else s[k + 4];
    var t := Token([c], isUrl);
    a, b := s[..k], s[k + |t|..];
    assert s[k..][..|t|] == s[k..k + |t|];
    assert s == a + t + b;
    PrefixBeforeTokenFree(s, k);
  }

  /** A token-free head is copied character by character. */
  lemma RewriteIdsCopiesHead(a: string, c: char, isUrl: bool, b: string, id: string)
    requires |a| > 0 && GradientFree(a) && IsGradientName(c) && IsPlainId(id)
    ensures RewriteIds(a + Token([c], isUrl) + b, id) == [a[0]] + RewriteIds(a[1..] + Token([c], isUrl) + b, id)
  {
    var t, u, rb := Token([c], isUrl), Token(id + "-" + [c], isUrl), RewriteIds(b, id);
    GradientFreeTail(a);
    calc {
      RewriteIds(a + t + b, id);
      { RewriteIdsAroundToken(a, c, isUrl, b, id); }
      RewriteIds(a, id) + u + rb;
      { RewriteIdsKeepsPlainBadge(a, id); }
      a + u + rb;
      { assert a == [a[0]] + a[1..]; }
      [a[0]] + (a[1..] + u + rb);
      { RewriteIdsKeepsPlainBadge(a[1..], id); }
      [a[0]] + (RewriteIds(a[1..], id) + u + rb);
      { RewriteIdsAroundToken(a[1..], c, isUrl, b, id); }
      [a[0]] + RewriteIds(a[1..] + t + b, id);
    }
  }

  /** Token-free text is copied character by character. */
  lemma RewriteIdsCopiesFree(s: string, id: string)
    requires |s| > 0 && GradientFree(s)
    ensures RewriteIds(s, id) == [s[0]] + RewriteIds(s[1..], id)
  {
    GradientFreeTail(s);
    RewriteIdsKeepsPlainBadge(s, id);
    RewriteIdsKeepsPlainBadge(s[1..], id);
    assert s == [s[0]] + s[1..];
  }

  /** Where no token starts, the chain copies the first character. */
  lemma RewriteIdsCopiesChar(s: string, id: string)
    requires |s| > 0 && IsPlainId(id) && !TokenAt(s, 0)
    ensures RewriteIds(s, id) == [s[0]] + RewriteIds(s[1..], id)
  {
    if GradientFree(s) {
      RewriteIdsCopiesFree(s, id);
    } else {
      var a, c, isUrl, b := SplitAtFirstToken(s);
      assert s[1..] == a[1..] + Token([c], isUrl) + b;
      RewriteIdsCopiesHead(a, c, isUrl, b, id);
    }
  }

  /** A gradient attribute at the start is renamed. */
  lemma RewriteIdsIdHead(s: string, id: string)
    requires IsPlainId(id) && StartsWithIdToken(s)
    ensures RewriteIds(s, id) == IdAttr(id + "-" + [s[4]]) + RewriteIds(s[6..], id)
  {
    assert s == [] + Token([s[4]], false) + s[6..];
    RewriteIdsAroundToken([], s[4], false, s[6..], id);
    RewriteIdsKeepsPlainBadge([], id);
  }

  /** A gradient reference at the start is renamed. */
  lemma RewriteIdsUrlHead(s: string, id: string)
    requires IsPlainId(id) && StartsWithUrlToken(s)
    ensures RewriteIds(s, id) == UrlRef(id + "-" + [s[5]]) + RewriteIds(s[7..], id)
  {
    assert s == [] + Token([s[5]], true) + s[7..];
    RewriteIdsAroundToken([], s[5], true, s[7..], id);
    RewriteIdsKeepsPlainBadge([], id);
  }

  /** `badge_svg`'s chain of eight `replace` calls, on any badge text,
      is the one-pass renaming: every `id="r|s|a|b"` and `url(#r|s|a|b)`
      gets the badge id, and every other character is kept in place. */
  lemma {:induction false} RewriteIdsIsRenameScan(s: string, id: string)
    requires IsPlainId(id)
    ensures RewriteIds(s, id) == RenameScan(s, id)
    decreases |s|
  {
    if s == [] {
      RewriteIdsKeepsPlainBadge(s, id);
    } else if StartsWithIdToken(s) {
      RewriteIdsIdHead(s, id);
      RewriteIdsIsRenameScan(s[6..], id);
    } else if StartsWithUrlToken(s) {
      RewriteIdsUrlHead(s, id);
      RewriteIdsIsRenameScan(s[7..], id);
    } else {
      assert !TokenAt(s, 0) by { assert s[0..] == s; }
      RewriteIdsCopiesChar(s, id);
      RewriteIdsIsRenameScan(s[1..], id);
    }
  }
}
