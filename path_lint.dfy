/** The character-level rules of the SVG path linter used by the preview
    generator (libs/simple-icons/src/lint.rs): the path must start with a
    moveto command and use only path characters, and must not contain a
    negative zero. Every error carries the character range it refers to and,
    where one exists, the fixer the "Fix" button applies to the path. */
module PathLint {
  import opened Strings

  const PathValidCharacters: string := "mMzZlLhHvVcCsSqQtTaAeE0123456789,.- "
  const Numbers: string := "0123456789"

  /** A `(u32, u32)` character range: `start` inclusive, `end` exclusive. */
  datatype Range = Range(start: nat, end: nat)

  /** The errors the character rules produce (the variants for size,
      precision, centering, collinearity and syntax come from the
      floating-point rules, which are not part of this model). */
  datatype PathLintError =
    | MustStartWithMovetoCommand(command: string)
    | InvalidCharacterAtIndex(character: char, index: nat)
    | FoundNegativeZeroAtIndex(index: nat)

  /** The three fixer functions an error may point to. */
  datatype Fixer = RemoveCharactersInRange | PrependOrReplaceMoveto | NegativeZero

  datatype LintError = LintError(error: PathLintError, range: Option<Range>, fixer: Option<Fixer>)

  predicate IsValidPathChar(c: char) { c in PathValidCharacters }

  predicate IsNumber(c: char) { c in Numbers }

  /** The index an error refers to (0 for the moveto error). */
  function ErrorIndex(e: LintError): nat
  {
    match e.error
    case InvalidCharacterAtIndex(_, index) => index
    case FoundNegativeZeroAtIndex(index) => index
    case MustStartWithMovetoCommand(_) => 0
  }

  function Min(a: nat, b: nat): nat { if a <= b then a else b }

  function Max(a: nat, b: nat): nat { if a <= b then b else a }

  // ---------------------------------------------------------------------
  // path_format

  /** The moveto error of `path_format`: present exactly when the path is
      non-empty and its first character is neither 'M' nor 'm'. */
  function MovetoErrors(path: string): (r: seq<LintError>)
    ensures |r| <= 1
    ensures |r| == 1 <==> path != [] && path[0] != 'M' && path[0] != 'm'
    ensures |r| == 1 ==> r[0] == LintError(MustStartWithMovetoCommand([path[0]]),
                                           Some(Range(0, 1)), Some(PrependOrReplaceMoveto))
  {
    if path != [] && path[0] != 'M' && path[0] != 'm' then
      [LintError(MustStartWithMovetoCommand([path[0]]), Some(Range(0, 1)), Some(PrependOrReplaceMoveto))]
    else []
  }

  function InvalidCharError(path: string, i: nat): LintError
    requires i < |path|
  {
    LintError(InvalidCharacterAtIndex(path[i], i), Some(Range(i, i + 1)), Some(RemoveCharactersInRange))
  }

  /** The invalid-character errors for the first `n` characters, in index
      order: one per character outside PATH_VALID_CHARACTERS. */
  function InvalidUpTo(path: string, n: nat): seq<LintError>
    requires n <= |path|
  {
    if n == 0 then []
    else InvalidUpTo(path, n - 1)
         + (if IsValidPathChar(path[n - 1]) then [] else [InvalidCharError(path, n - 1)])
  }

  /** Each reported error names an invalid character of the path, at its
      index, with the range `(i, i + 1)` and the removing fixer. */
  lemma {:induction false} InvalidUpToSound(path: string, n: nat)
    requires n <= |path|
    ensures forall k :: 0 <= k < |InvalidUpTo(path, n)| ==>
      var e := InvalidUpTo(path, n)[k];
      e.error.InvalidCharacterAtIndex? && e.error.index < n
      && !IsValidPathChar(path[e.error.index])
      && e == InvalidCharError(path, e.error.index)
  {
    if n > 0 {
      InvalidUpToSound(path, n - 1);
    }
  }

  /** The errors come in increasing index order. */
  lemma {:induction false} InvalidUpToOrdered(path: string, n: nat)
    requires n <= |path|
    ensures forall k1, k2 :: 0 <= k1 < k2 < |InvalidUpTo(path, n)| ==>
      ErrorIndex(InvalidUpTo(path, n)[k1]) < ErrorIndex(InvalidUpTo(path, n)[k2])
  {
    if n > 0 {
      InvalidUpToOrdered(path, n - 1);
      InvalidUpToSound(path, n - 1);
    }
  }

  /** Every invalid character is reported. */
  lemma {:induction false} InvalidUpToComplete(path: string, n: nat)
    requires n <= |path|
    ensures forall j :: 0 <= j < n && !IsValidPathChar(path[j]) ==>
      InvalidCharError(path, j) in InvalidUpTo(path, n)
  {
    if n > 0 {
      InvalidUpToComplete(path, n - 1);
    }
  }

  /** Everything `path_format` reports, in the order it reports it. */
  function PathFormatErrors(path: string): seq<LintError>
  {
    MovetoErrors(path) + InvalidUpTo(path, |path|)
  }

  method PathFormat(path: string) returns (errors: seq<LintError>)
    ensures errors == PathFormatErrors(path)
  {
    errors := [];
    if path != [] && path[0] != 'M' && path[0] != 'm' {
      var firstChar := [path[0]];
      errors := errors + [LintError(MustStartWithMovetoCommand(firstChar), Some(Range(0, 1)),
                                    Some(PrependOrReplaceMoveto))];
    }
    var i := 0;
    while i < |path|
      invariant 0 <= i <= |path|
      invariant errors == MovetoErrors(path) + InvalidUpTo(path, i)
    {
      var character := path[i];
      if !IsValidPathChar(character) {
        errors := errors + [LintError(InvalidCharacterAtIndex(character, i), Some(Range(i, i + 1)),
                                      Some(RemoveCharactersInRange))];
      }
      i := i + 1;
    }
  }

  /** A path that starts with a moveto command and uses only valid
      characters gets no `path_format` error; and conversely. */
  lemma PathFormatCleanIff(path: string)
    ensures PathFormatErrors(path) == [] <==>
      (path == [] || path[0] == 'M' || path[0] == 'm')
      && forall j :: 0 <= j < |path| ==> IsValidPathChar(path[j])
  {
    var inv := InvalidUpTo(path, |path|);
    InvalidUpToSound(path, |path|);
    InvalidUpToComplete(path, |path|);
    if inv != [] {
      var j := inv[0].error.index;
      assert !IsValidPathChar(path[j]);
    }
  }

  // ---------------------------------------------------------------------
  // negative_zeros

  /** The character after index `i`, or '\0' past the end
      (`chars().nth(i + 1).unwrap_or('\0')`). */
  function NextChar(path: string, i: nat): char
  {
    if i + 1 < |path| then path[i + 1] else '\0'
  }

  /** A '-' whose next character is '0' or '\0' (so also a trailing '-'). */
  predicate IsNegativeZeroAt(path: string, i: nat)
    requires i < |path|
  {
    path[i] == '-' && NextChar(path, i) in "0\0"
  }

  function NegativeZeroError(i: nat): LintError
  {
    LintError(FoundNegativeZeroAtIndex(i), Some(Range(i, i + 2)), Some(NegativeZero))
  }

  /** The negative-zero errors for the first `n` characters, in index order. */
  function NegativeZerosUpTo(path: string, n: nat): seq<LintError>
    requires n <= |path|
  {
    if n == 0 then []
    else NegativeZerosUpTo(path, n - 1)
         + (if IsNegativeZeroAt(path, n - 1) then [NegativeZeroError(n - 1)] else [])
  }

  /** Each reported error is a '-' followed by '0' or by the end of the
      path, with the range `(i, i + 2)`. */
  lemma {:induction false} NegativeZerosSound(path: string, n: nat)
    requires n <= |path|
    ensures forall k :: 0 <= k < |NegativeZerosUpTo(path, n)| ==>
      var e := NegativeZerosUpTo(path, n)[k];
      e.error.FoundNegativeZeroAtIndex? && e.error.index < n
      && IsNegativeZeroAt(path, e.error.index)
      && e == NegativeZeroError(e.error.index)
  {
    if n > 0 {
      NegativeZerosSound(path, n - 1);
    }
  }

  lemma {:induction false} NegativeZerosOrdered(path: string, n: nat)
    requires n <= |path|
    ensures forall k1, k2 :: 0 <= k1 < k2 < |NegativeZerosUpTo(path, n)| ==>
      ErrorIndex(NegativeZerosUpTo(path, n)[k1]) < ErrorIndex(NegativeZerosUpTo(path, n)[k2])
  {
    if n > 0 {
      NegativeZerosOrdered(path, n - 1);
      NegativeZerosSound(path, n - 1);
    }
  }

  lemma {:induction false} NegativeZerosComplete(path: string, n: nat)
    requires n <= |path|
    ensures forall j :: 0 <= j < n && IsNegativeZeroAt(path, j) ==>
      NegativeZeroError(j) in NegativeZerosUpTo(path, n)
  {
    if n > 0 {
      NegativeZerosComplete(path, n - 1);
    }
  }

  function NegativeZerosErrors(path: string): seq<LintError>
  {
    NegativeZerosUpTo(path, |path|)
  }

  method NegativeZeros(path: string) returns (errors: seq<LintError>)
    ensures errors == NegativeZerosErrors(path)
  {
    errors := [];
    var i := 0;
    while i < |path|
      invariant 0 <= i <= |path|
      invariant errors == NegativeZerosUpTo(path, i)
    {
      if path[i] == '-' {
        var nextChar := if i + 1 < |path| then path[i + 1] else '\0';
        if nextChar in "0\0" {
          errors := errors + [LintError(FoundNegativeZeroAtIndex(i), Some(Range(i, i + 2)),
                                        Some(NegativeZero))];
        }
      }
      i := i + 1;
    }
  }

  /** A negative zero at index `i` is reported with the range `(i, i + 2)`. */
  lemma NegativeZeroReported(path: string, i: nat)
    requires i < |path| && path[i] == '-' && (i + 1 == |path| || path[i + 1] == '0')
    ensures NegativeZeroError(i) in NegativeZerosErrors(path)
    ensures NegativeZeroError(i).range == Some(Range(i, i + 2))
  {
    assert IsNegativeZeroAt(path, i);
    NegativeZerosComplete(path, |path|);
  }

  // ---------------------------------------------------------------------
  // lint_path_characters

  function LintPathCharactersErrors(path: string): seq<LintError>
  {
    PathFormatErrors(path) + NegativeZerosErrors(path)
  }

  method LintPathCharacters(path: string) returns (errors: seq<LintError>)
    ensures errors == LintPathCharactersErrors(path)
    ensures |errors| == |PathFormatErrors(path)| + |NegativeZerosErrors(path)|
    ensures errors[..|PathFormatErrors(path)|] == PathFormatErrors(path)
    ensures errors[|PathFormatErrors(path)|..] == NegativeZerosErrors(path)
  {
    errors := PathFormat(path);
    var zeros := NegativeZeros(path);
    errors := errors + zeros;
  }

  // ---------------------------------------------------------------------
  // fixers

  /** The result of `fix_removing_characters_in_range`: every character
      whose index lies in `[start, end)` is dropped. */
  function WithoutRange(path: string, range: Range): string
  {
    path[..Min(|path|, range.start)] + path[Min(|path|, Max(range.start, range.end))..]
  }

  method FixRemovingCharactersInRange(path: string, range: Range) returns (newPath: string, r: Range)
    ensures r == range
    ensures newPath == WithoutRange(path, range)
  {
    var s := range.start;
    var e := Max(range.start, range.end);
    newPath := [];
    var i := 0;
    while i < |path|
      invariant 0 <= i <= |path|
      invariant newPath == path[..Min(i, s)] + path[Min(i, e)..i]
    {
      if i >= range.start && i < range.end {
        assert path[Min(i + 1, e)..i + 1] == [];
      } else {
        if i < s {
          assert path[..Min(i + 1, s)] == path[..Min(i, s)] + [path[i]];
        } else {
          assert path[Min(i + 1, e)..i + 1] == path[Min(i, e)..i] + [path[i]];
        }
        newPath := newPath + [path[i]];
      }
      i := i + 1;
    }
    r := range;
  }

  /** Fixing an invalid-character error drops exactly that character. */
  lemma RemoveInvalidCharacter(path: string, i: nat)
    requires i < |path|
    ensures WithoutRange(path, InvalidCharError(path, i).range.value) == path[..i] + path[i + 1..]
    ensures |WithoutRange(path, InvalidCharError(path, i).range.value)| == |path| - 1
  {
  }

  /** The result of `fix_path_not_starts_with_moveto_command`, or `None`
      where Rust panics (an empty path: `unwrap` on no first character).
      A first letter is replaced by 'M'; anything else gets 'M' prepended. */
  function FixPathNotStartsWithMovetoCommand(path: string): (r: Option<(string, Range)>)
    ensures r.None? <==> path == []
    ensures r.Some? ==> r.value.1 == Range(0, 1) && r.value.0 != [] && r.value.0[0] == 'M'
    ensures r.Some? && IsAsciiAlpha(path[0]) ==> r.value.0 == "M" + path[1..]
    ensures r.Some? && !IsAsciiAlpha(path[0]) ==> r.value.0 == "M" + path
  {
    if path == [] then None
    else if IsAsciiAlpha(path[0]) then Some(("M" + path[1..], Range(0, 1)))
    else Some(("M" + path, Range(0, 1)))
  }

  /** After the moveto fix, `path_format` no longer reports a moveto error. */
  lemma MovetoFixClearsError(path: string)
    requires path != []
    ensures MovetoErrors(FixPathNotStartsWithMovetoCommand(path).value.0) == []
  {
  }

  /** The text `fix_negative_zero` puts at `range.start`: " 0" after a
      digit, "0" otherwise. Index 0 has no previous character: `i - 1`
      wraps in the release build and `nth` gives '\0'. */
  function NegativeZeroReplacement(path: string, start: nat): string
  {
    var previousChar := if 0 < start <= |path| then path[start - 1] else '\0';
    if previousChar in Numbers then " 0" else "0"
  }

  /** The result of `fix_negative_zero`: the character at `start` becomes
      the replacement and the characters strictly inside `(start, end)` are
      dropped; a range starting past the end changes nothing. */
  function NegativeZeroFixed(path: string, range: Range): string
  {
    if range.start < |path| then
      path[..range.start] + NegativeZeroReplacement(path, range.start)
      + path[Min(|path|, Max(range.end, range.start + 1))..]
    else path
  }

  method FixNegativeZero(path: string, range: Range) returns (newPath: string, r: Range)
    ensures r == range
    ensures newPath == NegativeZeroFixed(path, range)
  {
    var s := range.start;
    var e := Max(range.end, range.start + 1);
    newPath := [];
    var i := 0;
    while i < |path|
      invariant 0 <= i <= |path|
      invariant i <= s ==> newPath == path[..i]
      invariant s < i ==> newPath == path[..s] + NegativeZeroReplacement(path, s) + path[Min(i, e)..i]
    {
      if i == range.start {
        var previousChar := if i > 0 then path[i - 1] else '\0';
        var replacement := if previousChar in Numbers then " 0" else "0";
        assert replacement == NegativeZeroReplacement(path, s);
        newPath := newPath + replacement;
        assert Min(i + 1, e) == i + 1;
        assert path[Min(i + 1, e)..i + 1] == [];
      } else if i > range.start && i < range.end {
        assert Min(i + 1, e) == i + 1 && Min(i, e) == i;
        assert path[Min(i + 1, e)..i + 1] == [];
      } else {
        if i < s {
          assert path[..i + 1] == path[..i] + [path[i]];
        } else {
          assert e <= i && Min(i + 1, e) == e && Min(i, e) == e;
          assert path[e..i + 1] == path[e..i] + [path[i]];
        }
        newPath := newPath + [path[i]];
      }
      i := i + 1;
    }
    assert path[..|path|] == path;
    assert path[Min(|path|, e)..|path|] == path[Min(|path|, e)..];
    r := range;
  }

  lemma NegativeZeroSpan(path: string, i: nat)
    requires i < |path| && IsNegativeZeroAt(path, i)
    ensures CountChar(path[i..Min(|path|, i + 2)], '-') == 1
  {
    var m := path[i..Min(|path|, i + 2)];
    if i + 1 < |path| {
      assert NextChar(path, i) == path[i + 1];
      assert m == ['-', path[i + 1]] && path[i + 1] != '-';
    } else {
      assert m == ['-'];
    }
  }

  lemma NegativeZeroReplacementHasNoMinus(path: string, i: nat)
    ensures '-' !in NegativeZeroReplacement(path, i)
  {
    var repl := NegativeZeroReplacement(path, i);
    assert repl == " 0" || repl == "0";
  }

  /** Fixing a reported negative zero removes its minus sign and nothing
      else: the text has exactly one '-' fewer. */
  lemma NegativeZeroFixRemovesMinus(path: string, i: nat)
    requires i < |path| && IsNegativeZeroAt(path, i)
    ensures CountChar(NegativeZeroFixed(path, NegativeZeroError(i).range.value), '-')
            == CountChar(path, '-') - 1
  {
    var e := Min(|path|, i + 2);
    NegativeZeroSpan(path, i);
    NegativeZeroReplacementHasNoMinus(path, i);
    assert NegativeZeroError(i).range.value == Range(i, i + 2);
    assert Max(i + 2, i + 1) == i + 2;
    SliceSplit(path, i, e);
    CountSplice(path[..i], path[i..e], NegativeZeroReplacement(path, i), path[e..], '-');
  }
}
