/** The SDK version of the SVG path linter (simple-icons/src/sdk/lint.rs).
    Its character rules detect exactly what the typed linter in `PathLint`
    detects, with the same ranges and fixers, but each error carries a
    rendered message instead of a typed variant. It adds the precision
    rule and `lint_path`, which chains every rule. */
module SdkLint {
  import opened Strings
  import opened PathLint

  /** An `(message, range, fixer)` triple. */
  datatype SdkError = SdkError(message: string, range: Option<Range>, fixer: Option<Fixer>)

  function MovetoMessage(firstChar: string): string
  {
    "Must start with \"moveto\" command " + "(\"M\" or \"m\") but starts with \""
    + firstChar + "\""
  }

  function InvalidCharMessage(c: char, i: nat): string
  {
    "Contains invalid character \"" + [c] + "\" at index " + NatToString(i)
  }

  function NegativeZeroMessage(i: nat): string
  {
    "Found \"-0\" at index " + NatToString(i)
  }

  /** The message the SDK prints for a typed character error. */
  function Message(e: PathLintError): string
  {
    match e
    case MustStartWithMovetoCommand(command) => MovetoMessage(command)
    case InvalidCharacterAtIndex(character, index) => InvalidCharMessage(character, index)
    case FoundNegativeZeroAtIndex(index) => NegativeZeroMessage(index)
  }

  /** A typed error as the SDK reports it: same range, same fixer. */
  function Render(e: LintError): (r: SdkError)
    ensures r.range == e.range && r.fixer == e.fixer
  {
    SdkError(Message(e.error), e.range, e.fixer)
  }

  function RenderAll(es: seq<LintError>): (r: seq<SdkError>)
    ensures |r| == |es|
    ensures forall k :: 0 <= k < |es| ==> r[k] == Render(es[k])
  {
    seq(|es|, k requires 0 <= k < |es| => Render(es[k]))
  }

  lemma RenderAllAppend(a: seq<LintError>, b: seq<LintError>)
    ensures RenderAll(a + b) == RenderAll(a) + RenderAll(b)
  {
    assert forall k :: 0 <= k < |a + b| ==> RenderAll(a + b)[k] == (RenderAll(a) + RenderAll(b))[k];
  }

  // ---------------------------------------------------------------------
  // path_format and negative_zeros with string messages

  method SdkPathFormat(path: string) returns (errors: seq<SdkError>)
    ensures errors == RenderAll(PathFormatErrors(path))
  {
    errors := SdkMovetoError(path);
    var i := 0;
    while i < |path|
      invariant 0 <= i <= |path|
      invariant errors == RenderAll(MovetoErrors(path) + InvalidUpTo(path, i))
    {
      var character := path[i];
      RenderedInvalidStep(path, i);
      if !IsValidPathChar(character) {
        errors := errors + [SdkError(InvalidCharMessage(character, i), Some(Range(i, i + 1)),
                                     Some(RemoveCharactersInRange))];
      }
      i := i + 1;
    }
  }

  /** The first check of `path_format`: the moveto error, if any. */
  method SdkMovetoError(path: string) returns (errors: seq<SdkError>)
    ensures errors == RenderAll(MovetoErrors(path) + InvalidUpTo(path, 0))
  {
    errors := [];
    if path != [] && path[0] != 'M' && path[0] != 'm' {
      var firstChar := [path[0]];
      errors := errors + [SdkError(MovetoMessage(firstChar), Some(Range(0, 1)), Some(PrependOrReplaceMoveto))];
    }
    RenderedMovetoErrors(path);
  }

  /** The rendered errors before the character scan: the moveto error. */
  lemma RenderedMovetoErrors(path: string)
    ensures RenderAll(MovetoErrors(path) + InvalidUpTo(path, 0))
            == if path != [] && path[0] != 'M' && path[0] != 'm'
               then [SdkError(MovetoMessage([path[0]]), Some(Range(0, 1)), Some(PrependOrReplaceMoveto))]
               else []
  {
    assert MovetoErrors(path) + InvalidUpTo(path, 0) == MovetoErrors(path);
  }

  /** One character of the scan adds its rendered error, if any. */
  lemma RenderedInvalidStep(path: string, i: nat)
    requires i < |path|
    ensures RenderAll(MovetoErrors(path) + InvalidUpTo(path, i + 1))
            == RenderAll(MovetoErrors(path) + InvalidUpTo(path, i))
               + if IsValidPathChar(path[i]) then []
                 else [SdkError(InvalidCharMessage(path[i], i), Some(Range(i, i + 1)), Some(RemoveCharactersInRange))]
  {
    var before := MovetoErrors(path) + InvalidUpTo(path, i);
    if IsValidPathChar(path[i]) {
      assert MovetoErrors(path) + InvalidUpTo(path, i + 1) == before;
    } else {
      assert MovetoErrors(path) + InvalidUpTo(path, i + 1) == before + [InvalidCharError(path, i)];
      RenderAllAppend(before, [InvalidCharError(path, i)]);
      assert RenderAll([InvalidCharError(path, i)])[0] == Render(InvalidCharError(path, i));
    }
  }

  method SdkNegativeZeros(path: string) returns (errors: seq<SdkError>)
    ensures errors == RenderAll(NegativeZerosErrors(path))
  {
    errors := [];
    var i := 0;
    while i < |path|
      invariant 0 <= i <= |path|
      invariant errors == RenderAll(NegativeZerosUpTo(path, i))
    {
      if path[i] == '-' {
        var nextChar := if i + 1 < |path| then path[i + 1] else '\0';
        if nextChar in "0\0" {
          RenderAllAppend(NegativeZerosUpTo(path, i), [NegativeZeroError(i)]);
          errors := errors + [SdkError(NegativeZeroMessage(i), Some(Range(i, i + 2)), Some(NegativeZero))];
        }
      }
      i := i + 1;
    }
  }

  /** The SDK rules report, error for error, what the typed rules report:
      the same number of errors, each with the same range and fixer, and a
      message naming the same character and index. */
  lemma SdkMatchesTyped(path: string, errors: seq<SdkError>, typed: seq<LintError>)
    requires errors == RenderAll(typed)
    requires typed == PathFormatErrors(path) || typed == NegativeZerosErrors(path)
    ensures |errors| == |typed|
    ensures forall k :: 0 <= k < |typed| ==>
      errors[k].range == typed[k].range && errors[k].fixer == typed[k].fixer
      && errors[k].message == Message(typed[k].error)
  {
  }

  /** A negative zero at the end of the path or before '0' is reported with
      the range `(i, i + 2)` and the message naming `i`. */
  lemma SdkNegativeZeroReported(path: string, i: nat)
    requires i < |path| && path[i] == '-' && (i + 1 == |path| || path[i + 1] == '0')
    ensures SdkError(NegativeZeroMessage(i), Some(Range(i, i + 2)), Some(NegativeZero))
            in RenderAll(NegativeZerosErrors(path))
  {
    NegativeZeroReported(path, i);
    var k :| 0 <= k < |NegativeZerosErrors(path)| && NegativeZerosErrors(path)[k] == NegativeZeroError(i);
    assert RenderAll(NegativeZerosErrors(path))[k] == Render(NegativeZeroError(i));
  }

  // ---------------------------------------------------------------------
  // icon_precision

  /** A path segment: its command and the `to_string` renderings of its
      numeric arguments. */
  datatype Segment = Segment(command: string, args: seq<string>)

  /** What `get_max_decimals_in_numbers` counts for one number: the length
      of the last piece of `to_string().split('.')`. */
  function DecimalsAsWritten(number: string): nat
  {
    var pieces := Split(number, '.');
    |pieces[|pieces| - 1]|
  }

  /** The number of digits after the decimal point; 0 when there is none. */
  function Decimals(number: string): nat
  {
    if '.' in number then DecimalsAsWritten(number) else 0
  }

  /** An integral number renders without a '.', so the code as written
      counts all of its digits as decimals: 123456 is reported as having
      precision 6 although it has none. */
  lemma IntegralNumberCountedAsDecimals()
    ensures DecimalsAsWritten("123456") == 6
    ensures Decimals("123456") == 0
  {
    assert "123456" == ['1'] + "23456";
    assert "23456" == ['2'] + "3456";
    assert "3456" == ['3'] + "456";
    assert "456" == ['4'] + "56";
    assert "56" == ['5'] + "6";
    assert "6" == ['6'] + "";
    assert Split("123456", '.') == ["123456"];
  }

  /** With a decimal point both counts agree: the digits after it. */
  lemma DecimalsAfterPoint(intPart: string, fracPart: string)
    requires '.' !in intPart && '.' !in fracPart
    ensures Decimals(intPart + "." + fracPart) == |fracPart|
    ensures DecimalsAsWritten(intPart + "." + fracPart) == |fracPart|
  {
    SplitNoSeparator(fracPart, '.');
    SplitAfterSep(intPart, fracPart, '.');
    assert (intPart + "." + fracPart)[|intPart|] == '.';
  }

  lemma {:induction false} SplitAfterSep(a: string, b: string, sep: char)
    requires sep !in a
    ensures |Split(a + [sep] + b, sep)| >= 2
    ensures Split(a + [sep] + b, sep)[|Split(a + [sep] + b, sep)| - 1]
            == Split(b, sep)[|Split(b, sep)| - 1]
  {
    if a == [] {
      assert a + [sep] + b == [sep] + b;
      assert ([sep] + b)[1..] == b;
    } else {
      assert a[0] != sep;
      assert (a + [sep] + b)[0] == a[0];
      assert (a + [sep] + b)[1..] == a[1..] + [sep] + b;
      SplitAfterSep(a[1..], b, sep);
    }
  }

  /** The largest count `get_max_decimals_in_numbers` finds among the
      numbers (0 for none), with the count as written: an integral number
      counts all of its digits. */
  function MaxDecimals(numbers: seq<string>): (r: nat)
    ensures forall k :: 0 <= k < |numbers| ==> DecimalsAsWritten(numbers[k]) <= r
    ensures numbers == [] ==> r == 0
    ensures numbers != [] ==> exists k :: 0 <= k < |numbers| && r == DecimalsAsWritten(numbers[k])
  {
    if numbers == [] then 0
    else
      var rest := MaxDecimals(numbers[1..]);
      var d := DecimalsAsWritten(numbers[0]);
      if d > rest then d else rest
  }

  method GetMaxDecimalsInNumbers(numbers: seq<string>) returns (maxDecimals: nat)
    ensures maxDecimals == MaxDecimals(numbers)
  {
    maxDecimals := 0;
    var i := 0;
    while i < |numbers|
      invariant 0 <= i <= |numbers|
      invariant forall k :: 0 <= k < i ==> DecimalsAsWritten(numbers[k]) <= maxDecimals
      invariant i == 0 ==> maxDecimals == 0
      invariant i > 0 ==> exists k :: 0 <= k < i && maxDecimals == DecimalsAsWritten(numbers[k])
    {
      var decimals := DecimalsAsWritten(numbers[i]);
      if decimals > maxDecimals {
        maxDecimals := decimals;
      }
      i := i + 1;
    }
    MaxDecimalsUnique(numbers, maxDecimals);
  }

  /** The bound and attainment properties determine the maximum. */
  lemma MaxDecimalsUnique(numbers: seq<string>, m: nat)
    requires forall k :: 0 <= k < |numbers| ==> DecimalsAsWritten(numbers[k]) <= m
    requires numbers == [] ==> m == 0
    requires numbers != [] ==> exists k :: 0 <= k < |numbers| && m == DecimalsAsWritten(numbers[k])
    ensures m == MaxDecimals(numbers)
  {
  }

  const MaxPrecision: nat := 5

  function PrecisionMessage(precision: nat): string
  {
    "Maximum precision should not be greater than 5," + " currently " + NatToString(precision)
  }

  /** A segment with a number counted as having more than 5 decimals. */
  predicate TooPrecise(segment: Segment)
  {
    MaxDecimals(segment.args) > MaxPrecision
  }

  /** The error reported for such a segment, naming its precision. */
  function PrecisionError(segment: Segment): SdkError
  {
    SdkError(PrecisionMessage(MaxDecimals(segment.args)), None, None)
  }

  /** `icon_precision` from segment `i` on: one error for the first segment
      whose precision exceeds 5, and nothing after it. */
  function PrecisionErrorsFrom(segments: seq<Segment>, i: nat): seq<SdkError>
    requires i <= |segments|
    decreases |segments| - i
  {
    if i == |segments| then []
    else if TooPrecise(segments[i]) then [PrecisionError(segments[i])]
    else PrecisionErrorsFrom(segments, i + 1)
  }

  function PrecisionErrors(segments: seq<Segment>): seq<SdkError>
  {
    PrecisionErrorsFrom(segments, 0)
  }

  method IconPrecision(segments: seq<Segment>) returns (errors: seq<SdkError>)
    ensures errors == PrecisionErrors(segments)
  {
    errors := [];
    var i := 0;
    while i < |segments|
      invariant 0 <= i <= |segments|
      invariant errors == []
      invariant PrecisionErrorsFrom(segments, 0) == PrecisionErrorsFrom(segments, i)
    {
      var maxPrecision := GetMaxDecimalsInNumbers(segments[i].args);
      if maxPrecision > MaxPrecision {
        errors := errors + [SdkError(PrecisionMessage(maxPrecision), None, None)];
        break;
      }
      i := i + 1;
    }
  }

  lemma {:induction false} PrecisionErrorsFromAtMostOne(segments: seq<Segment>, i: nat)
    requires i <= |segments|
    decreases |segments| - i
    ensures |PrecisionErrorsFrom(segments, i)| <= 1
  {
    if i < |segments| {
      if TooPrecise(segments[i]) {
        assert PrecisionErrorsFrom(segments, i) == [PrecisionError(segments[i])];
      } else {
        PrecisionErrorsFromAtMostOne(segments, i + 1);
      }
    }
  }

  lemma {:induction false} PrecisionErrorsFromEmpty(segments: seq<Segment>, i: nat)
    requires i <= |segments|
    decreases |segments| - i
    ensures PrecisionErrorsFrom(segments, i) == [] <==>
      forall j :: i <= j < |segments| ==> !TooPrecise(segments[j])
  {
    if i < |segments| {
      PrecisionErrorsFromEmpty(segments, i + 1);
    }
  }

  /** The error names the precision of the first segment above the limit. */
  lemma {:induction false} PrecisionErrorsFromFirst(segments: seq<Segment>, i: nat, j: nat)
    requires i <= j < |segments|
    requires TooPrecise(segments[j])
    requires forall j' :: i <= j' < j ==> !TooPrecise(segments[j'])
    decreases j - i
    ensures PrecisionErrorsFrom(segments, i) == [PrecisionError(segments[j])]
  {
    if i < j {
      PrecisionErrorsFromFirst(segments, i + 1, j);
    }
  }

  /** `icon_precision` reports at most one error, exactly when some segment
      has more than 5 decimals; the error names the precision of the first
      such segment. */
  lemma PrecisionAtMostOne(segments: seq<Segment>)
    ensures |PrecisionErrors(segments)| <= 1
    ensures PrecisionErrors(segments) == [] <==>
      forall j :: 0 <= j < |segments| ==> !TooPrecise(segments[j])
  {
    PrecisionErrorsFromAtMostOne(segments, 0);
    PrecisionErrorsFromEmpty(segments, 0);
  }

  /** As written, a segment whose only argument is the integral number
      123456 is reported with precision 6. */
  lemma IntegralArgumentReported(command: string)
    ensures PrecisionErrors([Segment(command, ["123456"])])
            == [SdkError(PrecisionMessage(6), None, None)]
  {
    IntegralNumberCountedAsDecimals();
    var segments := [Segment(command, ["123456"])];
    assert MaxDecimals(segments[0].args) == 6;
    assert TooPrecise(segments[0]);
    assert PrecisionErrorsFrom(segments, 0) == [PrecisionError(segments[0])];
  }


  // ---------------------------------------------------------------------
  // lint_path

  /** `lint_path`: format errors, then negative zeros, size, precision and
      centering. The size and centering rules work on the floating-point
      bounding box, so their results are inputs here. */
  method LintPath(path: string, sizeErrors: seq<SdkError>, segments: seq<Segment>,
                  centeredErrors: seq<SdkError>) returns (errors: seq<SdkError>)
    ensures errors == RenderAll(PathFormatErrors(path)) + RenderAll(NegativeZerosErrors(path))
                      + sizeErrors + PrecisionErrors(segments) + centeredErrors
  {
    errors := SdkPathFormat(path);
    var zeros := SdkNegativeZeros(path);
    errors := errors + zeros;
    errors := errors + sizeErrors;
    var precision := IconPrecision(segments);
    errors := errors + precision;
    errors := errors + centeredErrors;
  }
}
