/** Colour helpers of the preview generator
    (components/preview-generator/src/helpers.rs). */
module PreviewHelpers {
  import opened Strings
  import Sdk

  /** The shape `is_valid_hex_color` accepts: three or six hex digits, in
      either case. The length test counts bytes in Rust; a string of hex
      digits is ASCII, so counting characters gives the same verdict. */
  predicate ValidHexColor(value: string)
  {
    (|value| == 6 || |value| == 3) && forall i :: 0 <= i < |value| ==> IsHexDigit(value[i])
  }

  method IsValidHexColor(value: string) returns (valid: bool)
    ensures valid <==> ValidHexColor(value)
  {
    if |value| != 6 && |value| != 3 {
      return false;
    }
    var i := 0;
    while i < |value|
      invariant 0 <= i <= |value|
      invariant forall j :: 0 <= j < i ==> IsHexDigit(value[j])
    {
      if !IsHexDigit(value[i]) {
        return false;
      }
      i := i + 1;
    }
    return true;
  }

  /** A value holding '#' is never a valid colour. */
  lemma HashNeverValid(value: string)
    requires '#' in value
    ensures !ValidHexColor(value)
  {
    var i :| 0 <= i < |value| && value[i] == '#';
    assert !IsHexDigit(value[i]);
  }

  /** Upper- and lower-case digits are both accepted: case never changes
      the verdict. */
  lemma ValidHexColorIgnoresCase(value: string)
    ensures ValidHexColor(Upper(value)) <==> ValidHexColor(value)
    ensures ValidHexColor(Lower(value)) <==> ValidHexColor(value)
  {
    assert forall i :: 0 <= i < |value| ==>
      (IsHexDigit(Upper(value)[i]) <==> IsHexDigit(value[i]));
    assert forall i :: 0 <= i < |value| ==>
      (IsHexDigit(Lower(value)[i]) <==> IsHexDigit(value[i]));
  }

  /** A valid colour holds no '#', so normalising it never panics. */
  lemma ValidHexColorNormalizes(hex: string)
    requires ValidHexColor(hex)
    ensures Sdk.NormalizedColor(hex).Some?
  {
    if '#' in hex {
      HashNeverValid(hex);
    }
    assert IsAscii(hex) by {
      forall i | 0 <= i < |hex| ensures hex[i] < 128 as char {
        assert IsHexDigit(hex[i]);
      }
    }
    Sdk.WithoutAbsent(hex, '#');
    Sdk.ReplaceHashIsWithout(hex);
    Sdk.NormalizedColorCases(hex);
  }

  /** `contrast_color_for`: "black" for an invalid colour; otherwise black
      or white as the normalised colour is light or not. The lightness test
      is floating-point colour arithmetic outside this model, so it is a
      parameter. */
  function ContrastColorFor(hex: string, isRelativelyLight: string -> bool): (r: string)
    ensures r == "black" || r == "white"
    ensures !ValidHexColor(hex) ==> r == "black"
    ensures ValidHexColor(hex) ==>
      Sdk.NormalizedColor(hex).Some?
      && (r == "black" <==> isRelativelyLight(Sdk.NormalizedColor(hex).value))
  {
    if !ValidHexColor(hex) then "black"
    else
      ValidHexColorNormalizes(hex);
      var normalized := Sdk.NormalizedColor(hex).value;
      if isRelativelyLight(normalized) then "black" else "white"
  }
}
