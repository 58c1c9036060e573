/** The file type the download buttons produce
    (components/src/controls/download/mod.rs): its names, and where the
    initial choice comes from. */
module Download {
  import opened Strings

  datatype DownloadType = SVG | PNG

  const DefaultDownloadType: DownloadType := SVG

  /** `FromStr`: "png" is PNG and every other text is SVG; it never fails. */
  function DownloadTypeFromStr(s: string): (r: Option<DownloadType>)
    ensures r.Some?
    ensures r.value == PNG <==> s == "png"
  {
    if s == "png" then Some(PNG) else Some(SVG)
  }

  /** `Display`. */
  function DownloadTypeToString(d: DownloadType): string
  {
    match d
    case SVG => "svg"
    case PNG => "png"
  }

  /** Each type is read back from its name; the names differ. */
  lemma DownloadTypeRoundTrip(d: DownloadType, e: DownloadType)
    ensures DownloadTypeFromStr(DownloadTypeToString(d)) == Some(d)
    ensures DownloadTypeToString(d) == DownloadTypeToString(e) ==> d == e
  {
  }

  /** `initial_download_type` as a value: the URL parameter when there is
      one, else the stored type, else the default. */
  function InitialDownloadTypeOf(param: Option<string>, stored: Option<string>): (r: DownloadType)
    ensures param.Some? ==> r == DownloadTypeFromStr(param.value).value
    ensures param.None? && stored.Some? ==> r == DownloadTypeFromStr(stored.value).value
    ensures param.None? && stored.None? ==> r == DefaultDownloadType
  {
    match param
    case Some(v) => DownloadTypeFromStr(v).value
    case None =>
      match stored
      case Some(v) => DownloadTypeFromStr(v).value
      case None => DefaultDownloadType
  }

  /** The stored download type (local storage, key `download-type`). */
  class DownloadStorage {
    var stored: Option<string>

    constructor (stored: Option<string>)
      ensures this.stored == stored
    {
      this.stored := stored;
    }

    /** `initial_download_type`: a URL parameter wins and is saved; without
        one the stored type is used, and storage is left alone. */
    method InitialDownloadType(param: Option<string>) returns (d: DownloadType)
      modifies this
      ensures d == InitialDownloadTypeOf(param, old(stored))
      ensures param.Some? ==> stored == Some(DownloadTypeToString(d))
      ensures param.None? ==> stored == old(stored)
    {
      match param {
        case Some(v) =>
          d := DownloadTypeFromStr(v).value;
          stored := Some(DownloadTypeToString(d));
        case None =>
          match stored {
            case Some(v) => d := DownloadTypeFromStr(v).value;
            case None => d := DefaultDownloadType;
          }
      }
    }
  }

  /** After a URL parameter has been saved, the next visit without one
      starts with the same type. */
  lemma SavedTypeIsKept(param: string, stored: Option<string>)
    ensures var d := InitialDownloadTypeOf(Some(param), stored);
      InitialDownloadTypeOf(None, Some(DownloadTypeToString(d))) == d
  {
    DownloadTypeRoundTrip(InitialDownloadTypeOf(Some(param), stored), SVG);
  }
}
