/** Which modal is open (components/src/modal.rs), its name in the `modal`
    URL parameter, and the setters that keep the two in step. */
module Modal {
  import opened Strings

  datatype ModalOpen = Extensions | Languages | Icon

  /** `Display`. */
  function ModalToString(m: ModalOpen): string
  {
    match m
    case Extensions => "extensions"
    case Languages => "languages"
    case Icon => "icon"
  }

  /** `FromStr`: the three names, and an error for any other text. */
  function ModalFromStr(s: string): (r: Option<ModalOpen>)
    ensures r.Some? <==> s == "extensions" || s == "languages" || s == "icon"
  {
    if s == "extensions" then Some(Extensions)
    else if s == "languages" then Some(Languages)
    else if s == "icon" then Some(Icon)
    else None
  }

  /** Each modal is read back from its name, and a text that parses is the
      name of what it parses to. */
  lemma ModalRoundTrip(m: ModalOpen, s: string)
    ensures ModalFromStr(ModalToString(m)) == Some(m)
    ensures ModalFromStr(s).Some? ==> ModalToString(ModalFromStr(s).value) == s
  {
  }

  /** The three names are distinct and none is empty. */
  lemma ModalNamesDistinct(m: ModalOpen, n: ModalOpen)
    ensures ModalToString(m) == ModalToString(n) ==> m == n
    ensures ModalToString(m) != ""
  {
    ModalRoundTrip(m, "");
    ModalRoundTrip(n, "");
  }

  /** `provide_modal_open_context`: the modal named by the URL parameter,
      none when it is missing or names no modal. */
  function ModalFromParam(param: Option<string>): (r: Option<ModalOpen>)
    ensures param.None? ==> r.None?
    ensures param.Some? ==> r == ModalFromStr(param.value)
  {
    match param
    case None => None
    case Some(v) => ModalFromStr(v)
  }

  /** The URL parameter after `Url::params::update`: an empty value removes
      it. */
  function UpdatedParam(v: string): (r: Option<string>)
    ensures r.None? <==> v == ""
    ensures r.Some? ==> r.value == v
  {
    if v == "" then None else Some(v)
  }

  /** `ModalOpenSignal`: the open modal and the `modal` URL parameter. */
  class ModalOpenSignal {
    var open: Option<ModalOpen>
    var modalParam: Option<string>

    /** A reload opens the modal that is open now. */
    predicate InStep()
      reads this
    {
      ModalFromParam(modalParam) == open
    }

    constructor (param: Option<string>)
      ensures modalParam == param && open == ModalFromParam(param)
      ensures InStep()
    {
      modalParam := param;
      open := ModalFromParam(param);
    }

    /** `set_none`. */
    method SetNone()
      modifies this
      ensures open.None? && modalParam == UpdatedParam("")
      ensures InStep()
    {
      open := None;
      modalParam := UpdatedParam("");
    }

    /** `set_extensions`, `set_languages` and `set_icon`. */
    method Set(m: ModalOpen)
      modifies this
      ensures open == Some(m) && modalParam == UpdatedParam(ModalToString(m))
      ensures InStep()
    {
      open := Some(m);
      modalParam := UpdatedParam(ModalToString(m));
      ModalNamesDistinct(m, m);
      ModalRoundTrip(m, "");
    }
  }
}
