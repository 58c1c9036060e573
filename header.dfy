/** The open/closed state of the page header (components/src/header/mod.rs):
    the mobile menu, the extensions table and the languages list, of which
    at most one of the last two is open. */
module Header {
  class HeaderState {
    var menuOpen: bool
    var extensionsOpen: bool
    var languagesOpen: bool

    /** The extensions table and the languages list are never open together. */
    predicate Valid()
      reads this
    {
      !(extensionsOpen && languagesOpen)
    }

    /** `HeaderState::default`: everything closed. */
    constructor ()
      ensures !menuOpen && !extensionsOpen && !languagesOpen
      ensures Valid()
    {
      menuOpen, extensionsOpen, languagesOpen := false, false, false;
    }

    function Current(): State
      reads this
    {
      State(menuOpen, extensionsOpen, languagesOpen)
    }

    /** `toggle_menu`: flips the menu and closes both panels. */
    method ToggleMenu()
      modifies this
      ensures Current() == ToggleMenuOf(old(Current()))
      ensures Valid()
    {
      menuOpen := !menuOpen;
      languagesOpen := false;
      extensionsOpen := false;
    }

    /** `toggle_extensions`: flips the extensions table; opening it closes
        the languages list. The menu is untouched. */
    method ToggleExtensions()
      modifies this
      ensures Current() == ToggleExtensionsOf(old(Current()))
      ensures Valid()
    {
      extensionsOpen := !extensionsOpen;
      if extensionsOpen && languagesOpen {
        languagesOpen := false;
      }
    }

    /** `toggle_languages`: the same with the two panels swapped. */
    method ToggleLanguages()
      modifies this
      ensures Current() == ToggleLanguagesOf(old(Current()))
      ensures Valid()
    {
      languagesOpen := !languagesOpen;
      if languagesOpen && extensionsOpen {
        extensionsOpen := false;
      }
    }
  }

  /** The state as a value; the functions below specify the toggles. */
  datatype State = State(menu: bool, extensions: bool, languages: bool)

  function ToggleMenuOf(s: State): (r: State)
    ensures r.menu == !s.menu && !r.extensions && !r.languages
  {
    State(!s.menu, false, false)
  }

  function ToggleExtensionsOf(s: State): (r: State)
    ensures r.menu == s.menu && r.extensions == !s.extensions
    ensures !(r.extensions && r.languages)
    ensures r.languages == (s.languages && s.extensions)
  {
    var e := !s.extensions;
    State(s.menu, e, if e && s.languages then false else s.languages)
  }

  function ToggleLanguagesOf(s: State): (r: State)
    ensures r.menu == s.menu && r.languages == !s.languages
    ensures !(r.extensions && r.languages)
    ensures r.extensions == (s.extensions && s.languages)
  {
    var l := !s.languages;
    State(s.menu, if l && s.extensions then false else s.extensions, l)
  }

  /** Toggling the extensions table twice restores it and the menu, and
      leaves the languages list closed: a languages list that was open is
      not reopened. */
  lemma ToggleExtensionsTwice(s: State)
    requires !(s.extensions && s.languages)
    ensures var t := ToggleExtensionsOf(ToggleExtensionsOf(s));
      t.menu == s.menu && t.extensions == s.extensions && !t.languages
  {
  }

  /** Opening one panel after the other leaves only the last one open. */
  lemma OpenBothKeepsLast(s: State)
    requires !s.extensions && !s.languages
    ensures var t := ToggleLanguagesOf(ToggleExtensionsOf(s));
      t.languages && !t.extensions
    ensures var t := ToggleExtensionsOf(ToggleLanguagesOf(s));
      t.extensions && !t.languages
  {
  }
}
