/** The title shown on an icon of the grid
    (components/grid/src/item/title.rs): a localised title when the icon
    has one for the current language, else its own title. */
module Title {
  import opened Strings
  import opened Types

  /** The language part of a localisation id: the text before its first
      '-', or the whole id when it has none. */
  function LocLanguage(lang: string): (r: string)
    ensures '-' !in r
    ensures '-' !in lang ==> r == lang
  {
    if '-' in lang then Split(lang, '-')[0] else lang
  }

  /** The first localisation entry at or after `from` whose id is `id`. */
  function FirstExactFrom(loc: seq<LocalizedTitle>, id: string, from: nat): (r: Option<nat>)
    decreases |loc| - from
    ensures r.Some? ==> from <= r.value < |loc| && loc[r.value].lang == id
                        && forall j :: from <= j < r.value ==> loc[j].lang != id
    ensures r.None? ==> forall j :: from <= j < |loc| ==> loc[j].lang != id
  {
    if from >= |loc| then None
    else if loc[from].lang == id then Some(from)
    else FirstExactFrom(loc, id, from + 1)
  }

  /** The first entry at or after `from` whose language part is `language`. */
  function FirstLanguageFrom(loc: seq<LocalizedTitle>, language: string, from: nat): (r: Option<nat>)
    decreases |loc| - from
    ensures r.Some? ==> from <= r.value < |loc| && LocLanguage(loc[r.value].lang) == language
                        && forall j :: from <= j < r.value ==> LocLanguage(loc[j].lang) != language
    ensures r.None? ==> forall j :: from <= j < |loc| ==> LocLanguage(loc[j].lang) != language
  {
    if from >= |loc| then None
    else if LocLanguage(loc[from].lang) == language then Some(from)
    else FirstLanguageFrom(loc, language, from + 1)
  }

  /** The localised title for the language id `id`, whose language subtag
      parses to `currentLang` (`None` when the id does not parse). `None`
      where Rust panics: no entry has the exact id and the id did not
      parse, so `unwrap` fails. */
  function LocalizedTitleOf(icon: SimpleIcon, id: string, currentLang: Option<string>): Option<string>
  {
    if icon.aliases.None? || icon.aliases.value.loc.None? then Some(icon.title)
    else
      var loc := icon.aliases.value.loc.value;
      match FirstExactFrom(loc, id, 0)
      case Some(k) => Some(loc[k].title)
      case None =>
        match currentLang
        case None => None
        case Some(language) =>
          match FirstLanguageFrom(loc, language, 0)
          case Some(k) => Some(loc[k].title)
          case None => Some(icon.title)
  }

  method GetIconLocalizedTitle(icon: SimpleIcon, id: string, currentLang: Option<string>)
    returns (r: Option<string>)
    ensures r == LocalizedTitleOf(icon, id, currentLang)
  {
    if icon.aliases.Some? && icon.aliases.value.loc.Some? {
      var loc := icon.aliases.value.loc.value;
      var i := 0;
      while i < |loc|
        invariant 0 <= i <= |loc|
        invariant FirstExactFrom(loc, id, 0) == FirstExactFrom(loc, id, i)
      {
        if loc[i].lang == id {
          return Some(loc[i].title);
        }
        i := i + 1;
      }
      if currentLang.None? {
        return None;
      }
      var language := currentLang.value;
      i := 0;
      while i < |loc|
        invariant 0 <= i <= |loc|
        invariant FirstLanguageFrom(loc, language, 0) == FirstLanguageFrom(loc, language, i)
      {
        var locLanguage := loc[i].lang;
        if '-' in locLanguage {
          locLanguage := Split(locLanguage, '-')[0];
        }
        if locLanguage == language {
          return Some(loc[i].title);
        }
        i := i + 1;
      }
    }
    return Some(icon.title);
  }

  /** Without localisations the icon's own title is shown. */
  lemma NoLocalizationGivesTitle(icon: SimpleIcon, id: string, currentLang: Option<string>)
    requires icon.aliases.None? || icon.aliases.value.loc.None?
    ensures LocalizedTitleOf(icon, id, currentLang) == Some(icon.title)
  {
  }

  /** An entry with exactly the current id wins over every entry that only
      shares its language, wherever those come in the list. */
  lemma ExactMatchWins(icon: SimpleIcon, id: string, currentLang: Option<string>, k: nat)
    requires icon.aliases.Some? && icon.aliases.value.loc.Some?
    requires k < |icon.aliases.value.loc.value| && icon.aliases.value.loc.value[k].lang == id
    requires forall j :: 0 <= j < k ==> icon.aliases.value.loc.value[j].lang != id
    ensures LocalizedTitleOf(icon, id, currentLang) == Some(icon.aliases.value.loc.value[k].title)
  {
  }

  /** Without an exact entry, the first entry with the current language
      is shown; without one either, the icon's own title. */
  lemma LanguageMatchOtherwise(icon: SimpleIcon, id: string, language: string)
    requires icon.aliases.Some? && icon.aliases.value.loc.Some?
    requires forall j :: 0 <= j < |icon.aliases.value.loc.value| ==> icon.aliases.value.loc.value[j].lang != id
    ensures var loc := icon.aliases.value.loc.value;
      var r := LocalizedTitleOf(icon, id, Some(language));
      r.Some?
      && ((exists j :: 0 <= j < |loc| && LocLanguage(loc[j].lang) == language) ==>
            exists j :: 0 <= j < |loc| && LocLanguage(loc[j].lang) == language
                        && r.value == loc[j].title
                        && forall j' :: 0 <= j' < j ==> LocLanguage(loc[j'].lang) != language)
      && ((forall j :: 0 <= j < |loc| ==> LocLanguage(loc[j].lang) != language) ==> r.value == icon.title)
  {
    var loc := icon.aliases.value.loc.value;
    assert FirstExactFrom(loc, id, 0).None?;
  }
}
