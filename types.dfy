/** The icon record shared by the website crates (libs/types/src/lib.rs)
    and its flat list of aliases. */
module Types {
  import opened Strings

  /** A localised title: `(language id, title)`. */
  datatype LocalizedTitle = LocalizedTitle(lang: string, title: string)

  datatype Aliases = Aliases(aka: Option<seq<string>>, dup: Option<seq<string>>,
                             loc: Option<seq<LocalizedTitle>>)

  /** The fields of a Simple Icon the modelled code reads. */
  datatype SimpleIcon = SimpleIcon(slug: string, title: string, hex: string,
                                   aliases: Option<Aliases>, orderAlpha: nat, orderColor: nat)

  function OrEmpty<T>(o: Option<seq<T>>): seq<T>
  {
    match o
    case None => []
    case Some(s) => s
  }

  /** The titles of a localisation list, without their language ids. */
  function LocTitles(loc: seq<LocalizedTitle>): (r: seq<string>)
    ensures |r| == |loc|
    ensures forall k :: 0 <= k < |loc| ==> r[k] == loc[k].title
  {
    seq(|loc|, k requires 0 <= k < |loc| => loc[k].title)
  }

  method PlainAliases(icon: SimpleIcon) returns (aliases: seq<string>)
    ensures aliases == PlainAliasesOf(icon)
  {
    aliases := [];
    if icon.aliases.Some? {
      var a := icon.aliases.value;
      if a.aka.Some? {
        aliases := aliases + a.aka.value;
      }
      if a.dup.Some? {
        aliases := aliases + a.dup.value;
      }
      if a.loc.Some? {
        var loc := a.loc.value;
        var i := 0;
        while i < |loc|
          invariant 0 <= i <= |loc|
          invariant aliases == OrEmpty(a.aka) + OrEmpty(a.dup) + LocTitles(loc[..i])
        {
          assert LocTitles(loc[..i + 1]) == LocTitles(loc[..i]) + [loc[i].title];
          aliases := aliases + [loc[i].title];
          i := i + 1;
        }
        assert loc[..|loc|] == loc;
      }
    }
  }

  /** What `plain_aliases` returns, as a value. */
  function PlainAliasesOf(icon: SimpleIcon): seq<string>
  {
    match icon.aliases
    case None => []
    case Some(a) => OrEmpty(a.aka) + OrEmpty(a.dup) + LocTitles(OrEmpty(a.loc))
  }

  /** The list holds every alias part in turn: first the "also known as"
      names, then the duplicates, then the localised titles (their values
      only); its length is the sum of the three. */
  lemma PlainAliasesLayout(icon: SimpleIcon)
    requires icon.aliases.Some?
    ensures var a := icon.aliases.value;
      var r := PlainAliasesOf(icon);
      var n1, n2 := |OrEmpty(a.aka)|, |OrEmpty(a.dup)|;
      |r| == n1 + n2 + |OrEmpty(a.loc)|
      && (forall k :: 0 <= k < n1 ==> r[k] == OrEmpty(a.aka)[k])
      && (forall k :: 0 <= k < n2 ==> r[n1 + k] == OrEmpty(a.dup)[k])
      && (forall k :: 0 <= k < |OrEmpty(a.loc)| ==> r[n1 + n2 + k] == OrEmpty(a.loc)[k].title)
  {
  }
}
