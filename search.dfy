/** Paging of a search result (components/controls/search/src/lib.rs).
    The fuzzy search itself is a foreign library: its outcome is given as
    the sequence of the `order_alpha` indices it returns, best match first,
    and the static icon array `ICONS` as a sequence. */
module Search {
  import opened Strings
  import opened Types

  /** Every result indexes the icon array (the source panics otherwise). */
  predicate ValidResults(icons: seq<SimpleIcon>, results: seq<nat>)
  {
    forall k :: 0 <= k < |results| ==> results[k] < |icons|
  }

  /** The icons the results name, in result order. */
  function IconsOf(icons: seq<SimpleIcon>, results: seq<nat>): (r: seq<SimpleIcon>)
    requires ValidResults(icons, results)
    ensures |r| == |results|
    ensures forall k :: 0 <= k < |results| ==> r[k] == icons[results[k]]
  {
    seq(|results|, k requires 0 <= k < |results| => icons[results[k]])
  }

  lemma IconsOfSlice(icons: seq<SimpleIcon>, results: seq<nat>, a: nat, b: nat)
    requires ValidResults(icons, results) && a <= b <= |results|
    ensures IconsOf(icons, results)[a..b] == IconsOf(icons, results[a..b])
  {
  }

  /** How many results the first page takes: a page of `perPage`, but at
      least one result, since the length is tested after each push. */
  function PageLength(length: nat, perPage: nat): (n: nat)
    ensures n <= length
    ensures length > 0 ==> n >= 1
    ensures perPage >= 1 ==> n == Min(length, perPage)
  {
    if perPage == 0 then Min(length, 1) else Min(length, perPage)
  }

  function Min(a: nat, b: nat): nat { if a <= b then a else b }

  /** `new_displayed_icons_from_search_result`. */
  method NewDisplayedIcons(icons: seq<SimpleIcon>, results: seq<nat>, perPage: nat)
    returns (displayed: seq<SimpleIcon>)
    requires ValidResults(icons, results)
    ensures displayed == IconsOf(icons, results[..PageLength(|results|, perPage)])
  {
    displayed := [];
    var i := 0;
    while i < |results|
      invariant 0 <= i <= |results|
      invariant i <= PageLength(|results|, perPage)
      invariant displayed == IconsOf(icons, results[..i])
      invariant i == 0 || i < perPage
    {
      assert results[..i + 1] == results[..i] + [results[i]];
      displayed := displayed + [icons[results[i]]];
      if |displayed| >= perPage {
        assert i + 1 == PageLength(|results|, perPage);
        return;
      }
      i := i + 1;
    }
    assert results[..i] == results;
  }

  /** `extend_new_icons_with_search_result`: the results past the first
      page are appended, and only when there are more than a page. */
  method ExtendNewIcons(icons: seq<SimpleIcon>, results: seq<nat>, newIcons: seq<SimpleIcon>, perPage: nat)
    returns (extended: seq<SimpleIcon>)
    requires ValidResults(icons, results)
    ensures |results| > perPage ==> extended == newIcons + IconsOf(icons, results[perPage..])
    ensures |results| <= perPage ==> extended == newIcons
  {
    extended := newIcons;
    if |results| > perPage {
      for i := perPage to |results|
        invariant extended == newIcons + IconsOf(icons, results[perPage..i])
      {
        assert results[perPage..i + 1] == results[perPage..i] + [results[i]];
        extended := extended + [icons[results[i]]];
      }
      assert results[perPage..|results|] == results[perPage..];
    }
  }

  /** `search_icons_and_returns_first_page`: the whole list of matches and
      the page shown first. */
  method SearchIconsAndReturnsFirstPage(icons: seq<SimpleIcon>, results: seq<nat>, perPage: nat)
    returns (all: seq<SimpleIcon>, displayed: seq<SimpleIcon>)
    requires ValidResults(icons, results)
    ensures (all, displayed) == FirstPage(icons, results, perPage)
  {
    displayed := NewDisplayedIcons(icons, results, perPage);
    all := ExtendNewIcons(icons, results, displayed, perPage);
    var (all', displayed') := FirstPage(icons, results, perPage);
    assert displayed == displayed';
    assert all == all';
  }

  /** The outcome of a search, as a value: the page, then the results past
      `perPage`. */
  function FirstPage(icons: seq<SimpleIcon>, results: seq<nat>, perPage: nat)
    : (seq<SimpleIcon>, seq<SimpleIcon>)
    requires ValidResults(icons, results)
  {
    var displayed := IconsOf(icons, results[..PageLength(|results|, perPage)]);
    var rest := if |results| > perPage then IconsOf(icons, results[perPage..]) else [];
    (displayed + rest, displayed)
  }

  /** With a page of at least one icon, the whole list is every result's
      icon in result order, and the page shown is its first
      `min(length, perPage)` icons. */
  lemma FirstPageSplitsResults(icons: seq<SimpleIcon>, results: seq<nat>, perPage: nat)
    requires ValidResults(icons, results) && perPage >= 1
    ensures var (all, displayed) := FirstPage(icons, results, perPage);
      all == IconsOf(icons, results)
      && displayed == all[..Min(|results|, perPage)]
  {
    var n := Min(|results|, perPage);
    IconsOfSlice(icons, results, 0, n);
    assert results[..n] == results[0..n];
    if |results| > perPage {
      IconsOfSlice(icons, results, perPage, |results|);
      assert results[perPage..] == results[perPage..|results|];
      var whole := IconsOf(icons, results);
      assert whole == whole[..n] + whole[n..];
    } else {
      assert results[..n] == results;
    }
  }

  /** With a page size of zero the first result is both shown and listed
      again at the head of the full list. */
  lemma ZeroPageRepeatsFirst(icons: seq<SimpleIcon>, results: seq<nat>)
    requires ValidResults(icons, results) && |results| >= 1
    ensures var (all, displayed) := FirstPage(icons, results, 0);
      displayed == [icons[results[0]]]
      && all == [icons[results[0]]] + IconsOf(icons, results)
  {
    assert results[0..] == results;
  }
}
