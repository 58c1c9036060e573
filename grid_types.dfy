/** The icon grid's buffer (components/grid/types/src/lib.rs): the icons of
    the grid and the prefix of them loaded so far, one page at a time. */
module GridTypes {
  import opened Strings
  import opened Types
  import opened LayoutTypes
  import opened OrderTypes
  import Search

  function Min(a: nat, b: nat): nat { if a <= b then a else b }

  /** The first multiple of `perPage` above `len`. */
  function NextBoundary(len: nat, perPage: nat): nat
    requires perPage >= 1
  {
    len - len % perPage + perPage
  }

  lemma MulAtLeast(d: int, p: int)
    requires d >= 1 && p >= 1
    ensures d * p >= p
  {
    assert d * p == (d - 1) * p + p;
    assert (d - 1) * p >= 0;
  }

  /** Euclidean division has one quotient and one remainder. */
  lemma DivModUnique(x: nat, p: nat, q: nat, r: nat)
    requires p >= 1 && r < p && x == q * p + r
    ensures x / p == q && x % p == r
  {
    var q', r' := x / p, x % p;
    assert x == q' * p + r';
    if q > q' {
      MulAtLeast(q - q', p);
      assert false;
    }
    if q < q' {
      MulAtLeast(q' - q, p);
      assert false;
    }
  }

  /** The next boundary is a multiple of `perPage` above `len`. */
  lemma BoundaryIsMultiple(len: nat, perPage: nat)
    requires perPage >= 1
    ensures len < NextBoundary(len, perPage)
    ensures NextBoundary(len, perPage) % perPage == 0
  {
    var a := len / perPage;
    assert len == a * perPage + len % perPage;
    assert NextBoundary(len, perPage) == (a + 1) * perPage;
    DivModUnique(NextBoundary(len, perPage), perPage, a + 1, 0);
  }

  /** A multiple of `perPage` above `len` is at least the next boundary. */
  lemma NextBoundaryFirst(len: nat, perPage: nat, m: nat)
    requires perPage >= 1 && len < m && m % perPage == 0
    ensures NextBoundary(len, perPage) <= m
  {
    var a, q := len / perPage, m / perPage;
    assert len == a * perPage + len % perPage;
    assert m == q * perPage;
    if q <= a {
      if q < a {
        MulAtLeast(a - q, perPage);
      }
      assert false;
    }
    assert NextBoundary(len, perPage) == (a + 1) * perPage;
    if q > a + 1 {
      MulAtLeast(q - (a + 1), perPage);
      assert (q - (a + 1)) * perPage == q * perPage - (a + 1) * perPage;
    }
  }

  /** How many icons one load adds: up to the next page boundary, capped
      by the icons not yet loaded. */
  function Added(len: nat, total: nat, perPage: nat): (k: nat)
    requires perPage >= 1
    ensures len < total ==> 1 <= k <= perPage
    ensures len >= total ==> k == 0
  {
    if len >= total then 0 else Min(perPage - len % perPage, total - len)
  }

  /** The loaded icons after `load_next_icons`, as a value. */
  function NextLoaded(loaded: seq<SimpleIcon>, icons: seq<SimpleIcon>, perPage: nat): seq<SimpleIcon>
    requires perPage >= 1
  {
    var len := |loaded|;
    loaded + icons[Min(len, |icons|)..Min(len, |icons|) + Added(len, |icons|, perPage)]
  }

  class IconsGrid {
    var loadedIcons: seq<SimpleIcon>
    var icons: seq<SimpleIcon>

    /** `IconsGrid::new`. */
    constructor (searchValue: string, orderMode: OrderModeVariant, layout: Layout,
                 gridIcons: seq<SimpleIcon>, allIcons: seq<SimpleIcon>, results: seq<nat>)
      requires searchValue != "" ==> Search.ValidResults(allIcons, results)
      ensures (icons, loadedIcons) ==
        InitialIconsOf(searchValue, IconsPerPage(layout), gridIcons, allIcons, results)
    {
      var all, loaded := InitialIcons(searchValue, orderMode, layout, gridIcons, allIcons, results);
      icons := all;
      loadedIcons := loaded;
    }

    /** `load_next_icons`: appends the next icons of the grid up to the
        next page boundary or the end. */
    method LoadNextIcons(layout: Layout)
      modifies this
      ensures icons == old(icons)
      ensures loadedIcons == NextLoaded(old(loadedIcons), icons, IconsPerPage(layout))
    {
      var perPage := IconsPerPage(layout);
      var total := |icons|;
      ghost var start := |loadedIcons|;
      ghost var before := loadedIcons;
      var i := |loadedIcons|;
      while i < total
        invariant icons == old(icons)
        invariant start <= i && |loadedIcons| == i
        invariant start >= total ==> loadedIcons == before
        invariant start < total ==> i <= total && loadedIcons == before + icons[start..i]
        invariant i < NextBoundary(start, perPage)
      {
        var len := |loadedIcons|;
        if len == total {
          break;
        }
        assert icons[start..i + 1] == icons[start..i] + [icons[i]];
        loadedIcons := loadedIcons + [icons[i]];
        if (len + 1) % perPage == 0 {
          NextBoundaryFirst(start, perPage, len + 1);
          break;
        }
        BoundaryIsMultiple(start, perPage);
        i := i + 1;
      }
    }
  }

  /** `initial_icons_from_search_value_order_mode_and_layout`. Without a
      search the source sorts a copy of the icons and throws it away, so
      the order mode changes nothing; with a search, the search decides. */
  method InitialIcons(searchValue: string, orderMode: OrderModeVariant, layout: Layout,
                      gridIcons: seq<SimpleIcon>, allIcons: seq<SimpleIcon>, results: seq<nat>)
    returns (all: seq<SimpleIcon>, loaded: seq<SimpleIcon>)
    requires searchValue != "" ==> Search.ValidResults(allIcons, results)
    ensures (all, loaded) == InitialIconsOf(searchValue, IconsPerPage(layout), gridIcons, allIcons, results)
  {
    var perPage := IconsPerPage(layout);
    if searchValue == "" {
      all := gridIcons;
      loaded := gridIcons[..Min(perPage, |gridIcons|)];
    } else {
      all, loaded := Search.SearchIconsAndReturnsFirstPage(allIcons, results, perPage);
    }
  }

  function InitialIconsOf(searchValue: string, perPage: nat, gridIcons: seq<SimpleIcon>,
                          allIcons: seq<SimpleIcon>, results: seq<nat>): (seq<SimpleIcon>, seq<SimpleIcon>)
    requires searchValue != "" ==> Search.ValidResults(allIcons, results)
  {
    if searchValue == "" then (gridIcons, gridIcons[..Min(perPage, |gridIcons|)])
    else Search.FirstPage(allIcons, results, perPage)
  }

  /** Without a search the grid holds the given icons unchanged and the
      first page of them is loaded; with one, it holds every result in
      order and the first page of them is loaded. Either way the loaded
      icons are a prefix of the grid and at most a page long. */
  lemma InitialIconsFirstPage(searchValue: string, layout: Layout, gridIcons: seq<SimpleIcon>,
                              allIcons: seq<SimpleIcon>, results: seq<nat>)
    requires searchValue != "" ==> Search.ValidResults(allIcons, results)
    ensures var perPage := IconsPerPage(layout);
      var (all, loaded) := InitialIconsOf(searchValue, perPage, gridIcons, allIcons, results);
      (searchValue == "" ==> all == gridIcons)
      && (searchValue != "" ==> all == Search.IconsOf(allIcons, results))
      && loaded == all[..Min(perPage, |all|)]
  {
    if searchValue != "" {
      Search.FirstPageSplitsResults(allIcons, results, IconsPerPage(layout));
    }
  }

  /** Loading keeps the loaded icons a prefix of the grid, provided they
      were one before. */
  lemma {:induction false} LoadKeepsPrefix(loaded: seq<SimpleIcon>, icons: seq<SimpleIcon>, perPage: nat)
    requires perPage >= 1 && |loaded| <= |icons| && loaded == icons[..|loaded|]
    ensures var next := NextLoaded(loaded, icons, perPage);
      |next| <= |icons| && next == icons[..|next|]
  {
    var next := NextLoaded(loaded, icons, perPage);
    var k := Added(|loaded|, |icons|, perPage);
    assert |loaded| + k <= |icons|;
    assert next == icons[..|loaded|] + icons[|loaded|..|loaded| + k];
    assert icons[..|loaded| + k] == icons[..|loaded|] + icons[|loaded|..|loaded| + k];
  }

  /** A load adds `perPage - len % perPage` icons, or the rest when fewer
      remain, and nothing when all are loaded; so it stops on a page
      boundary or at the end of the grid. */
  lemma LoadStopsAtBoundary(loaded: seq<SimpleIcon>, icons: seq<SimpleIcon>, perPage: nat)
    requires perPage >= 1
    ensures var next := NextLoaded(loaded, icons, perPage);
      var len := |loaded|;
      (len >= |icons| ==> next == loaded)
      && (len < |icons| ==>
            |next| == len + Min(perPage - len % perPage, |icons| - len)
            && (|next| % perPage == 0 || |next| == |icons|))
  {
    BoundaryIsMultiple(|loaded|, perPage);
  }

  /** Loading twice from a page boundary loads two pages. */
  lemma {:induction false} LoadTwice(loaded: seq<SimpleIcon>, icons: seq<SimpleIcon>, perPage: nat)
    requires perPage >= 1 && |loaded| % perPage == 0 && |loaded| + 2 * perPage <= |icons|
    ensures |NextLoaded(NextLoaded(loaded, icons, perPage), icons, perPage)| == |loaded| + 2 * perPage
  {
    var once := NextLoaded(loaded, icons, perPage);
    assert |once| == |loaded| + perPage;
    BoundaryIsMultiple(|loaded|, perPage);
  }
}
