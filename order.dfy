/** The order control (components/controls/src/order.rs): the order mode
    read back from local storage, `set_order_mode` with its effect on the
    stored mode and on the grid, and the rules of the four sort buttons. */
module OrderControl {
  import opened Strings
  import opened Types
  import opened LayoutTypes
  import opened OrderTypes
  import opened GridTypes

  /** `get_order_mode_from_localstorage`: the stored text parsed, if any. */
  function StoredOrderMode(stored: Option<string>): (r: Option<OrderMode>)
    ensures r.Some? <==> stored.Some?
  {
    match stored
    case None => None
    case Some(value) => OrderModeFromStr(value)
  }

  /** `get_order_mode_from_localstorage_and_search_value`: the stored mode
      or the default, with search match as the current mode whenever a
      search is under way. */
  function OrderModeFromStorageAndSearch(stored: Option<string>, searchValue: string): (r: OrderMode)
    ensures r.favorite == (if stored.Some? then VariantFromStr(stored.value) else DefaultVariant)
    ensures searchValue != "" ==> r.current == SearchMatch
    ensures searchValue == "" ==> r.current == r.favorite
  {
    var mode := match StoredOrderMode(stored)
      case None => DefaultOrderMode
      case Some(m) => m;
    if searchValue != "" then mode.(current := SearchMatch) else mode
  }

  /** A mode written by `set_order_mode` is read back as both the favourite
      and the current mode at the next start without a search, and as the
      favourite behind search match with one. */
  lemma StoredModeReadBack(v: OrderModeVariant, searchValue: string)
    requires v != SearchMatch
    ensures OrderModeFromStorageAndSearch(Some(VariantToString(v)), searchValue).favorite == v
    ensures searchValue == "" ==>
      OrderModeFromStorageAndSearch(Some(VariantToString(v)), searchValue) == OrderMode(v, v)
  {
    VariantRoundTrip(v, "");
  }

  /** Re-sorting the grid during a search, as written: the icons and the
      loaded icons are each sorted on their own. */
  function ResortAsWritten(mode: OrderModeVariant, icons: seq<SimpleIcon>, loaded: seq<SimpleIcon>,
                           shuffle: seq<SimpleIcon> -> seq<SimpleIcon>): (seq<SimpleIcon>, seq<SimpleIcon>)
    requires IsShuffle(shuffle)
  {
    (SortIcons(mode, icons, shuffle), SortIcons(mode, loaded, shuffle))
  }

  lemma MultisetCountTwo(s: seq<SimpleIcon>, i: nat, j: nat)
    requires i < j < |s| && s[i] == s[j]
    ensures multiset(s)[s[i]] >= 2
  {
    assert s == s[..j] + [s[j]] + s[j + 1..];
    assert s[i] in s[..j];
  }

  /** In an ascending sequence holding one icon that sorts before every
      other, that icon is not last. */
  lemma UniqueMinimumNotLast(s: seq<SimpleIcon>, z: SimpleIcon)
    requires |s| >= 2 && multiset(s)[z] == 1
    requires forall i, j :: 0 <= i < j < |s| ==> s[i].orderAlpha <= s[j].orderAlpha
    requires forall k :: 0 <= k < |s| && s[k] != z ==> s[k].orderAlpha > z.orderAlpha
    ensures s[|s| - 1] != z
  {
    if s[|s| - 1] == z {
      assert s[0].orderAlpha <= z.orderAlpha;
      MultisetCountTwo(s, 0, |s| - 1);
    }
  }

  /** The next load after sorting `icons` (the page and `z`) and `loaded`
      (the page) on their own. */
  lemma NextLoadAfterSeparateSorts(icons: seq<SimpleIcon>, loaded: seq<SimpleIcon>,
                                   page: seq<SimpleIcon>, z: SimpleIcon, perPage: nat)
    requires perPage >= 1 && |page| == perPage && z !in page
    requires multiset(icons) == multiset(page) + multiset{z} && multiset(loaded) == multiset(page)
    requires |icons| == perPage + 1 && |loaded| == perPage
    requires forall i, j :: 0 <= i < j < |icons| ==> icons[i].orderAlpha <= icons[j].orderAlpha
    requires forall k :: 0 <= k < |page| ==> page[k].orderAlpha > z.orderAlpha
    ensures var next := NextLoaded(loaded, icons, perPage);
      z in icons && z !in next && |next| == perPage + 1 && next[perPage] in loaded
  {
    assert multiset(icons)[z] == 1;
    forall k | 0 <= k < |icons| && icons[k] != z
      ensures icons[k].orderAlpha > z.orderAlpha
    {
      assert icons[k] in multiset(page) + multiset{z};
      assert icons[k] in page;
    }
    UniqueMinimumNotLast(icons, z);
    assert NextLoaded(loaded, icons, perPage) == loaded + [icons[perPage]] by {
      assert |loaded| % perPage == 0;
    }
    assert icons[perPage] in multiset(page) + multiset{z};
    assert icons[perPage] in multiset(loaded);
    assert z in multiset(icons);
    assert z !in multiset(loaded);
  }

  /** The loaded icons sorted on their own are no longer the first page of
      the sorted icons, so the next load shows an icon twice and never
      shows another: with a full first page whose icons all sort after
      one more result `z`, the next load adds an icon already loaded and
      `z` is never loaded. */
  lemma ResortAsWrittenSkipsIcon(page: seq<SimpleIcon>, z: SimpleIcon, layout: Layout,
                                 shuffle: seq<SimpleIcon> -> seq<SimpleIcon>)
    requires IsShuffle(shuffle)
    requires |page| == IconsPerPage(layout)
    requires z.orderAlpha == 0 && forall k :: 0 <= k < |page| ==> page[k].orderAlpha >= 1
    ensures var (icons, loaded) := ResortAsWritten(Alphabetic, page + [z], page, shuffle);
      var next := NextLoaded(loaded, icons, IconsPerPage(layout));
      z in icons && z !in next
      && |next| == |page| + 1 && next[|page|] in loaded
  {
    var icons := SortIcons(Alphabetic, page + [z], shuffle);
    var loaded := SortIcons(Alphabetic, page, shuffle);
    assert z !in page;
    assert multiset(page + [z]) == multiset(page) + multiset{z};
    NextLoadAfterSeparateSorts(icons, loaded, page, z, IconsPerPage(layout));
  }

  /** Re-sorting the grid during a search, corrected: the icons are sorted
      and the same number of icons as before is loaded from their head. */
  function Resort(mode: OrderModeVariant, icons: seq<SimpleIcon>, loaded: seq<SimpleIcon>,
                  shuffle: seq<SimpleIcon> -> seq<SimpleIcon>): (r: (seq<SimpleIcon>, seq<SimpleIcon>))
    requires IsShuffle(shuffle)
    ensures multiset(r.0) == multiset(icons) && |r.0| == |icons|
    ensures |r.1| == Min(|loaded|, |icons|) && r.1 == r.0[..|r.1|]
  {
    var sorted := SortIcons(mode, icons, shuffle);
    (sorted, sorted[..Min(|loaded|, |sorted|)])
  }

  /** After the corrected re-sort the loaded icons stay a prefix of the
      grid through every later load, so no icon is shown twice and none is
      skipped. */
  lemma ResortKeepsPaging(mode: OrderModeVariant, icons: seq<SimpleIcon>, loaded: seq<SimpleIcon>,
                          shuffle: seq<SimpleIcon> -> seq<SimpleIcon>, layout: Layout)
    requires IsShuffle(shuffle)
    ensures var (icons', loaded') := Resort(mode, icons, loaded, shuffle);
      var next := NextLoaded(loaded', icons', IconsPerPage(layout));
      |next| <= |icons'| && next == icons'[..|next|]
  {
    var (icons', loaded') := Resort(mode, icons, loaded, shuffle);
    LoadKeepsPrefix(loaded', icons', IconsPerPage(layout));
  }

  /** The four sort buttons. */
  datatype SortButton = AlphaButton | AlphaReverseButton | ColorButton | ColorReverseButton

  /** The mode a click on `button` asks for: a button whose mode is current
      asks for its opposite, every other state for its own mode. */
  function ClickTarget(button: SortButton, current: OrderModeVariant): (target: OrderModeVariant)
    ensures target != SearchMatch && target != Random
  {
    match button
    case AlphaButton => if current == Alphabetic then AlphabeticReverse else Alphabetic
    case AlphaReverseButton => if current == AlphabeticReverse then Alphabetic else AlphabeticReverse
    case ColorButton => if current == Color then ColorReverse else Color
    case ColorReverseButton => if current == ColorReverse then Color else ColorReverse
  }

  /** Whether a button is hidden: each forward button gives way to its
      reverse button while the reverse mode is current. */
  predicate Hidden(button: SortButton, current: OrderModeVariant)
  {
    match button
    case AlphaButton => current == AlphabeticReverse
    case AlphaReverseButton => current != AlphabeticReverse
    case ColorButton => current == ColorReverse
    case ColorReverseButton => current != ColorReverse
  }

  /** The button of the pair that is on screen. */
  function ShownAlphaButton(current: OrderModeVariant): (b: SortButton)
    ensures !Hidden(b, current)
    ensures b == AlphaButton ==> Hidden(AlphaReverseButton, current)
    ensures b == AlphaReverseButton ==> Hidden(AlphaButton, current)
  {
    if current == AlphabeticReverse then AlphaReverseButton else AlphaButton
  }

  function ShownColorButton(current: OrderModeVariant): (b: SortButton)
    ensures !Hidden(b, current)
    ensures b == ColorButton ==> Hidden(ColorReverseButton, current)
    ensures b == ColorReverseButton ==> Hidden(ColorButton, current)
  {
    if current == ColorReverse then ColorReverseButton else ColorButton
  }

  /** Exactly one button of each pair is shown, and clicking the shown one
      moves between the pair's two modes: from any other mode to the
      forward one, and from one of the two to the other. */
  lemma ShownButtonToggles(current: OrderModeVariant)
    ensures Hidden(AlphaButton, current) != Hidden(AlphaReverseButton, current)
    ensures Hidden(ColorButton, current) != Hidden(ColorReverseButton, current)
    ensures var t := ClickTarget(ShownAlphaButton(current), current);
      (current == Alphabetic ==> t == AlphabeticReverse)
      && (current != Alphabetic ==> t == Alphabetic)
      && ClickTarget(ShownAlphaButton(t), t) == (if t == Alphabetic then AlphabeticReverse else Alphabetic)
    ensures var t := ClickTarget(ShownColorButton(current), current);
      (current == Color ==> t == ColorReverse)
      && (current != Color ==> t == Color)
      && ClickTarget(ShownColorButton(t), t) == (if t == Color then ColorReverse else Color)
  {
  }

  /** The order-mode signal, the local-storage entries it reads and writes,
      and the grid it re-sorts. `searchEventsFired` counts the search
      events `set_order_mode` fires. */
  class OrderControl {
    var orderMode: OrderMode
    var storedOrderMode: Option<string>
    var storedSearchValue: Option<string>
    var searchEventsFired: nat
    const grid: IconsGrid

    /** `provide_order_mode_context`. */
    constructor (grid: IconsGrid, storedOrderMode: Option<string>,
                 storedSearchValue: Option<string>, initialSearchValue: string)
      ensures this.grid == grid
      ensures orderMode == OrderModeFromStorageAndSearch(storedOrderMode, initialSearchValue)
      ensures this.storedOrderMode == storedOrderMode && this.storedSearchValue == storedSearchValue
      ensures searchEventsFired == 0
    {
      this.grid := grid;
      orderMode := OrderModeFromStorageAndSearch(storedOrderMode, initialSearchValue);
      this.storedOrderMode := storedOrderMode;
      this.storedSearchValue := storedSearchValue;
      searchEventsFired := 0;
    }

    /** `set_order_mode`. The current mode becomes `mode`; any mode but
        search match also becomes the favourite and is stored. With
        `updateGrid`, search match fires a search; any other mode sorts the
        grid's icons and its loaded icons each on their own while a search
        is stored (`ResortAsWritten`), or else refills the grid from
        `icons`, sorted, and loads a page when a layout is given. */
    method SetOrderMode(mode: OrderModeVariant, layout: Option<Layout>, updateGrid: bool,
                        icons: seq<SimpleIcon>, shuffle: seq<SimpleIcon> -> seq<SimpleIcon>)
      requires IsShuffle(shuffle)
      modifies this, grid
      ensures orderMode.current == mode
      ensures mode != SearchMatch ==>
        orderMode.favorite == mode && storedOrderMode == Some(VariantToString(mode))
      ensures mode == SearchMatch ==>
        orderMode.favorite == old(orderMode.favorite) && storedOrderMode == old(storedOrderMode)
      ensures storedSearchValue == old(storedSearchValue)
      ensures searchEventsFired == old(searchEventsFired) + (if updateGrid && mode == SearchMatch then 1 else 0)
      ensures (!updateGrid || mode == SearchMatch) ==>
        grid.icons == old(grid.icons) && grid.loadedIcons == old(grid.loadedIcons)
      ensures updateGrid && mode != SearchMatch && storedSearchValue.Some? ==>
        (grid.icons, grid.loadedIcons) == ResortAsWritten(mode, old(grid.icons), old(grid.loadedIcons), shuffle)
      ensures updateGrid && mode != SearchMatch && storedSearchValue.None? ==>
        grid.icons == SortIcons(mode, icons, shuffle)
        && grid.loadedIcons == (if layout.Some? then NextLoaded([], grid.icons, IconsPerPage(layout.value)) else [])
    {
      orderMode := orderMode.(current := mode);
      if mode != SearchMatch {
        orderMode := orderMode.(favorite := mode);
        storedOrderMode := Some(VariantToString(mode));
      }
      if updateGrid {
        if mode == SearchMatch {
          searchEventsFired := searchEventsFired + 1;
        } else if storedSearchValue.Some? {
          var (sortedIcons, sortedLoaded) := ResortAsWritten(mode, grid.icons, grid.loadedIcons, shuffle);
          grid.icons := sortedIcons;
          grid.loadedIcons := sortedLoaded;
        } else {
          grid.loadedIcons := [];
          grid.icons := SortIcons(mode, icons, shuffle);
          if layout.Some? {
            grid.LoadNextIcons(layout.value);
          }
        }
      }
    }

    /** The effect run when the control mounts: a random or colour order
        read back from storage is applied again to the grid. */
    method OnMount(layout: Layout, icons: seq<SimpleIcon>, shuffle: seq<SimpleIcon> -> seq<SimpleIcon>)
      requires IsShuffle(shuffle)
      modifies this, grid
      ensures orderMode.current == old(orderMode.current)
      ensures storedSearchValue == old(storedSearchValue) && searchEventsFired == old(searchEventsFired)
      ensures old(orderMode.current) !in {Random, Color} ==>
        orderMode == old(orderMode) && storedOrderMode == old(storedOrderMode)
        && grid.icons == old(grid.icons) && grid.loadedIcons == old(grid.loadedIcons)
      ensures old(orderMode.current) in {Random, Color} ==>
        orderMode.favorite == old(orderMode.current)
        && storedOrderMode == Some(VariantToString(old(orderMode.current)))
        && (storedSearchValue.Some? ==>
              (grid.icons, grid.loadedIcons)
              == ResortAsWritten(old(orderMode.current), old(grid.icons), old(grid.loadedIcons), shuffle))
        && (storedSearchValue.None? ==>
              grid.icons == SortIcons(old(orderMode.current), icons, shuffle)
              && grid.loadedIcons == NextLoaded([], grid.icons, IconsPerPage(layout)))
    {
      var current := orderMode.current;
      if current == Random || current == Color {
        SetOrderMode(current, Some(layout), true, icons, shuffle);
      }
    }

    /** A click on one of the four sort buttons. */
    method OnClick(button: SortButton, layout: Layout, icons: seq<SimpleIcon>,
                   shuffle: seq<SimpleIcon> -> seq<SimpleIcon>)
      requires IsShuffle(shuffle)
      modifies this, grid
      ensures orderMode.current == ClickTarget(button, old(orderMode.current))
      ensures orderMode.favorite == orderMode.current
      ensures storedOrderMode == Some(VariantToString(orderMode.current))
      ensures storedSearchValue == old(storedSearchValue) && searchEventsFired == old(searchEventsFired)
      ensures storedSearchValue.Some? ==>
        (grid.icons, grid.loadedIcons)
        == ResortAsWritten(orderMode.current, old(grid.icons), old(grid.loadedIcons), shuffle)
      ensures storedSearchValue.None? ==>
        grid.icons == SortIcons(orderMode.current, icons, shuffle)
        && grid.loadedIcons == NextLoaded([], grid.icons, IconsPerPage(layout))
    {
      var target := ClickTarget(button, orderMode.current);
      SetOrderMode(target, Some(layout), true, icons, shuffle);
    }
  }
}
