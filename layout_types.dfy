/** The grid layouts (components/controls/layout-types/src/lib.rs): how many
    icons a page holds, and how a layout is written in the URL and in
    local storage. */
module LayoutTypes {
  import opened Strings

  datatype Layout = Comfortable | Compact

  /** The layout used when none is chosen. */
  const DefaultLayout: Layout := Comfortable

  /** Icons per page: 30 for the comfortable layout, 60 for the compact one.
      Never zero, so it can divide a length. */
  function IconsPerPage(layout: Layout): (n: nat)
    ensures n >= 1
    ensures layout == Comfortable ==> n == 30
    ensures layout == Compact ==> n == 60
  {
    match layout
    case Comfortable => 30
    case Compact => 60
  }

  /** `Display`: the name a layout is stored under. */
  function LayoutToString(layout: Layout): string
  {
    match layout
    case Comfortable => "comfortable"
    case Compact => "compact"
  }

  /** `FromStr`: the two names parse, everything else is an error (`None`). */
  function LayoutFromStr(s: string): (r: Option<Layout>)
    ensures r.Some? <==> (s == "comfortable" || s == "compact")
  {
    if s == "comfortable" then Some(Comfortable)
    else if s == "compact" then Some(Compact)
    else None
  }

  /** Printing then parsing gives the layout back, and a parsed string is
      exactly the printed form of what it parses to. */
  lemma LayoutRoundTrip(layout: Layout, s: string)
    ensures LayoutFromStr(LayoutToString(layout)) == Some(layout)
    ensures LayoutFromStr(s).Some? ==> LayoutToString(LayoutFromStr(s).value) == s
  {
  }
}
