/** Order modes of the icon grid (components/controls/order-types/src/lib.rs):
    their names, the favourite/current pair and how each mode sorts the
    icons. */
module OrderTypes {
  import opened Strings
  import opened Types

  datatype OrderModeVariant =
    Alphabetic | AlphabeticReverse | Color | ColorReverse | SearchMatch | Random

  const DefaultVariant: OrderModeVariant := Random

  /** `From<&str>`: the five stored names, and search match for every other
      string. */
  function VariantFromStr(s: string): (v: OrderModeVariant)
    ensures v != SearchMatch <==>
      (s == "alpha" || s == "alpha-reverse" || s == "color" || s == "color-reverse" || s == "random")
  {
    if s == "alpha" then Alphabetic
    else if s == "alpha-reverse" then AlphabeticReverse
    else if s == "color" then Color
    else if s == "color-reverse" then ColorReverse
    else if s == "random" then Random
    else SearchMatch
  }

  /** `Display`. */
  function VariantToString(v: OrderModeVariant): string
  {
    match v
    case Alphabetic => "alpha"
    case AlphabeticReverse => "alpha-reverse"
    case Color => "color"
    case ColorReverse => "color-reverse"
    case SearchMatch => "search"
    case Random => "random"
  }

  /** Every variant, search match included, is read back from its printed
      name; a name that does not parse to search match is exactly the
      printed name of its variant. */
  lemma VariantRoundTrip(v: OrderModeVariant, s: string)
    ensures VariantFromStr(VariantToString(v)) == v
    ensures VariantFromStr(s) != SearchMatch ==> VariantToString(VariantFromStr(s)) == s
  {
  }

  /** The printed names are pairwise distinct. */
  lemma VariantToStringInjective(v: OrderModeVariant, w: OrderModeVariant)
    ensures VariantToString(v) == VariantToString(w) ==> v == w
  {
    VariantRoundTrip(v, "");
    VariantRoundTrip(w, "");
  }

  /** The user's preferred mode and the mode in use. */
  datatype OrderMode = OrderMode(favorite: OrderModeVariant, current: OrderModeVariant)

  const DefaultOrderMode: OrderMode := OrderMode(DefaultVariant, DefaultVariant)

  /** `OrderMode::from_str`: never an error, and both fields are the
      variant the string names. */
  function OrderModeFromStr(s: string): (r: Option<OrderMode>)
    ensures r.Some?
    ensures r.value.favorite == r.value.current == VariantFromStr(s)
  {
    Some(OrderMode(VariantFromStr(s), VariantFromStr(s)))
  }

  /** The sort key of a sorting mode: ascending keys give the order the
      mode asks for (a reverse mode negates the field, which keeps the
      comparator `b.cmp(a)` of the source). */
  function Key(mode: OrderModeVariant, icon: SimpleIcon): int
  {
    match mode
    case Alphabetic => icon.orderAlpha as int
    case AlphabeticReverse => 0 - icon.orderAlpha as int
    case Color => icon.orderColor as int
    case ColorReverse => 0 - icon.orderColor as int
    case _ => 0
  }

  predicate SortedBy(mode: OrderModeVariant, s: seq<SimpleIcon>)
  {
    forall i, j :: 0 <= i < j < |s| ==> Key(mode, s[i]) <= Key(mode, s[j])
  }

  /** Inserts `x` before the first element whose key is not smaller, so
      that `x` comes before the elements with its key. */
  function Insert(mode: OrderModeVariant, x: SimpleIcon, s: seq<SimpleIcon>): (r: seq<SimpleIcon>)
    ensures |r| == |s| + 1
  {
    if s == [] then [x]
    else if Key(mode, x) <= Key(mode, s[0]) then [x] + s
    else [s[0]] + Insert(mode, x, s[1..])
  }

  /** Insertion adds `x` and keeps every other element. */
  lemma {:induction false} InsertPermutes(mode: OrderModeVariant, x: SimpleIcon, s: seq<SimpleIcon>)
    ensures multiset(Insert(mode, x, s)) == multiset(s) + multiset{x}
  {
    if s != [] && Key(mode, x) > Key(mode, s[0]) {
      InsertPermutes(mode, x, s[1..]);
      assert s == [s[0]] + s[1..];
    }
  }

  /** A lower bound on the keys of `x` and `s` bounds the keys after the
      insertion. */
  lemma {:induction false} InsertLowerBound(mode: OrderModeVariant, x: SimpleIcon, s: seq<SimpleIcon>, b: int)
    requires Key(mode, x) >= b && forall k :: 0 <= k < |s| ==> Key(mode, s[k]) >= b
    ensures forall k :: 0 <= k < |Insert(mode, x, s)| ==> Key(mode, Insert(mode, x, s)[k]) >= b
  {
    if s != [] && Key(mode, x) > Key(mode, s[0]) {
      InsertLowerBound(mode, x, s[1..], b);
      assert Insert(mode, x, s) == [s[0]] + Insert(mode, x, s[1..]);
    }
  }

  /** Inserting into a sorted sequence keeps it sorted. */
  lemma {:induction false} InsertSorted(mode: OrderModeVariant, x: SimpleIcon, s: seq<SimpleIcon>)
    requires SortedBy(mode, s)
    ensures SortedBy(mode, Insert(mode, x, s))
  {
    if s == [] {
      assert Insert(mode, x, s) == [x];
    } else if Key(mode, x) <= Key(mode, s[0]) {
      assert forall k :: 0 <= k < |s| ==> Key(mode, s[0]) <= Key(mode, s[k]);
      SortedCons(mode, x, s);
    } else {
      InsertSorted(mode, x, s[1..]);
      InsertLowerBound(mode, x, s[1..], Key(mode, s[0]));
      SortedCons(mode, s[0], Insert(mode, x, s[1..]));
    }
  }

  /** An element whose key is at most every key of a sorted sequence can
      go in front of it. */
  lemma SortedCons(mode: OrderModeVariant, x: SimpleIcon, s: seq<SimpleIcon>)
    requires SortedBy(mode, s)
    requires forall k :: 0 <= k < |s| ==> Key(mode, x) <= Key(mode, s[k])
    ensures SortedBy(mode, [x] + s)
  {
    var r := [x] + s;
    forall i, j | 0 <= i < j < |r|
      ensures Key(mode, r[i]) <= Key(mode, r[j])
    {
      assert r[j] == s[j - 1];
      if i > 0 {
        assert r[i] == s[i - 1];
      }
    }
  }

  /** A stable insertion sort by the mode's key. */
  function SortByKey(mode: OrderModeVariant, s: seq<SimpleIcon>): (r: seq<SimpleIcon>)
    ensures multiset(r) == multiset(s)
    ensures SortedBy(mode, r)
  {
    if s == [] then []
    else
      assert s == [s[0]] + s[1..];
      InsertSorted(mode, s[0], SortByKey(mode, s[1..]));
      InsertPermutes(mode, s[0], SortByKey(mode, s[1..]));
      Insert(mode, s[0], SortByKey(mode, s[1..]))
  }

  /** An RNG outcome: any rearrangement of its input. */
  ghost predicate IsShuffle(shuffle: seq<SimpleIcon> -> seq<SimpleIcon>)
  {
    forall s :: multiset(shuffle(s)) == multiset(s)
  }

  /** `sort_icons`: the four sorting modes sort by `order_alpha` or
      `order_color`, up or down; random order is the shuffle's outcome;
      search match leaves the icons as they are. Always a rearrangement. */
  function SortIcons(mode: OrderModeVariant, icons: seq<SimpleIcon>,
                     shuffle: seq<SimpleIcon> -> seq<SimpleIcon>): (r: seq<SimpleIcon>)
    requires IsShuffle(shuffle)
    ensures multiset(r) == multiset(icons)
    ensures |r| == |icons|
    ensures mode == Alphabetic ==>
      forall i, j :: 0 <= i < j < |r| ==> r[i].orderAlpha <= r[j].orderAlpha
    ensures mode == AlphabeticReverse ==>
      forall i, j :: 0 <= i < j < |r| ==> r[i].orderAlpha >= r[j].orderAlpha
    ensures mode == Color ==>
      forall i, j :: 0 <= i < j < |r| ==> r[i].orderColor <= r[j].orderColor
    ensures mode == ColorReverse ==>
      forall i, j :: 0 <= i < j < |r| ==> r[i].orderColor >= r[j].orderColor
    ensures mode == SearchMatch ==> r == icons
  {
    match mode
    case Random =>
      var r := shuffle(icons);
      assert |r| == |multiset(r)| == |multiset(icons)| == |icons|;
      r
    case SearchMatch => icons
    case _ =>
      var r := SortByKey(mode, icons);
      assert |r| == |multiset(r)| == |multiset(icons)| == |icons|;
      r
  }
}
