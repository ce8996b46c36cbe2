/** The wallpaper catalogue's search and filters: the loaded list is narrowed
    by a title search and four drop-down filters (style, colour, room, price
    bucket), keeping the catalogue's order.

    A catalogue entry's fields are optional because the list arrives as JSON:
    a missing field is `None`. `price` is what `Number(...)` makes of the
    entry's price, `None` standing for NaN. */
module Gallery {
  import opened Wrappers
  import Text

  datatype Wallpaper = Wallpaper(
    title: Option<string>,
    style: Option<string>,
    color: Option<string>,
    room: Option<string>,
    price: Option<real>,
    img: string)

  /** The four drop-down selections. */
  datatype Filters = Filters(style: string, color: string, room: string, price: string)

  datatype FilterKey = Style | Color | Room | Price

  /** The selection that lets everything through. */
  const All: string := "All"

  /** The price buckets offered by the price drop-down. */
  const Under150: string := "Under 150"
  const From150To200: string := "150 - 200"
  const Over200: string := "200+"

  /** The filters on first render. */
  const InitialFilters: Filters := Filters(All, All, All, All)

  function Get(f: Filters, key: FilterKey): string {
    match key
    case Style => f.style
    case Color => f.color
    case Room => f.room
    case Price => f.price
  }

  /** `update(key, value)`: one filter replaced, the others kept. */
  function Update(f: Filters, key: FilterKey, value: string): (r: Filters)
    ensures Get(r, key) == value
    ensures forall k :: k != key ==> Get(r, k) == Get(f, k)
  {
    match key
    case Style => f.(style := value)
    case Color => f.(color := value)
    case Room => f.(room := value)
    case Price => f.(price := value)
  }

  /** The search box: an empty query matches everything; otherwise the
      lower-cased title must contain the lower-cased query, and an entry
      without a title never matches. */
  predicate MatchesQuery(w: Wallpaper, q: string)
    ensures q == "" ==> MatchesQuery(w, q)
    ensures q != "" && MatchesQuery(w, q) ==> w.title.Some?
    ensures q != "" && w.title.Some? && MatchesQuery(w, q) ==>
      exists i :: Text.OccursAt(Text.Lower(w.title.value), Text.Lower(q), i)
    ensures q != "" && w.title.Some? && (exists i :: Text.OccursAt(Text.Lower(w.title.value), Text.Lower(q), i)) ==>
      MatchesQuery(w, q)
  {
    if w.title.Some? then
      Text.ContainsIff(Text.Lower(w.title.value), Text.Lower(q));
      q == "" || Text.Contains(Text.Lower(w.title.value), Text.Lower(q))
    else q == ""
  }

  /** A style, colour or room drop-down: "All" or exact equality. */
  predicate MatchesField(selection: string, field: Option<string>)
    ensures selection == All ==> MatchesField(selection, field)
    ensures selection != All ==> (MatchesField(selection, field) <==> field == Some(selection))
  {
    selection == All || field == Some(selection)
  }

  /** The price drop-down. A NaN price satisfies no comparison, so it only
      passes "All"; an unknown selection lets nothing through. */
  predicate InBucket(selection: string, price: Option<real>)
    ensures InBucket(selection, price) && selection != All ==> price.Some?
    ensures selection != All && selection != Under150 && selection != From150To200 && selection != Over200 ==>
      !InBucket(selection, price)
  {
    || selection == All
    || (selection == Under150 && price.Some? && price.value < 150.0)
    || (selection == From150To200 && price.Some? && price.value >= 150.0 && price.value <= 200.0)
    || (selection == Over200 && price.Some? && price.value > 200.0)
  }

  /** The conjunction of the five tests applied to each entry. */
  predicate Keep(w: Wallpaper, q: string, f: Filters)
    ensures q == "" && f == InitialFilters ==> Keep(w, q, f)
    ensures Keep(w, q, f) && q != "" ==> w.title.Some?
    ensures Keep(w, q, f) && f.style != All ==> w.style == Some(f.style)
    ensures Keep(w, q, f) && f.color != All ==> w.color == Some(f.color)
    ensures Keep(w, q, f) && f.room != All ==> w.room == Some(f.room)
    ensures Keep(w, q, f) && f.price != All ==> w.price.Some?
  {
    && MatchesQuery(w, q)
    && MatchesField(f.style, w.style)
    && MatchesField(f.color, w.color)
    && MatchesField(f.room, w.room)
    && InBucket(f.price, w.price)
  }

  /** a can be obtained from b by deleting elements. */
  predicate IsSubsequence<T(==)>(a: seq<T>, b: seq<T>)
    decreases |b|
  {
    if |b| == 0 then |a| == 0
    else (|a| > 0 && a[0] == b[0] && IsSubsequence(a[1..], b[1..])) || IsSubsequence(a, b[1..])
  }

  /** The entries shown: the kept entries of `items`, in catalogue order and
      with their multiplicities; nothing else. */
  function Filtered(items: seq<Wallpaper>, q: string, f: Filters): (r: seq<Wallpaper>)
    ensures IsSubsequence(r, items)
    ensures forall w :: w in r ==> Keep(w, q, f)
    ensures forall w :: multiset(r)[w] == if Keep(w, q, f) then multiset(items)[w] else 0
  {
    if |items| == 0 then []
    else
      var rest := Filtered(items[1..], q, f);
      assert items == [items[0]] + items[1..];
      if Keep(items[0], q, f) then [items[0]] + rest else rest
  }

  /** An entry is shown iff it is in the catalogue and passes every test. */
  lemma FilteredMembership(items: seq<Wallpaper>, q: string, f: Filters, w: Wallpaper)
    ensures w in Filtered(items, q, f) <==> w in items && Keep(w, q, f)
  {
    var r := Filtered(items, q, f);
    assert w in r <==> multiset(r)[w] > 0;
    assert w in items <==> multiset(items)[w] > 0;
  }

  /** A list whose every entry passes is shown unchanged. */
  lemma {:induction false} FilterKeepsAllPassing(items: seq<Wallpaper>, q: string, f: Filters)
    requires forall w :: w in items ==> Keep(w, q, f)
    ensures Filtered(items, q, f) == items
    decreases |items|
  {
    if |items| > 0 {
      FilterKeepsAllPassing(items[1..], q, f);
    }
  }

  /** An empty query with every drop-down on "All" shows the whole catalogue. */
  lemma NoFilterShowsEverything(items: seq<Wallpaper>)
    ensures Filtered(items, "", InitialFilters) == items
  {
    FilterKeepsAllPassing(items, "", InitialFilters);
  }

  /** Filtering the shown list again with the same settings changes nothing. */
  lemma FilterIdempotent(items: seq<Wallpaper>, q: string, f: Filters)
    ensures Filtered(Filtered(items, q, f), q, f) == Filtered(items, q, f)
  {
    FilterKeepsAllPassing(Filtered(items, q, f), q, f);
  }

  /** Settings that let through fewer entries show a subsequence of what
      the looser settings show. */
  lemma {:induction false} FilterNarrowing(items: seq<Wallpaper>, q: string, f: Filters, q': string, f': Filters)
    requires forall w :: Keep(w, q', f') ==> Keep(w, q, f)
    ensures IsSubsequence(Filtered(items, q', f'), Filtered(items, q, f))
    decreases |items|
  {
    if |items| > 0 {
      FilterNarrowing(items[1..], q, f, q', f');
    }
  }

  /** Changing one drop-down from "All" to a specific value shows a
      subsequence of what was shown before. */
  lemma SelectingNarrows(items: seq<Wallpaper>, q: string, f: Filters, key: FilterKey, value: string)
    requires Get(f, key) == All
    ensures IsSubsequence(Filtered(items, q, Update(f, key, value)), Filtered(items, q, f))
  {
    FilterNarrowing(items, q, f, q, Update(f, key, value));
  }

  /** Every numeric price falls in exactly one of the three buckets; a NaN
      price falls in none. */
  lemma PriceBucketsPartition(price: Option<real>)
    ensures price.Some? ==>
      (if InBucket(Under150, price) then 1 else 0)
      + (if InBucket(From150To200, price) then 1 else 0)
      + (if InBucket(Over200, price) then 1 else 0) == 1
    ensures price.None? ==>
      !InBucket(Under150, price) && !InBucket(From150To200, price) && !InBucket(Over200, price)
  {
  }
}
