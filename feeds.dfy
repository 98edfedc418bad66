/**
 * The feed a handler builds (the `feed` library's options and items), the
 * form in which it is cached (`JSON.stringify({ feed: feed.options, items:
 * feed.items })`, so every Date becomes an ISO string), and the cache-hit
 * rebuild, which sorts the stored items and then turns their dates back
 * into Dates.
 */
module Feeds {
  import opened Wrappers
  import opened JsValues
  import opened Sorting

  datatype FeedOptions = FeedOptions(
    title: string,
    description: string,
    id: string,
    link: string,
    updated: Option<DateField>,
    image: string,
    copyright: string)

  datatype Item = Item(
    title: string,
    description: string,
    link: string,
    id: string,
    date: DateField,
    published: Option<DateField>)

  /** The value stored in the cache. */
  datatype CachedFeed = CachedFeed(feed: FeedOptions, items: seq<Item>)

  /** A `Feed` object: the options it was made with and the items added so far. */
  class Feed {
    var options: FeedOptions
    var items: seq<Item>

    constructor (options: FeedOptions)
      ensures this.options == options && items == []
    {
      this.options := options;
      items := [];
    }

    /** `feed.addItem(item)`. */
    method AddItem(item: Item)
      modifies this
      ensures items == old(items) + [item]
      ensures options == old(options)
    {
      items := items + [item];
    }
  }

  predicate IsDateObject(d: Option<DateField>)
  {
    d.None? || d.value.DateObject?
  }

  predicate IsStoredDate(d: Option<DateField>)
  {
    d.None? || d.value.IsoString?
  }

  function OptionalDateToJson(d: Option<DateField>): (r: Option<DateField>)
    ensures IsStoredDate(r) && r.None? == d.None?
  {
    match d
    case None => None
    case Some(v) => Some(DateToJson(v))
  }

  /** `if (x) { x = new Date(x); }`: a present date becomes a Date again. */
  function OptionalReviveDate(d: Option<DateField>): (r: Option<DateField>)
    ensures IsDateObject(r) && r.None? == d.None?
  {
    match d
    case None => None
    case Some(v) => Some(ReviveDate(v))
  }

  function OptionsToJson(o: FeedOptions): FeedOptions
  {
    o.(updated := OptionalDateToJson(o.updated))
  }

  function ItemToJson(i: Item): Item
  {
    i.(date := DateToJson(i.date), published := OptionalDateToJson(i.published))
  }

  function ItemsToJson(items: seq<Item>): (r: seq<Item>)
    ensures |r| == |items|
    ensures forall k :: 0 <= k < |r| ==> r[k] == ItemToJson(items[k])
  {
    if items == [] then [] else [ItemToJson(items[0])] + ItemsToJson(items[1..])
  }

  /** The cached form of a feed: what `JSON.stringify` keeps of it. */
  function ToCached(options: FeedOptions, items: seq<Item>): CachedFeed
  {
    CachedFeed(OptionsToJson(options), ItemsToJson(items))
  }

  /** Every date of a cached feed is an ISO string. */
  ghost predicate IsStored(c: CachedFeed)
  {
    && IsStoredDate(c.feed.updated)
    && forall k :: 0 <= k < |c.items| ==> c.items[k].date.IsoString? && IsStoredDate(c.items[k].published)
  }

  /** Every date of a live feed is a Date object. */
  ghost predicate IsLive(options: FeedOptions, items: seq<Item>)
  {
    && IsDateObject(options.updated)
    && forall k :: 0 <= k < |items| ==> items[k].date.DateObject? && IsDateObject(items[k].published)
  }

  lemma ToCachedIsStored(options: FeedOptions, items: seq<Item>)
    ensures IsStored(ToCached(options, items))
  {
  }

  function ReviveOptions(o: FeedOptions): FeedOptions
  {
    o.(updated := OptionalReviveDate(o.updated))
  }

  function ReviveItem(i: Item): Item
  {
    i.(date := ReviveDate(i.date), published := OptionalReviveDate(i.published))
  }

  function ReviveItems(items: seq<Item>): (r: seq<Item>)
    ensures |r| == |items|
    ensures forall k :: 0 <= k < |r| ==> r[k] == ReviveItem(items[k])
  {
    if items == [] then [] else [ReviveItem(items[0])] + ReviveItems(items[1..])
  }

  /** The hit-path comparator `(a, b) => b.date.valueOf() - a.date.valueOf()`, as SortCompare reads it. */
  function HitOrder(a: Item, b: Item): int
  {
    ComparatorResult(Subtract(ValueInSubtraction(b.date), ValueInSubtraction(a.date)))
  }

  /**
   * On a stored feed the hit-path sort changes nothing: the dates are still
   * strings when it runs, every subtraction is NaN, every comparison +0, and
   * the sort is stable.
   */
  lemma HitSortKeepsStoredOrder(c: CachedFeed)
    requires IsStored(c)
    ensures SortBy(c.items, HitOrder) == c.items
  {
    forall i, j | 0 <= i < |c.items| && 0 <= j < |c.items| ensures HitOrder(c.items[i], c.items[j]) <= 0 {
      assert c.items[j].date.IsoString?;
    }
    SortByNeverAfter(c.items, HitOrder);
  }

  /** The hit path: a new Feed from the stored options, then the sorted, revived items. */
  method Rehydrate(c: CachedFeed) returns (feed: Feed)
    ensures fresh(feed)
    ensures feed.options == ReviveOptions(c.feed)
    ensures feed.items == ReviveItems(SortBy(c.items, HitOrder))
  {
    feed := new Feed(ReviveOptions(c.feed));
    var items := SortBy(c.items, HitOrder);
    var k := 0;
    while k < |items|
      invariant 0 <= k <= |items|
      invariant feed.options == ReviveOptions(c.feed)
      invariant feed.items == ReviveItems(items[..k])
    {
      assert items[..k + 1] == items[..k] + [items[k]];
      ReviveItemsAppend(items[..k], items[k]);
      feed.AddItem(ReviveItem(items[k]));
      k := k + 1;
    }
    assert items[..k] == items;
  }

  lemma ReviveItemsAppend(items: seq<Item>, i: Item)
    ensures ReviveItems(items + [i]) == ReviveItems(items) + [ReviveItem(i)]
  {
  }

  lemma ReviveOptionsToJson(o: FeedOptions)
    requires IsDateObject(o.updated)
    ensures ReviveOptions(OptionsToJson(o)) == o
  {
  }

  lemma ReviveItemToJson(i: Item)
    requires i.date.DateObject? && IsDateObject(i.published)
    ensures ReviveItem(ItemToJson(i)) == i
  {
  }

  /**
   * The cache keeps a feed exactly: rebuilding the stored form of a live
   * feed gives back its options and its items in their order.
   */
  lemma HitRoundTrip(options: FeedOptions, items: seq<Item>)
    requires IsLive(options, items)
    ensures var c := ToCached(options, items);
      ReviveOptions(c.feed) == options && ReviveItems(SortBy(c.items, HitOrder)) == items
  {
    var c := ToCached(options, items);
    ToCachedIsStored(options, items);
    HitSortKeepsStoredOrder(c);
    ReviveOptionsToJson(options);
    var stored := ItemsToJson(items);
    var r := ReviveItems(stored);
    forall k | 0 <= k < |items| ensures r[k] == items[k] {
      ReviveItemToJson(items[k]);
    }
  }
}
