/**
 * The Twitter side of `/twitter-rss/:username`: the syndication timeline
 * shapes the handler reads, the tweet filter, the sort by creation time,
 * the feed options taken from the newest entry's user, and each tweet's
 * item with its URL and media substitutions.
 */
module TwitterFeed {
  import opened Wrappers
  import opened JsStrings
  import opened JsValues
  import opened Sorting
  import opened ContentNormalizer
  import opened Feeds

  datatype UrlEntity = UrlEntity(url: string, expandedUrl: string)
  datatype MediaEntity = MediaEntity(url: string, mediaUrlHttps: string)

  datatype User = User(
    name: string,
    screenName: string,
    description: string,
    idStr: string,
    profileImageUrlHttps: string)

  /** A tweet; `createdAt` is `created_at` as a time value, `retweeted` whether `retweeted_status` is set. */
  datatype Tweet = Tweet(
    createdAt: int,
    fullText: string,
    permalink: string,
    user: User,
    urls: seq<UrlEntity>,
    media: seq<MediaEntity>,
    retweeted: bool)

  /** A timeline entry; its `type` is `kind`. */
  datatype Entry = Entry(kind: string, tweet: Tweet)

  // ---------------------------------------------------------------------------
  // Description
  // ---------------------------------------------------------------------------

  /** Each URL entity's short URL replaced everywhere by its expanded URL, entity by entity. */
  function ApplyUrls(d: string, urls: seq<UrlEntity>): string
  {
    if urls == [] then d
    else ReplaceAll(ApplyUrls(d, urls[..|urls| - 1]), urls[|urls| - 1].url, urls[|urls| - 1].expandedUrl)
  }

  function ImageTag(m: MediaEntity): string
  {
    "<br>\n<img src=\"" + m.mediaUrlHttps + "\">"
  }

  /** Per media entity, in order: remove its URL everywhere, then append its image. */
  function ApplyMedia(d: string, media: seq<MediaEntity>): string
  {
    if media == [] then d
    else ReplaceAll(ApplyMedia(d, media[..|media| - 1]), media[|media| - 1].url, "") + ImageTag(media[|media| - 1])
  }

  /** The entities are applied in order: a list of entities acts as its parts one after the other. */
  lemma {:induction false} ApplyUrlsAppend(d: string, a: seq<UrlEntity>, b: seq<UrlEntity>)
    ensures ApplyUrls(d, a + b) == ApplyUrls(ApplyUrls(d, a), b)
    decreases |b|
  {
    if b == [] {
      assert a + b == a;
    } else {
      var ab := a + b;
      assert ab[..|ab| - 1] == a + b[..|b| - 1] && ab[|ab| - 1] == b[|b| - 1];
      ApplyUrlsAppend(d, a, b[..|b| - 1]);
    }
  }

  /** The media URLs removed from `d`, without the appended images. */
  function StripMediaUrls(d: string, media: seq<MediaEntity>): string
  {
    if media == [] then d
    else ReplaceAll(StripMediaUrls(d, media[..|media| - 1]), media[|media| - 1].url, "")
  }

  /** One image per media entity, in order. */
  function ImageTags(media: seq<MediaEntity>): (r: string)
    ensures r == [] || r[0] == '<'
  {
    if media == [] then []
    else
      var init := ImageTags(media[..|media| - 1]);
      assert init == [] || (init + ImageTag(media[|media| - 1]))[0] == '<';
      init + ImageTag(media[|media| - 1])
  }

  /** No media URL can reach into an image tag: each is non-empty, has no `<` and occurs in no tag. */
  ghost predicate SeparateUrls(media: seq<MediaEntity>)
  {
    && (forall i :: 0 <= i < |media| ==> media[i].url != [] && '<' !in media[i].url)
    && forall i, k :: 0 <= i < |media| && 0 <= k < |media| ==> !Contains(ImageTag(media[k]), media[i].url)
  }

  lemma SeparateUrlsInit(media: seq<MediaEntity>)
    requires media != [] && SeparateUrls(media)
    ensures SeparateUrls(media[..|media| - 1])
  {
    var init := media[..|media| - 1];
    assert forall i :: 0 <= i < |init| ==> init[i] == media[i];
  }

  lemma {:induction false} TagsFreeOf(media: seq<MediaEntity>, u: string)
    requires u != [] && '<' !in u
    requires forall k :: 0 <= k < |media| ==> !Contains(ImageTag(media[k]), u)
    ensures !Contains(ImageTags(media), u)
    decreases |media|
  {
    if media == [] {
      NothingInEmpty(u);
    } else {
      var init := media[..|media| - 1];
      assert forall k :: 0 <= k < |init| ==> init[k] == media[k];
      TagsFreeOf(init, u);
      var tag := ImageTag(media[|media| - 1]);
      assert tag[0] == '<';
      NotContainsConcat(ImageTags(init), tag, u);
    }
  }

  lemma MediaStepSplits(d: string, media: seq<MediaEntity>)
    requires media != [] && SeparateUrls(media)
    requires var init := media[..|media| - 1];
      ApplyMedia(d, init) == StripMediaUrls(d, init) + ImageTags(init)
    ensures ApplyMedia(d, media) == StripMediaUrls(d, media) + ImageTags(media)
  {
    var init := media[..|media| - 1];
    var last := media[|media| - 1];
    LastUrlMissesTags(media);
    var stripped, tags := StripMediaUrls(d, init), ImageTags(init);
    ReplaceAllKeepsSuffix(stripped, tags, last.url, "");
    var cut := ReplaceAll(stripped, last.url, "");
    assert ApplyMedia(d, media) == ReplaceAll(stripped + tags, last.url, "") + ImageTag(last);
    assert StripMediaUrls(d, media) == cut;
    assert ImageTags(media) == tags + ImageTag(last);
    ConcatAssoc(cut, tags, ImageTag(last));
  }

  /** The last media URL occurs in none of the earlier images. */
  lemma LastUrlMissesTags(media: seq<MediaEntity>)
    requires media != [] && SeparateUrls(media)
    ensures var last := media[|media| - 1];
      last.url != [] && '<' !in last.url && !Contains(ImageTags(media[..|media| - 1]), last.url)
  {
    var init := media[..|media| - 1];
    var last := media[|media| - 1];
    assert forall k :: 0 <= k < |init| ==> !Contains(ImageTag(init[k]), last.url) by {
      assert forall k :: 0 <= k < |init| ==> init[k] == media[k];
    }
    TagsFreeOf(init, last.url);
  }

  /**
   * Each media entity leaves exactly one image: when no media URL can reach
   * into an image tag, the description is the text with every media URL
   * removed, followed by one image per entity in order.
   */
  lemma {:induction false} ApplyMediaSplits(d: string, media: seq<MediaEntity>)
    requires SeparateUrls(media)
    ensures ApplyMedia(d, media) == StripMediaUrls(d, media) + ImageTags(media)
    decreases |media|
  {
    if media != [] {
      SeparateUrlsInit(media);
      ApplyMediaSplits(d, media[..|media| - 1]);
      MediaStepSplits(d, media);
    }
  }

  lemma ApplyUrlsStep(d: string, urls: seq<UrlEntity>, k: nat)
    requires k < |urls|
    ensures ApplyUrls(d, urls[..k + 1]) == ReplaceAll(ApplyUrls(d, urls[..k]), urls[k].url, urls[k].expandedUrl)
  {
    assert urls[..k + 1][..k] == urls[..k];
  }

  lemma ApplyMediaStep(d: string, media: seq<MediaEntity>, k: nat)
    requires k < |media|
    ensures ApplyMedia(d, media[..k + 1]) == ReplaceAll(ApplyMedia(d, media[..k]), media[k].url, "") + ImageTag(media[k])
  {
    assert media[..k + 1][..k] == media[..k];
  }

  /** The description loops: URL substitutions first, then the media. */
  method DescribeTweet(content: string, urls: seq<UrlEntity>, media: seq<MediaEntity>) returns (d: string)
    ensures d == ApplyMedia(ApplyUrls(Body(content), urls), media)
  {
    d := Body(content);
    var k := 0;
    assert urls[..0] == [];
    while k < |urls|
      invariant 0 <= k <= |urls|
      invariant d == ApplyUrls(Body(content), urls[..k])
    {
      ApplyUrlsStep(Body(content), urls, k);
      d := ReplaceAll(d, urls[k].url, urls[k].expandedUrl);
      k := k + 1;
    }
    assert urls[..k] == urls;
    ghost var substituted := d;
    var m := 0;
    assert media[..0] == [];
    while m < |media|
      invariant 0 <= m <= |media|
      invariant d == ApplyMedia(substituted, media[..m])
    {
      ApplyMediaStep(substituted, media, m);
      d := ReplaceAll(d, media[m].url, "");
      d := d + "<br>\n<img src=\"" + media[m].mediaUrlHttps + "\">";
      m := m + 1;
    }
    assert media[..m] == media;
  }

  // ---------------------------------------------------------------------------
  // Items and feed
  // ---------------------------------------------------------------------------

  function TweetUrl(t: Tweet): string
  {
    "https://twitter.com" + t.permalink
  }

  function TweetItem(t: Tweet): Item
  {
    var content := TweetContent(t.fullText);
    Item(
      TweetTitle(content),
      ApplyMedia(ApplyUrls(Body(content), t.urls), t.media),
      TweetUrl(t),
      TweetUrl(t),
      DateObject(t.createdAt),
      None)
  }

  /** The title is the first line of the escaped text, untouched by the substitutions. */
  lemma TweetItemShape(t: Tweet)
    ensures var item := TweetItem(t);
      var content := TweetContent(t.fullText);
      && item.title <= content && !Contains(item.title, "\n")
      && (item.title == content || "\n" <= content[|item.title|..])
      && item.link == item.id == "https://twitter.com" + t.permalink
      && item.date == DateObject(t.createdAt) && item.published.None?
  {
  }

  /** The loop keeps plain tweets: entries of another type and retweets are skipped. */
  predicate Kept(e: Entry)
  {
    e.kind == "tweet" && !e.tweet.retweeted
  }

  function KeptEntries(entries: seq<Entry>): (r: seq<Entry>)
    ensures |r| <= |entries|
    ensures forall k :: 0 <= k < |r| ==> Kept(r[k]) && r[k] in entries
  {
    if entries == [] then []
    else
      var init := KeptEntries(entries[..|entries| - 1]);
      var last := entries[|entries| - 1];
      assert forall k :: 0 <= k < |init| ==> init[k] in entries;
      if Kept(last) then init + [last] else init
  }

  /** Every kept entry of the timeline is kept, and nothing else. */
  lemma {:induction false} KeptEntriesMembership(entries: seq<Entry>, e: Entry)
    ensures e in KeptEntries(entries) <==> e in entries && Kept(e)
    decreases |entries|
  {
    if entries != [] {
      var init := entries[..|entries| - 1];
      KeptEntriesMembership(init, e);
      assert entries == init + [entries[|entries| - 1]];
    }
  }

  /** The items of a timeline: one per kept entry, in timeline order. */
  function TimelineItems(entries: seq<Entry>): seq<Item>
  {
    if entries == [] then []
    else
      TimelineItems(entries[..|entries| - 1])
        + (if Kept(entries[|entries| - 1]) then [TweetItem(entries[|entries| - 1].tweet)] else [])
  }

  /** Exactly one item per kept entry: the items are the kept entries' items. */
  lemma {:induction false} TimelineItemsOfKept(entries: seq<Entry>)
    ensures var items := TimelineItems(entries); var kept := KeptEntries(entries);
      |items| == |kept| && forall k :: 0 <= k < |items| ==> items[k] == TweetItem(kept[k].tweet)
    decreases |entries|
  {
    if entries != [] {
      TimelineItemsOfKept(entries[..|entries| - 1]);
    }
  }

  /** `(a, b) => created(b) - created(a)`: newest first. */
  function ByCreatedDescending(a: Entry, b: Entry): int
  {
    b.tweet.createdAt - a.tweet.createdAt
  }

  function CreatedAt(e: Entry): int
  {
    e.tweet.createdAt
  }

  lemma {:induction false} KeptEntriesSorted(entries: seq<Entry>)
    requires SortedDesc(entries, CreatedAt)
    ensures SortedDesc(KeptEntries(entries), CreatedAt)
    decreases |entries|
  {
    if entries != [] {
      var init := entries[..|entries| - 1];
      var last := entries[|entries| - 1];
      assert SortedDesc(init, CreatedAt) by {
        forall i, j | 0 <= i < j < |init| ensures CreatedAt(init[i]) >= CreatedAt(init[j]) {
          assert init[i] == entries[i] && init[j] == entries[j];
        }
      }
      KeptEntriesSorted(init);
      var r := KeptEntries(init);
      forall k | 0 <= k < |r| ensures CreatedAt(r[k]) >= CreatedAt(last) {
        assert r[k] in init;
        var i :| 0 <= i < |init| && init[i] == r[k];
        assert entries[i] == init[i];
      }
    }
  }

  /** The feed lists the kept tweets newest first. */
  lemma TimelineItemsNewestFirst(entries: seq<Entry>)
    ensures var items := TimelineItems(SortBy(entries, ByCreatedDescending));
      forall i, j :: 0 <= i < j < |items| ==> items[i].date.time >= items[j].date.time
  {
    var sorted := SortBy(entries, ByCreatedDescending);
    assert DescendingBy(ByCreatedDescending, CreatedAt);
    SortByDescending(entries, ByCreatedDescending, CreatedAt);
    KeptEntriesSorted(sorted);
    TimelineItemsOfKept(sorted);
  }

  /** The feed options, from the user of the first entry after sorting. */
  function TwitterFeedOptions(user: User): FeedOptions
  {
    FeedOptions(
      user.name + " (@" + user.screenName + ")",
      user.description,
      user.idStr,
      "https://twitter.com/" + user.screenName,
      None,
      user.profileImageUrlHttps,
      "")
  }

  /** A freshly built Twitter feed holds only Date objects, so the cache keeps it exactly. */
  lemma TimelineItemsAreLive(entries: seq<Entry>)
    ensures forall k :: 0 <= k < |TimelineItems(entries)| ==>
      TimelineItems(entries)[k].date.DateObject? && TimelineItems(entries)[k].published.None?
  {
    TimelineItemsOfKept(entries);
    var items := TimelineItems(entries);
    var kept := KeptEntries(entries);
    forall k | 0 <= k < |items| ensures items[k].date.DateObject? && items[k].published.None? {
      TweetItemIsLive(kept[k].tweet);
    }
  }

  lemma TweetItemIsLive(t: Tweet)
    ensures TweetItem(t).date.DateObject? && TweetItem(t).published.None?
  {
  }

  lemma TimelineItemsStep(entries: seq<Entry>, k: nat)
    requires k < |entries|
    ensures TimelineItems(entries[..k + 1])
      == TimelineItems(entries[..k]) + (if Kept(entries[k]) then [TweetItem(entries[k].tweet)] else [])
  {
    assert entries[..k + 1][..k] == entries[..k];
  }

  /** The miss path's feed for a non-empty timeline whose entries are already sorted. */
  method BuildTwitterFeed(sorted: seq<Entry>) returns (feed: Feed)
    requires sorted != []
    ensures fresh(feed)
    ensures feed.options == TwitterFeedOptions(sorted[0].tweet.user)
    ensures feed.items == TimelineItems(sorted)
  {
    feed := new Feed(TwitterFeedOptions(sorted[0].tweet.user));
    var k := 0;
    assert sorted[..0] == [];
    while k < |sorted|
      invariant 0 <= k <= |sorted|
      invariant feed.options == TwitterFeedOptions(sorted[0].tweet.user)
      invariant feed.items == TimelineItems(sorted[..k])
    {
      TimelineItemsStep(sorted, k);
      var e := sorted[k];
      if e.kind == "tweet" && !e.tweet.retweeted {
        var content := TweetContent(e.tweet.fullText);
        var title := TweetTitle(content);
        var description := DescribeTweet(content, e.tweet.urls, e.tweet.media);
        var url := "https://twitter.com" + e.tweet.permalink;
        feed.AddItem(Item(title, description, url, url, DateObject(e.tweet.createdAt), None));
      }
      k := k + 1;
    }
    assert sorted[..k] == sorted;
  }
}
