/**
 * The request handlers: `/rss?username=` (Facebook), `/twitter-rss/:username`
 * and `/facebook/image/:id`. Each handler method works on the KV store and
 * the feed objects; the function beside it states the response it gives and
 * the store it leaves. Upstream replies (the Graph API's, the syndication
 * page's embedded data) are parameters.
 */
module Handlers {
  import opened Wrappers
  import opened JsStrings
  import opened Sorting
  import opened Feeds
  import opened FeedCache
  import opened FacebookFeed
  import opened TwitterFeed

  /** What a handler answers; `Rss` stands for `feed.rss2()` of the feed it carries. */
  datatype Response =
    | Rss(options: FeedOptions, items: seq<Item>)
    | Text(body: string)
    | BadRequest(message: string)
    | ServerError
    | Redirect(location: string)

  /** A Graph API reply: the data, or an `error` object with its message. */
  datatype GraphReply<T> = GraphData(data: T) | GraphError(message: string)

  /** The syndication page: no `#__NEXT_DATA__` payload, or the timeline's entries. */
  datatype SyndicationPage = NoPayload | Timeline(entries: seq<TwitterFeed.Entry>)

  const MissingUserMessage := "Missing user query parameter"

  /** The cache-hit response: the stored feed rebuilt. */
  function HitResponse(c: CachedFeed): Response
  {
    Rss(ReviveOptions(c.feed), ReviveItems(SortBy(c.items, HitOrder)))
  }

  // ---------------------------------------------------------------------------
  // /rss
  // ---------------------------------------------------------------------------

  /** `c.req.query("username")?.toLowerCase()`, or None when that is missing or empty. */
  function RequestedUser(username: Option<string>): (r: Option<string>)
    ensures r.Some? <==> username.Some? && username.value != []
    ensures r.Some? ==> r.value == ToLower(username.value)
  {
    match username
    case None => None
    case Some(u) => if ToLower(u) == [] then None else Some(ToLower(u))
  }

  /** The two keys a Facebook miss writes. */
  function FacebookKeys(pageId: string, user: string): (Key, Key)
  {
    (Key("facebook", pageId), Key("facebook", user))
  }

  /** The response to `/rss` and the store after it, for store contents `m` at time `now`. */
  function FacebookRequest(
    m: map<Key, FeedCache.Entry>, base: string, username: Option<string>, now: int, graph: GraphReply<Profile>
  ): (Response, map<Key, FeedCache.Entry>)
  {
    match RequestedUser(username)
    case None => (BadRequest(MissingUserMessage), m)
    case Some(user) =>
      match Lookup(m, Key("facebook", user), now)
      case Some(c) => (HitResponse(c), m)
      case None =>
        match graph
        case GraphError(msg) => (BadRequest(msg), m)
        case GraphData(p) =>
          var options := FacebookFeedOptions(base, user, p, now);
          var items := FacebookItems(base, p.id, p.posts);
          var c := ToCached(options, items);
          var (byId, byUser) := FacebookKeys(p.id, user);
          (Rss(options, items), Apply(m, [Put(byId, c, CacheLifetime), Put(byUser, c, CacheLifetime)], now))
  }

  /** `GET /rss?username=…`. */
  method FacebookRss(store: KvStore, base: string, username: Option<string>, now: int, graph: GraphReply<Profile>)
    returns (r: Response)
    modifies store
    ensures (r, store.entries) == FacebookRequest(old(store.entries), base, username, now, graph)
  {
    var user := RequestedUser(username);
    if user.None? {
      return BadRequest(MissingUserMessage);
    }
    var cached := store.Get(Key("facebook", user.value), now);
    if cached.Some? {
      var feed := Rehydrate(cached.value);
      return Rss(feed.options, feed.items);
    }
    if graph.GraphError? {
      return BadRequest(graph.message);
    }
    var data := graph.data;
    var feed := BuildFacebookFeed(base, user.value, data, now);
    var value := ToCached(feed.options, feed.items);
    store.Commit([
      Put(Key("facebook", data.id), value, CacheLifetime),
      Put(Key("facebook", user.value), value, CacheLifetime)
    ], now);
    r := Rss(feed.options, feed.items);
  }

  /** The handle is looked up lower-cased: two spellings of one handle get the same answer. */
  lemma FacebookHandleCaseInsensitive(
    m: map<Key, FeedCache.Entry>, base: string, u: string, now: int, graph: GraphReply<Profile>)
    ensures FacebookRequest(m, base, Some(u), now, graph) == FacebookRequest(m, base, Some(ToLower(u)), now, graph)
  {
    ToLowerIdempotent(u);
  }

  /**
   * A Facebook miss writes one value under the page id and the handle, both
   * expiring after the cache lifetime, and changes no other key.
   */
  lemma FacebookMissWrites(m: map<Key, FeedCache.Entry>, base: string, username: Option<string>, now: int, p: Profile)
    requires RequestedUser(username).Some?
    requires Lookup(m, Key("facebook", RequestedUser(username).value), now).None?
    ensures var user := RequestedUser(username).value;
      var (r, m') := FacebookRequest(m, base, username, now, GraphData(p));
      var options := FacebookFeedOptions(base, user, p, now);
      var items := FacebookItems(base, p.id, p.posts);
      && r == Rss(options, items)
      && Key("facebook", p.id) in m' && Key("facebook", user) in m'
      && m'[Key("facebook", p.id)] == FeedCache.Entry(ToCached(options, items), now + CacheLifetime)
      && m'[Key("facebook", user)] == FeedCache.Entry(ToCached(options, items), now + CacheLifetime)
      && forall k :: k != Key("facebook", p.id) && k != Key("facebook", user) ==>
           (k in m' <==> k in m) && (k in m ==> m'[k] == m[k])
  {
    var user := RequestedUser(username).value;
    var options := FacebookFeedOptions(base, user, p, now);
    var items := FacebookItems(base, p.id, p.posts);
    DualWrite(m, Key("facebook", p.id), Key("facebook", user), ToCached(options, items), CacheLifetime, now);
  }

  /** The hit response for a value a handler stored. */
  lemma HitGivesBackFeed(options: FeedOptions, items: seq<Item>)
    requires IsLive(options, items)
    ensures HitResponse(ToCached(options, items)) == Rss(options, items)
  {
    HitRoundTrip(options, items);
  }

  /**
   * Within the cache lifetime, asking again for the handle, or for the page
   * id the Graph API reported, gives the feed the miss built, and touches
   * neither the store nor the Graph API.
   */
  lemma FacebookMissThenHit(
    m: map<Key, FeedCache.Entry>, base: string, username: Option<string>, now: int, p: Profile,
    again: Option<string>, later: int, graph: GraphReply<Profile>)
    requires RequestedUser(username).Some?
    requires Lookup(m, Key("facebook", RequestedUser(username).value), now).None?
    requires RequestedUser(again) == RequestedUser(username) || RequestedUser(again) == Some(p.id)
    requires now <= later < now + CacheLifetime
    ensures var (r, m') := FacebookRequest(m, base, username, now, GraphData(p));
      FacebookRequest(m', base, again, later, graph) == (r, m')
  {
    var user := RequestedUser(username).value;
    var options := FacebookFeedOptions(base, user, p, now);
    var items := FacebookItems(base, p.id, p.posts);
    FacebookMissWrites(m, base, username, now, p);
    FacebookFeedIsLive(base, user, p, now);
    HitGivesBackFeed(options, items);
  }

  // ---------------------------------------------------------------------------
  // /twitter-rss/:username
  // ---------------------------------------------------------------------------

  /** The response to `/twitter-rss/:username` and the store after it. */
  function TwitterRequest(m: map<Key, FeedCache.Entry>, username: string, now: int, page: SyndicationPage)
    : (Response, map<Key, FeedCache.Entry>)
  {
    var user := ToLower(username);
    match Lookup(m, Key("twitter", user), now)
    case Some(c) => (HitResponse(c), m)
    case None =>
      match page
      case NoPayload => (ServerError, m)
      case Timeline(entries) =>
        if entries == [] then (Text(""), m)
        else
          var sorted := SortBy(entries, ByCreatedDescending);
          var options := TwitterFeedOptions(sorted[0].tweet.user);
          var items := TimelineItems(sorted);
          (Rss(options, items), Apply(m, [Put(Key("twitter", user), ToCached(options, items), CacheLifetime)], now))
  }

  /** `GET /twitter-rss/:username`. */
  method TwitterRss(store: KvStore, username: string, now: int, page: SyndicationPage) returns (r: Response)
    modifies store
    ensures (r, store.entries) == TwitterRequest(old(store.entries), username, now, page)
  {
    var user := ToLower(username);
    var cached := store.Get(Key("twitter", user), now);
    if cached.Some? {
      var feed := Rehydrate(cached.value);
      return Rss(feed.options, feed.items);
    }
    if page.NoPayload? {
      return ServerError;
    }
    var entries := page.entries;
    if |entries| < 1 {
      return Text("");
    }
    entries := SortBy(entries, ByCreatedDescending);
    assert |entries| == |page.entries| by {
      assert |multiset(entries)| == |multiset(page.entries)|;
    }
    var feed := BuildTwitterFeed(entries);
    store.SetBlob(Key("twitter", user), ToCached(feed.options, feed.items), CacheLifetime, now);
    r := Rss(feed.options, feed.items);
  }

  /** An empty timeline answers an empty body and writes nothing. */
  lemma TwitterEmptyTimeline(m: map<Key, FeedCache.Entry>, username: string, now: int)
    requires Lookup(m, Key("twitter", ToLower(username)), now).None?
    ensures TwitterRequest(m, username, now, Timeline([])) == (Text(""), m)
  {
  }

  /**
   * A Twitter miss on a non-empty timeline writes only the lower-cased
   * handle's key, and answers one item per kept tweet, newest first.
   */
  lemma TwitterMissWrites(m: map<Key, FeedCache.Entry>, username: string, now: int, entries: seq<TwitterFeed.Entry>)
    requires Lookup(m, Key("twitter", ToLower(username)), now).None?
    requires entries != []
    ensures var (r, m') := TwitterRequest(m, username, now, Timeline(entries));
      var k0 := Key("twitter", ToLower(username));
      && r.Rss?
      && |r.items| == |KeptEntries(SortBy(entries, ByCreatedDescending))|
      && (forall i, j :: 0 <= i < j < |r.items| ==> r.items[i].date.time >= r.items[j].date.time)
      && k0 in m' && m'[k0] == FeedCache.Entry(ToCached(r.options, r.items), now + CacheLifetime)
      && forall k :: k != k0 ==> (k in m' <==> k in m) && (k in m ==> m'[k] == m[k])
  {
    var sorted := SortBy(entries, ByCreatedDescending);
    var options := TwitterFeedOptions(sorted[0].tweet.user);
    var items := TimelineItems(sorted);
    TimelineItemsOfKept(sorted);
    TimelineItemsNewestFirst(entries);
    SingleWrite(m, Key("twitter", ToLower(username)), ToCached(options, items), CacheLifetime, now);
  }

  /** Within the cache lifetime, the same handle in any letter case gets the feed the miss built. */
  lemma TwitterMissThenHit(
    m: map<Key, FeedCache.Entry>, username: string, now: int, entries: seq<TwitterFeed.Entry>,
    again: string, later: int, page: SyndicationPage)
    requires Lookup(m, Key("twitter", ToLower(username)), now).None?
    requires entries != []
    requires ToLower(again) == ToLower(username)
    requires now <= later < now + CacheLifetime
    ensures var (r, m') := TwitterRequest(m, username, now, Timeline(entries));
      TwitterRequest(m', again, later, page) == (r, m')
  {
    var sorted := SortBy(entries, ByCreatedDescending);
    var options := TwitterFeedOptions(sorted[0].tweet.user);
    var items := TimelineItems(sorted);
    SingleWrite(m, Key("twitter", ToLower(username)), ToCached(options, items), CacheLifetime, now);
    TimelineItemsAreLive(sorted);
    HitGivesBackFeed(options, items);
  }

  // ---------------------------------------------------------------------------
  // /facebook/image/:id
  // ---------------------------------------------------------------------------

  /** `GET /facebook/image/:id`: a redirect to the image of the largest area. */
  function ImageRoute(reply: GraphReply<seq<Image>>): (r: Response)
    ensures reply.GraphError? ==> r == BadRequest(reply.message)
    ensures reply.GraphData? && reply.data == [] ==> r == ServerError
    ensures reply.GraphData? && reply.data != [] ==> r.Redirect?
  {
    match reply
    case GraphError(msg) => BadRequest(msg)
    case GraphData(images) =>
      match LargestImage(images)
      case None => ServerError
      case Some(best) => Redirect(best.source)
  }

  /** The redirect goes to the first of the largest images. */
  lemma ImageRouteLargest(images: seq<Image>)
    requires images != []
    ensures var r := ImageRoute(GraphData(images));
      exists i :: 0 <= i < |images| && r == Redirect(images[i].source)
        && (forall j :: 0 <= j < |images| ==> Area(images[j]) <= Area(images[i]))
        && (forall j :: 0 <= j < i ==> Area(images[j]) < Area(images[i]))
  {
    LargestImageIsFirstLargest(images);
  }
}
