/**
 * The Facebook side of the `/rss` handler: the Graph API shapes the handler
 * reads, the media fragments it appends for a post's attachments, the item
 * it builds for each post, the feed options, and the choice of the largest
 * image for `/facebook/image/:id`.
 */
module FacebookFeed {
  import opened Wrappers
  import opened JsStrings
  import opened JsValues
  import opened Sorting
  import opened ContentNormalizer
  import opened Feeds

  datatype Target = Target(id: string, url: string)

  /** An attachment inside an album; its `type` is `kind`. */
  datatype Subattachment = Subattachment(kind: string, target: Target)

  /** A post attachment; only albums carry subattachments. */
  datatype Attachment = Attachment(kind: string, target: Target, subattachments: seq<Subattachment>)

  /** A post; `createdTime` is `created_time` as a time value. */
  datatype Post = Post(
    id: string,
    createdTime: int,
    message: Option<string>,
    story: Option<string>,
    permalinkUrl: string,
    attachments: Option<seq<Attachment>>)

  datatype Profile = Profile(id: string, name: string, about: string, link: string, posts: seq<Post>)

  /** One entry of an image collection. */
  datatype Image = Image(height: int, width: int, source: string)

  // ---------------------------------------------------------------------------
  // Attachments
  // ---------------------------------------------------------------------------

  /** The photo-like types, `profile_media` included. */
  predicate IsPhotoKind(kind: string)
  {
    kind == "photo" || kind == "cover_photo" || kind == "profile_media"
  }

  predicate IsVideoKind(kind: string)
  {
    kind == "video_autoplay" || kind == "video_direct_response_autoplay"
  }

  /** A media reference the description points at, through this server's proxy routes. */
  datatype MediaRef = ImageRef(id: string) | VideoRef(id: string)

  /** The reference one target of type `kind` gives: one for a photo or video, none otherwise. */
  function MediaRefOf(kind: string, target: Target): (r: seq<MediaRef>)
    ensures |r| <= 1
    ensures r == [] <==> !IsPhotoKind(kind) && !IsVideoKind(kind)
  {
    if IsPhotoKind(kind) then [ImageRef(target.id)]
    else if IsVideoKind(kind) then [VideoRef(target.id)]
    else []
  }

  /** The concatenation of `f` over `s`, in order. */
  function FlatMap<A, B>(f: A -> seq<B>, s: seq<A>): seq<B>
  {
    if |s| == 0 then [] else FlatMap(f, s[..|s| - 1]) + f(s[|s| - 1])
  }

  lemma {:induction false} FlatMapAppend<A, B>(f: A -> seq<B>, a: seq<A>, b: seq<A>)
    ensures FlatMap(f, a + b) == FlatMap(f, a) + FlatMap(f, b)
    decreases |b|
  {
    if |b| == 0 {
      assert a + b == a;
    } else {
      var b' := b[..|b| - 1];
      assert (a + b)[..|a + b| - 1] == a + b';
      FlatMapAppend(f, a, b');
      ConcatAssoc(FlatMap(f, a), FlatMap(f, b'), f(b[|b| - 1]));
    }
  }

  lemma FlatMapStep<A, B>(f: A -> seq<B>, s: seq<A>, k: nat)
    requires k < |s|
    ensures FlatMap(f, s[..k + 1]) == FlatMap(f, s[..k]) + f(s[k])
  {
    assert s[..k + 1][..k] == s[..k];
  }

  /** Every element of the concatenation comes from the image of some element of `s`. */
  lemma {:induction false} FlatMapSource<A, B>(f: A -> seq<B>, s: seq<A>, r: B) returns (i: nat)
    requires r in FlatMap(f, s)
    ensures i < |s| && r in f(s[i])
    decreases |s|
  {
    var n := |s| - 1;
    var init := s[..n];
    if r in FlatMap(f, init) {
      i := FlatMapSource(f, init, r);
      assert s[i] == init[i];
    } else {
      i := n;
    }
  }

  /** The image of every element of `s` is in the concatenation. */
  lemma FlatMapInclude<A, B>(f: A -> seq<B>, s: seq<A>, i: nat, r: B)
    requires i < |s| && r in f(s[i])
    ensures r in FlatMap(f, s)
  {
    var x := s[i];
    assert s == s[..i] + [x] + s[i + 1..];
    FlatMapAppend(f, s[..i] + [x], s[i + 1..]);
    FlatMapAppend(f, s[..i], [x]);
    assert [x][..0] == [];
  }

  lemma {:induction false} FlatMapEmpty<A, B>(f: A -> seq<B>, s: seq<A>)
    requires forall i :: 0 <= i < |s| ==> f(s[i]) == []
    ensures FlatMap(f, s) == []
    decreases |s|
  {
    if |s| > 0 {
      FlatMapEmpty(f, s[..|s| - 1]);
    }
  }

  function SubattachmentRefs(sub: Subattachment): seq<MediaRef>
  {
    MediaRefOf(sub.kind, sub.target)
  }

  /** The references of an album's subattachments, in order; an album nested in an album gives none. */
  function AlbumRefs(subs: seq<Subattachment>): seq<MediaRef>
  {
    FlatMap(SubattachmentRefs, subs)
  }

  function AttachmentRefs(a: Attachment): seq<MediaRef>
  {
    if a.kind == "album" then AlbumRefs(a.subattachments) else MediaRefOf(a.kind, a.target)
  }

  /** The references of a list of attachments, in order. */
  function Refs(atts: seq<Attachment>): seq<MediaRef>
  {
    FlatMap(AttachmentRefs, atts)
  }

  /** `new URL(path, base)` with `base` an origin. */
  function MediaUrl(base: string, r: MediaRef): string
  {
    match r
    case ImageRef(id) => base + "/facebook/image/" + id
    case VideoRef(id) => base + "/facebook/video/" + id
  }

  function Fragment(base: string, r: MediaRef): string
  {
    "\n<br><img src=\"" + MediaUrl(base, r) + "\">"
  }

  /** The fragments of a list of references, in order. */
  function Markup(base: string, refs: seq<MediaRef>): string
  {
    FlatMap(FragmentAt(base), refs)
  }

  /** The fragment of each reference, for the origin `base`. */
  function FragmentAt(base: string): MediaRef -> string
  {
    r => Fragment(base, r)
  }

  lemma MarkupAppend(base: string, a: seq<MediaRef>, b: seq<MediaRef>)
    ensures Markup(base, a + b) == Markup(base, a) + Markup(base, b)
  {
    FlatMapAppend(FragmentAt(base), a, b);
  }

  /** Attachments are resolved in order: the refs of a concatenation are the concatenation of refs. */
  lemma RefsAppend(a: seq<Attachment>, b: seq<Attachment>)
    ensures Refs(a + b) == Refs(a) + Refs(b)
  {
    FlatMapAppend(AttachmentRefs, a, b);
  }

  /** An album reference comes from exactly a photo- or video-typed subattachment. */
  lemma AlbumRefsMembership(subs: seq<Subattachment>, r: MediaRef)
    ensures r in AlbumRefs(subs)
      <==> exists j :: 0 <= j < |subs| && r in MediaRefOf(subs[j].kind, subs[j].target)
  {
    if r in AlbumRefs(subs) {
      var j := FlatMapSource(SubattachmentRefs, subs, r);
      assert r in MediaRefOf(subs[j].kind, subs[j].target);
    }
    if j :| 0 <= j < |subs| && r in MediaRefOf(subs[j].kind, subs[j].target) {
      assert r in SubattachmentRefs(subs[j]);
      FlatMapInclude(SubattachmentRefs, subs, j, r);
    }
  }

  /**
   * A post's media references are exactly those of its photo and video
   * attachments and of the photo and video subattachments of its albums.
   */
  lemma RefsMembership(atts: seq<Attachment>, r: MediaRef)
    ensures r in Refs(atts) <==> exists i :: 0 <= i < |atts| && r in AttachmentRefs(atts[i])
  {
    if r in Refs(atts) {
      var i := FlatMapSource(AttachmentRefs, atts, r);
    }
    if i :| 0 <= i < |atts| && r in AttachmentRefs(atts[i]) {
      FlatMapInclude(AttachmentRefs, atts, i, r);
    }
  }

  /** Attachments of any other type contribute nothing. */
  lemma RefsOfOtherKinds(atts: seq<Attachment>)
    requires forall i :: 0 <= i < |atts| ==>
      atts[i].kind != "album" && !IsPhotoKind(atts[i].kind) && !IsVideoKind(atts[i].kind)
    ensures Refs(atts) == []
  {
    forall i | 0 <= i < |atts| ensures AttachmentRefs(atts[i]) == [] {
    }
    FlatMapEmpty(AttachmentRefs, atts);
  }

  lemma AlbumRefsStep(subs: seq<Subattachment>, j: nat)
    requires j < |subs|
    ensures AlbumRefs(subs[..j + 1]) == AlbumRefs(subs[..j]) + MediaRefOf(subs[j].kind, subs[j].target)
  {
    FlatMapStep(SubattachmentRefs, subs, j);
  }

  lemma RefsStep(atts: seq<Attachment>, i: nat)
    requires i < |atts|
    ensures Refs(atts[..i + 1]) == Refs(atts[..i]) + AttachmentRefs(atts[i])
  {
    FlatMapStep(AttachmentRefs, atts, i);
  }

  lemma MarkupOne(base: string, r: MediaRef)
    ensures Markup(base, [r]) == Fragment(base, r)
  {
    assert [r][..0] == [];
    assert FlatMap(FragmentAt(base), [r]) == FlatMap(FragmentAt(base), []) + FragmentAt(base)(r);
  }

  /** Appending the fragments of one more list of references. */
  lemma MarkupExtend(base: string, description: string, done: seq<MediaRef>, more: seq<MediaRef>)
    ensures description + Markup(base, done) + Markup(base, more) == description + Markup(base, done + more)
  {
    MarkupAppend(base, done, more);
  }

  /** The subattachment loop of an album: one fragment per photo or video, appended in order. */
  method AppendAlbum(base: string, description: string, subs: seq<Subattachment>) returns (d: string)
    ensures d == description + Markup(base, AlbumRefs(subs))
  {
    d := description;
    var j := 0;
    assert subs[..0] == [];
    assert description + Markup(base, []) == description;
    while j < |subs|
      invariant 0 <= j <= |subs|
      invariant d == description + Markup(base, AlbumRefs(subs[..j]))
    {
      var sub := subs[j];
      var more := MediaRefOf(sub.kind, sub.target);
      AlbumRefsStep(subs, j);
      MarkupExtend(base, description, AlbumRefs(subs[..j]), more);
      if IsPhotoKind(sub.kind) {
        MarkupOne(base, ImageRef(sub.target.id));
        d := d + Fragment(base, ImageRef(sub.target.id));
      } else if IsVideoKind(sub.kind) {
        MarkupOne(base, VideoRef(sub.target.id));
        d := d + Fragment(base, VideoRef(sub.target.id));
      } else {
        assert Markup(base, more) == [];
      }
      assert d == description + Markup(base, AlbumRefs(subs[..j])) + Markup(base, more);
      j := j + 1;
    }
    assert subs[..j] == subs;
  }

  /** One turn of the attachment loop: a photo or video fragment, or an album's fragments. */
  method AppendAttachment(base: string, description: string, a: Attachment) returns (d: string)
    ensures d == description + Markup(base, AttachmentRefs(a))
  {
    if IsPhotoKind(a.kind) {
      MarkupOne(base, ImageRef(a.target.id));
      d := description + Fragment(base, ImageRef(a.target.id));
    } else if IsVideoKind(a.kind) {
      MarkupOne(base, VideoRef(a.target.id));
      d := description + Fragment(base, VideoRef(a.target.id));
    } else if a.kind == "album" {
      d := AppendAlbum(base, description, a.subattachments);
    } else {
      d := description;
    }
  }

  /** The attachment loop: one fragment per media item, appended to `description`. */
  method AppendAttachments(base: string, description: string, atts: seq<Attachment>) returns (d: string)
    ensures d == description + Markup(base, Refs(atts))
  {
    d := description;
    var i := 0;
    assert atts[..0] == [];
    assert description + Markup(base, []) == description;
    while i < |atts|
      invariant 0 <= i <= |atts|
      invariant d == description + Markup(base, Refs(atts[..i]))
    {
      var more := AttachmentRefs(atts[i]);
      RefsStep(atts, i);
      MarkupExtend(base, description, Refs(atts[..i]), more);
      d := AppendAttachment(base, d, atts[i]);
      assert d == description + Markup(base, Refs(atts[..i + 1]));
      i := i + 1;
    }
    assert atts[..i] == atts;
  }

  // ---------------------------------------------------------------------------
  // Items and feed
  // ---------------------------------------------------------------------------

  /** `id.split("_")[1]`, rendered by the template literal: "undefined" when there is no `_`. */
  function PostId(id: string): string
  {
    var parts := Split(id, "_");
    if |parts| > 1 then parts[1] else "undefined"
  }

  /** For a Graph post id `{page}_{post}`, the post part. */
  lemma PostIdOfGraphId(page: string, post: string)
    requires '_' !in page && '_' !in post
    ensures PostId(page + "_" + post) == post
  {
    SplitCharConcat(page, '_', post);
    SplitCharAbsent(post, '_');
  }

  lemma PostIdWithoutUnderscore(id: string)
    requires '_' !in id
    ensures PostId(id) == "undefined"
  {
    SplitCharAbsent(id, '_');
  }

  /** `post.message ?? post.story ?? ""`. */
  function PostText(post: Post): string
  {
    match post.message
    case Some(m) => m
    case None => match post.story
      case Some(s) => s
      case None => ""
  }

  function PostUrl(pageId: string, post: Post): string
  {
    "https://facebook.com/" + pageId + "/posts/" + PostId(post.id)
  }

  function PostAttachments(post: Post): seq<Attachment>
  {
    match post.attachments
    case None => []
    case Some(atts) => atts
  }

  /** The item for one post of page `pageId`. */
  function FacebookItem(base: string, pageId: string, post: Post): Item
  {
    var content := FacebookContent(pageId, PostText(post));
    Item(
      PostTitle(content),
      Body(content) + Markup(base, Refs(PostAttachments(post))),
      PostUrl(pageId, post),
      PostUrl(pageId, post),
      DateObject(post.createdTime),
      None)
  }

  /**
   * What an item says about its post: the title is the content's first
   * paragraph, the description is the content with `<br>` breaks followed by
   * the media fragments, link and id are the same permalink, and the date is
   * the post's creation time.
   */
  lemma FacebookItemShape(base: string, pageId: string, post: Post)
    ensures var item := FacebookItem(base, pageId, post);
      var content := FacebookContent(pageId, PostText(post));
      && item.title <= content && !Contains(item.title, "\n\n")
      && (item.title == content || "\n\n" <= content[|item.title|..])
      && Body(content) <= item.description
      && ReplaceAll(item.description[..|Body(content)|], "<br>\n", "\n") == content
      && item.description[|Body(content)|..] == Markup(base, Refs(PostAttachments(post)))
      && item.link == item.id
      && item.date == DateObject(post.createdTime) && item.published.None?
  {
    var content := FacebookContent(pageId, PostText(post));
    BodyRoundTrip(pageId, PostText(post));
    var d := FacebookItem(base, pageId, post).description;
    assert d[..|Body(content)|] == Body(content);
  }

  /** The item-building step of the posts loop. */
  method BuildItem(base: string, pageId: string, post: Post) returns (item: Item)
    ensures item == FacebookItem(base, pageId, post)
  {
    var content := FacebookContent(pageId, PostText(post));
    var title := PostTitle(content);
    var description := Body(content);
    if post.attachments.Some? {
      description := AppendAttachments(base, description, post.attachments.value);
    }
    var url := "https://facebook.com/" + pageId + "/posts/" + PostId(post.id);
    item := Item(title, description, url, url, DateObject(post.createdTime), None);
  }

  /** One item per post, in the order the Graph API returned them. */
  function FacebookItems(base: string, pageId: string, posts: seq<Post>): seq<Item>
  {
    ItemsOf(ItemFor(base, pageId), posts)
  }

  function ItemFor(base: string, pageId: string): Post -> Item
  {
    post => FacebookItem(base, pageId, post)
  }

  /** `posts.map(f)`, one post at a time. */
  function ItemsOf(f: Post -> Item, posts: seq<Post>): seq<Item>
  {
    if |posts| == 0 then [] else ItemsOf(f, posts[..|posts| - 1]) + [f(posts[|posts| - 1])]
  }

  lemma {:induction false} ItemsOfPerPost(f: Post -> Item, posts: seq<Post>)
    ensures |ItemsOf(f, posts)| == |posts|
    ensures forall k :: 0 <= k < |posts| ==> ItemsOf(f, posts)[k] == f(posts[k])
    decreases |posts|
  {
    if |posts| > 0 {
      ItemsOfPerPost(f, posts[..|posts| - 1]);
    }
  }

  /** Exactly one item per post, the k-th item built from the k-th post. */
  lemma FacebookItemsPerPost(base: string, pageId: string, posts: seq<Post>)
    ensures |FacebookItems(base, pageId, posts)| == |posts|
    ensures forall k :: 0 <= k < |posts| ==> FacebookItems(base, pageId, posts)[k] == FacebookItem(base, pageId, posts[k])
  {
    ItemsOfPerPost(ItemFor(base, pageId), posts);
  }

  /** The feed options of a page fetched for handle `user` at time `now`. */
  function FacebookFeedOptions(base: string, user: string, profile: Profile, now: int): FeedOptions
  {
    FeedOptions(
      profile.name,
      profile.about,
      profile.id,
      profile.link,
      Some(DateObject(now)),
      base + "/facebook/profile-picture/" + EncodeUriComponent(user),
      "")
  }

  /** A freshly built Facebook feed holds only Date objects, so the cache keeps it exactly. */
  lemma FacebookFeedIsLive(base: string, user: string, profile: Profile, now: int)
    ensures IsLive(FacebookFeedOptions(base, user, profile, now), FacebookItems(base, profile.id, profile.posts))
  {
    FacebookItemsPerPost(base, profile.id, profile.posts);
  }

  lemma FacebookItemsStep(base: string, pageId: string, posts: seq<Post>, k: nat)
    requires k < |posts|
    ensures FacebookItems(base, pageId, posts[..k + 1])
      == FacebookItems(base, pageId, posts[..k]) + [FacebookItem(base, pageId, posts[k])]
  {
    assert posts[..k + 1][..k] == posts[..k];
    assert ItemFor(base, pageId)(posts[k]) == FacebookItem(base, pageId, posts[k]);
  }

  /** The miss path's feed: options, then one `addItem` per post. */
  method BuildFacebookFeed(base: string, user: string, profile: Profile, now: int) returns (feed: Feed)
    ensures fresh(feed)
    ensures feed.options == FacebookFeedOptions(base, user, profile, now)
    ensures feed.items == FacebookItems(base, profile.id, profile.posts)
  {
    feed := new Feed(FacebookFeedOptions(base, user, profile, now));
    var posts := profile.posts;
    var k := 0;
    while k < |posts|
      invariant 0 <= k <= |posts|
      invariant feed.options == FacebookFeedOptions(base, user, profile, now)
      invariant feed.items == FacebookItems(base, profile.id, posts[..k])
    {
      var item := BuildItem(base, profile.id, posts[k]);
      FacebookItemsStep(base, profile.id, posts, k);
      feed.AddItem(item);
      k := k + 1;
    }
    assert posts[..k] == posts;
  }

  // ---------------------------------------------------------------------------
  // Best image
  // ---------------------------------------------------------------------------

  function Area(i: Image): int
  {
    i.height * i.width
  }

  /** `(a, b) => (b.height * b.width) - (a.height * a.width)`. */
  function ByAreaDescending(a: Image, b: Image): int
  {
    Area(b) - Area(a)
  }

  /** `images[0]` after sorting by area, largest first. */
  function LargestImage(images: seq<Image>): (r: Option<Image>)
    ensures r.None? <==> images == []
  {
    var sorted := SortBy(images, ByAreaDescending);
    if sorted == [] then None else Some(sorted[0])
  }

  lemma {:induction false} WithKeyNone<T>(s: seq<T>, key: T -> int, k: int)
    requires forall j :: 0 <= j < |s| ==> key(s[j]) != k
    ensures WithKey(s, key, k) == []
    decreases |s|
  {
    if s != [] {
      WithKeyNone(s[..|s| - 1], key, k);
    }
  }

  lemma {:induction false} WithKeyFirst<T>(s: seq<T>, key: T -> int, k: int, i: nat)
    requires i < |s| && key(s[i]) == k
    requires forall j :: 0 <= j < i ==> key(s[j]) != k
    ensures WithKey(s, key, k) != [] && WithKey(s, key, k)[0] == s[i]
    decreases |s|
  {
    var init := s[..|s| - 1];
    if i < |init| {
      WithKeyFirst(init, key, k, i);
    } else {
      WithKeyNone(init, key, k);
    }
  }

  lemma SortedFirstIsLargest(images: seq<Image>)
    requires images != []
    ensures var b := SortBy(images, ByAreaDescending)[0];
      b in images && forall j :: 0 <= j < |images| ==> Area(images[j]) <= Area(b)
  {
    var sorted := SortBy(images, ByAreaDescending);
    assert DescendingBy(ByAreaDescending, Area);
    SortByDescending(images, ByAreaDescending, Area);
    var b := sorted[0];
    assert b in multiset(images);
    forall j | 0 <= j < |images| ensures Area(images[j]) <= Area(b) {
      assert images[j] in multiset(sorted);
      var m :| 0 <= m < |sorted| && sorted[m] == images[j];
      if m > 0 {
        assert Area(sorted[0]) >= Area(sorted[m]);
      }
    }
  }

  /** The first position of an image with area `k`. */
  lemma {:induction false} FirstWithArea(images: seq<Image>, k: int) returns (i: nat)
    requires exists j :: 0 <= j < |images| && Area(images[j]) == k
    ensures i < |images| && Area(images[i]) == k
    ensures forall j :: 0 <= j < i ==> Area(images[j]) != k
    decreases |images|
  {
    if Area(images[0]) == k {
      i := 0;
    } else {
      var w :| 0 <= w < |images| && Area(images[w]) == k;
      assert Area(images[1..][w - 1]) == k;
      var rest := FirstWithArea(images[1..], k);
      i := rest + 1;
      forall j | 0 <= j < i ensures Area(images[j]) != k {
        if j > 0 {
          assert images[j] == images[1..][j - 1];
        }
      }
    }
  }

  /**
   * The redirect goes to an image of the largest area, and to the first
   * such image in the list the Graph API returned (the sort is stable).
   */
  lemma LargestImageIsFirstLargest(images: seq<Image>)
    requires images != []
    ensures var b := LargestImage(images).value;
      exists i :: 0 <= i < |images| && images[i] == b
        && (forall j :: 0 <= j < |images| ==> Area(images[j]) <= Area(b))
        && (forall j :: 0 <= j < i ==> Area(images[j]) < Area(b))
  {
    var sorted := SortBy(images, ByAreaDescending);
    var b := sorted[0];
    SortedFirstIsLargest(images);
    var i0 := FirstWithArea(images, Area(b));
    WithKeyFirst(images, Area, Area(b), i0);
    WithKeyFirst(sorted, Area, Area(b), 0);
    assert DescendingBy(ByAreaDescending, Area);
    SortByStable(images, ByAreaDescending, Area, Area(b));
    assert images[i0] == b;
  }
}
