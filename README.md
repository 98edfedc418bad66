# facebook-feed-to-rss, modelled in Dafny

facebook-feed-to-rss is a small Deno web service. It turns a Facebook page's posts, fetched
from the Graph API, and a Twitter user's timeline, scraped from the syndication page, into RSS
feeds. Generated feeds are cached in Deno KV for 30 minutes, and a nightly cron job empties the
cache. The service also redirects `/facebook/image/:id` to the largest rendition of a photo. A
companion module, `cookies.ts`, loads a Netscape/Mozilla `cookies.txt` file into a cookie jar.

The model covers the request handlers' feed pipeline in `main.ts` and the cookie-file parser in
`cookies.ts`:

- `JsStrings`, `JsValues` and `Sorting` give the JavaScript built-ins the code relies on:
  - `split`, `join`, `replaceAll`, `replace`, `trim` and `toLowerCase`;
  - `Number()`, the `Date` value and its JSON form, `TimeClip`, `toUTCString` and
    `encodeURIComponent`;
  - `Array.prototype.sort`, as the stable sort of ECMA-262 whose SortCompare reads a `NaN`
    comparator result as +0.
- `ContentNormalizer` holds the text pipeline:
  - the five-character HTML escape chain followed by `trim`;
  - the cut of the two bilingual pages at their first all-dash line;
  - the titles (the text before the first blank line for Facebook, before the first line break
    for Twitter) and the `<br>` bodies.
- `FacebookFeed` covers several steps:
  - the attachment walk, written as imperative methods over the description string;
  - post ids, items and the feed;
  - the choice of the largest image.
- `TwitterFeed` covers the timeline:
  - the tweet filter and the URL and media substitutions;
  - items and the feed, with the entries sorted newest first.
- `Feeds` holds the `Feed` object with its `addItem`, and the JSON form that the cache stores.
  It also holds the rebuild on a cache hit.
- `FeedCache` models Deno KV as a map from keys to (value, expiry), with atomic batches. Its
  `KvStore` class offers `get`, `set`, `list` and the nightly eviction.
- `Handlers` models the `/rss`, `/twitter-rss/:username` and `/facebook/image/:id` handlers.
  Each is a method on the store, checked against a function that gives the response and the
  store it leaves behind.
- `Cookies` models `parseMozillaCookies`:
  - the header check and the row split on `\r?\n`;
  - the skipped comment and blank rows;
  - the `Set-Cookie` string of each row, in the cookie syntax of section 4.1.1 of RFC 6265, and
    its URL;
  - the jar, as the sequence of `setCookie` calls it received.

Upstream replies are parameters of the handlers: the Graph API's data or its `error`, and the
syndication page's timeline or a missing payload. So is the clock.

Behaviour of the code worth knowing:

- On a cache hit, the stored items are sorted before their dates are turned back into `Date`
  objects, so the comparator subtracts two strings and gets `NaN`. The sort therefore keeps the
  stored order (`Feeds.HitSortKeepsStoredOrder`): the hit path does not re-sort.
- An attachment's `target.id` is read unconditionally (main.ts:291-323). No attachment is
  dropped for lacking a target; the types say every attachment has one.
- The post id in a Facebook link is `post.id.split("_")[1]`: the second `_`-separated segment,
  or the text `undefined` when the id has no `_` (`FacebookFeed.PostIdWithoutUnderscore`).
- Rows starting with `#HttpOnly_` get the `HttpOnly` attribute, but they are then skipped
  because they start with `#`. No `setCookie` call carries `HttpOnly`
  (`Cookies.HttpOnlyRowsSkipped`).

## Model

| member | source | states |
|---|---|---|
| JsStrings.PrefixExtends | cookies.ts:17 | a content that starts with a prefix still does after more text is appended |
| JsStrings.Split | main.ts:264 | `split` with a non-empty separator gives at least one piece |
| JsStrings.SplitCharAbsent | main.ts:264 | splitting on a character the text lacks gives the whole text |
| JsStrings.SplitCharConcat | cookies.ts:36 | splitting `a + c + b` on `c`, with `c` absent from `a`, gives `a` followed by the pieces of `b` |
| JsStrings.SplitJoinChar | cookies.ts:36 | splitting on `c` the join by `c` of pieces free of `c` gives back the pieces |
| JsStrings.JoinAvoids | cookies.ts:36 | a character absent from every piece and from the separator is absent from the join |
| JsStrings.FirstPiece | main.ts:281 | the first piece is a prefix free of the separator, and is the whole text or is followed by the separator |
| JsStrings.SplitHead | main.ts:281 | `split(sep)[0]` is a prefix free of the separator, and is the whole text or is followed by it |
| JsStrings.SplitPiecesFree | main.ts:276 | no piece of a split contains the separator |
| JsStrings.ReplaceAllIsSplitJoin | main.ts:473 | `replaceAll(p, r)` equals `split(p).join(r)` |
| JsStrings.ReplaceAllSelf | main.ts:473 | replacing every occurrence of a pattern by itself changes nothing |
| JsStrings.SplitJoinRoundTrip | main.ts:276 | joining the pieces of a split with the separator gives back the text |
| JsStrings.SplitSingleIff | main.ts:281 | a split has one piece exactly when the text does not contain the separator |
| JsStrings.ReplaceFirstSplit | main.ts:277 | `replace(p, r)` puts `r` between the first piece and the rejoined rest, or leaves the text alone when `p` is absent |
| JsStrings.ReplaceFirstAtStart | main.ts:277 | for a text starting with the pattern, `replace` swaps that occurrence for the replacement |
| JsStrings.ReplaceAllAbsent | main.ts:477 | `replaceAll` of an absent pattern changes nothing |
| JsStrings.ReplaceAllKeepsSuffix | main.ts:477-478 | `replaceAll` leaves untouched a suffix that holds no occurrence and cannot complete one |
| JsStrings.ReplaceAllOneChar | main.ts:267-271 | `replaceAll` of a one-character pattern replaces each occurrence of that character |
| JsStrings.ReplaceCharAppend | main.ts:282 | replacing a character distributes over concatenation |
| JsStrings.TrimStart | main.ts:272 | the result is a suffix, what was dropped is whitespace, and it does not start with whitespace |
| JsStrings.TrimEnd | main.ts:272 | the result is a prefix, what was dropped is whitespace, and it does not end with whitespace |
| JsStrings.TrimSlice | main.ts:272 | `trim` gives a contiguous slice of its input |
| JsStrings.TrimEdges | main.ts:272 | `trim` drops only whitespace at both ends and leaves no whitespace at either end |
| JsStrings.TrimIdempotent | main.ts:278 | trimming twice is trimming once |
| JsStrings.ToLower | main.ts:180 | the lower-cased text has the same length, no ASCII capital, and changes only capitals |
| JsStrings.ToLowerIdempotent | main.ts:370 | lower-casing twice is lower-casing once |
| JsValues.Digits | cookies.ts:40 | the decimal form of a number is a non-empty string of digits |
| JsValues.DecimalValueOfDigits | cookies.ts:40 | the value of the decimal form of `n` is `n` |
| JsValues.DigitsNotWhitespace | cookies.ts:40 | trimming a decimal form leaves it unchanged |
| JsValues.NumberOfDigits | cookies.ts:40 | `Number()` of the decimal form of `n` is `n` |
| JsValues.ValueInSubtraction | main.ts:206 | subtracting a date field gives a finite number exactly when it is a Date object rather than its JSON string |
| JsValues.PaddedValue | cookies.ts:58 | a `toUTCString` field is the digits of its number, zero-padded to exactly the width unless it is longer already |
| JsValues.HexChar | main.ts:257 | a hex digit of a percent escape is an upper-case hex character |
| JsValues.Utf8 | main.ts:257 | UTF-8 encoding gives bytes |
| JsValues.PercentEncoded | main.ts:257 | a percent-encoded byte string holds only `%` and upper-case hex digits |
| JsValues.EncodeUriComponent | main.ts:257 | the encoded text holds only unreserved characters and `%`, is no shorter, and is the input itself when the input holds only unreserved characters |
| Sorting.Insert | main.ts:437-440 | inserting adds exactly the element to the multiset |
| Sorting.SortBy | main.ts:437-440 | the sort is a permutation of its input |
| Sorting.InsertSorted | main.ts:437-440 | inserting into a descending list keeps it descending under a descending comparator |
| Sorting.SortByDescending | main.ts:437-440 | with a comparator `b - a` on a key, the sort orders by that key descending |
| Sorting.InsertWithKey | main.ts:115 | insertion keeps the relative order of the elements that share a key |
| Sorting.SortByStable | main.ts:115 | the sort is stable: the elements of each key keep their input order |
| Sorting.SortByNeverAfter | main.ts:206 | a comparator that never answers "after" leaves the list as it is |
| ContentNormalizer.EscapeChar | main.ts:267-271 | the escape of one character holds no `<`, `>`, `"` or `'` |
| ContentNormalizer.EscapeEach | main.ts:267-271 | escaping each character leaves no markup character and does not shorten the text |
| ContentNormalizer.ChainIsEscapeEach | main.ts:267-271 | the chain of five `replaceAll` calls, `&` first, escapes each character on its own |
| ContentNormalizer.EscapeHtmlIsEscapeEach | main.ts:267-271 | the escape chain equals the per-character escape |
| ContentNormalizer.EscapeHtmlNoMarkup | main.ts:267-271 | no raw `<`, `>`, `"` or `'` is left after escaping |
| ContentNormalizer.UnescapeEscape | main.ts:267-271 | decoding the five entities after escaping gives back the text, so no character is escaped twice |
| ContentNormalizer.EscapeAmpersand | main.ts:267 | an `&` between plain text becomes `&amp;` and nothing else changes |
| ContentNormalizer.EscapeTomAndJerry | main.ts:267 | `Tom & Jerry` becomes `Tom &amp; Jerry` |
| ContentNormalizer.DashRun | main.ts:276 | the run of dashes from a position is maximal |
| ContentNormalizer.DashRunOfLine | main.ts:276 | a maximal dash stretch has the run's length |
| ContentNormalizer.DividerAtIff | main.ts:276 | a divider starts at a line start exactly when a line of five or more `-`/`—` begins there |
| ContentNormalizer.FirstDividerFrom | main.ts:276 | the search finds the first divider line from a position, or reports that none exists |
| ContentNormalizer.CutAtDivider | main.ts:276 | `split(/^[-—]{5,}$/gm)[0]` is the prefix before the first divider line, or the whole text when there is none |
| ContentNormalizer.CutBeforeDashLine | main.ts:276 | a text whose first divider follows its first line is cut just before the divider |
| ContentNormalizer.PostTitle | main.ts:281 | the Facebook title is the prefix before the first `\n\n`, or the whole content |
| ContentNormalizer.TweetTitle | main.ts:469 | the tweet title is the prefix before the first `\n`, or the whole content |
| ContentNormalizer.TrimKeepsChars | main.ts:272 | trimming adds no character |
| ContentNormalizer.NoMarkupTrim | main.ts:278 | trimming escaped text keeps it free of markup characters |
| ContentNormalizer.FacebookContentNoMarkup | main.ts:266-279 | the content of every Facebook post, bilingual cut included, holds no raw markup character |
| ContentNormalizer.FacebookContentOtherPages | main.ts:275-279 | for pages other than the two bilingual ones, the content is the escaped and trimmed text |
| ContentNormalizer.BodyOfChars | main.ts:282 | the body replaces each `\n` by `<br>\n` |
| ContentNormalizer.UndoBreaks | main.ts:282 | in text without `<`, turning `<br>\n` back into `\n` undoes the body |
| ContentNormalizer.BodyRoundTrip | main.ts:266-282 | a Facebook body gives back its content once the breaks are undone |
| ContentNormalizer.TweetBodyRoundTrip | main.ts:462-470 | a tweet body gives back its content once the breaks are undone |
| FacebookFeed.MediaRefOf | main.ts:286-300 | a photo-like or video kind gives exactly one reference, and any other kind gives none |
| FacebookFeed.MarkupAppend | main.ts:284-329 | the markup of two reference lists is their markups in order |
| FacebookFeed.RefsAppend | main.ts:284-329 | the references of two attachment lists are theirs in order |
| FacebookFeed.AlbumRefsMembership | main.ts:303-327 | an album yields a reference exactly when one of its subattachments, one level deep, is of a photo or video kind with that target |
| FacebookFeed.RefsMembership | main.ts:284-329 | a reference is in the walk exactly when some attachment yields it |
| FacebookFeed.RefsOfOtherKinds | main.ts:284-329 | attachments of unknown kinds yield nothing |
| FacebookFeed.MarkupOne | main.ts:293-298 | one reference gives one `\n<br><img src=…>` fragment |
| FacebookFeed.AppendAlbum | main.ts:303-327 | the album loop appends each subattachment's fragment in order |
| FacebookFeed.AppendAttachment | main.ts:285-328 | one attachment appends its fragment, its album's fragments, or nothing |
| FacebookFeed.AppendAttachments | main.ts:284-329 | the attachment loop appends the fragments of every reference in source order |
| FacebookFeed.PostIdOfGraphId | main.ts:264 | for `page_post` the post id is `post` |
| FacebookFeed.PostIdWithoutUnderscore | main.ts:264 | an id without `_` makes the post id the text `undefined` |
| FacebookFeed.FacebookItemShape | main.ts:264-337 | the title is the content before the first blank line, the description is the body and then the attachment markup, `link` equals `id`, and the date is the post's time |
| FacebookFeed.BuildItem | main.ts:264-337 | the loop body builds the item of the post |
| FacebookFeed.ItemsOfPerPost | main.ts:263-340 | one item per post, in order |
| FacebookFeed.FacebookItemsPerPost | main.ts:263-340 | the feed has exactly one item per post, in post order |
| FacebookFeed.FacebookFeedIsLive | main.ts:251-340 | a freshly built Facebook feed holds only Date objects |
| FacebookFeed.FacebookItemsStep | main.ts:263-340 | each pass of the posts loop adds the item of that post |
| FacebookFeed.BuildFacebookFeed | main.ts:251-340 | the built feed has the page's options and one item per post |
| FacebookFeed.LargestImage | main.ts:115-117 | there is an image to redirect to exactly when the list is non-empty |
| FacebookFeed.SortedFirstIsLargest | main.ts:115 | the first image after the sort is one of largest area |
| FacebookFeed.FirstWithArea | main.ts:115 | there is a first image of any area that occurs |
| FacebookFeed.LargestImageIsFirstLargest | main.ts:115-117 | the redirect target is the first image, in Graph order, of the largest area |
| TwitterFeed.ApplyUrlsAppend | main.ts:472-474 | URL entities are applied one after another, in entity order |
| TwitterFeed.ImageTags | main.ts:478 | the appended image tags start with `<` |
| TwitterFeed.TagsFreeOf | main.ts:476-479 | a URL found in no single tag is found in none of the appended tags |
| TwitterFeed.MediaStepSplits | main.ts:476-479 | one more media entity keeps the description equal to the stripped text followed by the tags |
| TwitterFeed.LastUrlMissesTags | main.ts:476-479 | the last media URL occurs in none of the earlier tags |
| TwitterFeed.ApplyMediaSplits | main.ts:476-479 | with distinct media URLs, the description is the text with every media URL removed, followed by exactly one tag per entity |
| TwitterFeed.ApplyUrlsStep | main.ts:473 | each pass of the URL loop replaces every occurrence of that URL by its expansion |
| TwitterFeed.ApplyMediaStep | main.ts:477-478 | each pass of the media loop removes every occurrence of that URL and appends one tag |
| TwitterFeed.DescribeTweet | main.ts:470-479 | the description loops give the body after the URL substitutions and then the media passes |
| TwitterFeed.TweetItemShape | main.ts:469-510 | the title is the escaped text's first line, without substitution; `link` and `id` are the permalink; the date is the tweet's time |
| TwitterFeed.KeptEntries | main.ts:453-460 | only tweet entries that are not retweets are kept |
| TwitterFeed.KeptEntriesMembership | main.ts:453-460 | an entry is kept exactly when it is in the timeline, is of type `tweet` and has no `retweeted_status` |
| TwitterFeed.TimelineItemsOfKept | main.ts:453-512 | exactly one item per kept entry, in order |
| TwitterFeed.KeptEntriesSorted | main.ts:437-460 | filtering keeps the entries newest first |
| TwitterFeed.TimelineItemsNewestFirst | main.ts:437-512 | the feed's items are ordered by `created_at`, newest first |
| TwitterFeed.TimelineItemsAreLive | main.ts:453-512 | a freshly built Twitter feed holds only Date objects |
| TwitterFeed.TweetItemIsLive | main.ts:504-510 | a tweet item's date is a Date object |
| TwitterFeed.TimelineItemsStep | main.ts:453-512 | each pass of the entries loop adds the item of a kept entry, and nothing otherwise |
| TwitterFeed.BuildTwitterFeed | main.ts:442-512 | the built feed has the first sorted entry's user in its options, and the kept tweets' items |
| Feeds.Feed.constructor | main.ts:261 | a new feed has the given options and no items |
| Feeds.Feed.AddItem | main.ts:339 | `addItem` appends the item and changes nothing else |
| Feeds.OptionalDateToJson | main.ts:342-345 | an optional date is stored as a string when present |
| Feeds.OptionalReviveDate | main.ts:199-201 | an optional stored date becomes a Date object when present |
| Feeds.ItemsToJson | main.ts:342-345 | JSON turns each item into its stored form, one for one |
| Feeds.ToCachedIsStored | main.ts:342-345 | the cached value holds only date strings |
| Feeds.ReviveItems | main.ts:208-216 | the revive loop turns each stored item back, one for one |
| Feeds.HitSortKeepsStoredOrder | main.ts:206 | the hit-path sort keeps the stored order: subtracting the stored date strings (`JsValues.Subtract`) gives `NaN`, which SortCompare reads as +0 (`JsValues.ComparatorResult`) |
| Feeds.Rehydrate | main.ts:199-217 | a hit builds a feed of the revived options and items, in stored order |
| Feeds.ReviveItemsAppend | main.ts:208-217 | reviving one more item appends its revived form |
| Feeds.ReviveOptionsToJson | main.ts:199-201 | reviving the stored options gives back feed options whose `updated` is a Date |
| Feeds.ReviveItemToJson | main.ts:208-216 | reviving a stored item gives back the live item |
| Feeds.HitRoundTrip | main.ts:199-217 | a hit rebuilds exactly the options and items the miss stored: `new Date` (`JsValues.ReviveDate`) undoes the JSON form of each Date (`JsValues.DateToJson`) |
| FeedCache.Deletes | main.ts:536-538 | the batch holds one delete per listed key, in order |
| FeedCache.DeletesAppend | main.ts:536-538 | each listed key adds its delete to the batch |
| FeedCache.ApplyDeletes | main.ts:540 | the delete batch removes exactly the listed keys |
| FeedCache.DeleteEveryKeyEmpties | main.ts:533-541 | deleting every listed key empties the store |
| FeedCache.DualWrite | main.ts:347-362 | both keys hold the value with one expiry, and every other key is unchanged |
| FeedCache.SingleWrite | main.ts:515-526 | the key holds the value with its expiry, and every other key is unchanged |
| FeedCache.ReadBack | main.ts:353 | a written value is found by the `getAsBlob` lookup of main.ts:186-189 (`FeedCache.Lookup`) for 30·60·1000 ms after the write, and not after |
| FeedCache.KvStore.constructor | main.ts:47 | a new store is empty |
| FeedCache.KvStore.Get | main.ts:186-189 | `get` returns the live value of the key |
| FeedCache.KvStore.Commit | main.ts:347-362 | an atomic commit applies its mutations in order |
| FeedCache.KvStore.SetBlob | main.ts:515-526 | `set` writes one key with its lifetime |
| FeedCache.KvStore.ListKeys | main.ts:536 | `list` yields every key of the store, each once |
| FeedCache.KvStore.EvictAll | main.ts:533-541 | the nightly job leaves the store empty |
| Handlers.RequestedUser | main.ts:180-184 | a handle is requested exactly when the query is present and non-empty, and it is lower-cased |
| Handlers.FacebookRss | main.ts:179-365 | the `/rss` handler gives the response and the store that `FacebookRequest` states |
| Handlers.FacebookHandleCaseInsensitive | main.ts:180 | two spellings of a handle get the same answer |
| Handlers.FacebookMissWrites | main.ts:243-362 | a miss answers the built feed and stores it under the page id and the handle, both for 30 minutes, changing no other key |
| Handlers.HitGivesBackFeed | main.ts:203-218 | the hit response is the stored feed itself |
| Handlers.FacebookMissThenHit | main.ts:186-218 | within 30 minutes a second request, for the handle or the page id, gets the same feed and leaves the store as it is |
| Handlers.TwitterRss | main.ts:369-531 | the `/twitter-rss` handler gives the response and the store that `TwitterRequest` states |
| Handlers.TwitterEmptyTimeline | main.ts:433-435 | an empty timeline answers `""` and writes nothing |
| Handlers.TwitterMissWrites | main.ts:437-527 | a miss answers the built feed and stores it under the lower-cased handle only |
| Handlers.TwitterMissThenHit | main.ts:372-409 | within 30 minutes a second request for the handle, in any case, gets the same feed |
| Handlers.ImageRoute | main.ts:91-118 | a Graph error is a 400 with its message, no image is a 500, and otherwise the route redirects |
| Handlers.ImageRouteLargest | main.ts:115-117 | the redirect goes to the first image of largest area |
| Cookies.CookieJar.constructor | cookies_test.ts:6 | a new jar has received no calls |
| Cookies.CookieJar.SetCookie | cookies.ts:66 | `setCookie` records one call with its string and URL |
| Cookies.SplitRows | cookies.ts:21 | splitting on `\r?\n` gives at least one row, none holding `\n` |
| Cookies.SplitRowsConcat | cookies.ts:21 | a row ended by `\n` or `\r\n` is split off whole |
| Cookies.SplitRowsSingle | cookies.ts:21 | a text without line ends is one row |
| Cookies.SplitRowsJoin | cookies.ts:21 | splitting rows joined by `\n` or `\r\n` gives back the rows |
| Cookies.DropNewline | cookies.ts:28-30 | removing a final `\n` gives a prefix |
| Cookies.RowsKeepTheirLastChar | cookies.ts:28-30 | no split row ends in `\n`, so that check never fires |
| Cookies.Interpolated | cookies.ts:46-62 | an interpolated field is its text when present and `undefined` when missing |
| Cookies.RenderAttrsAppend | cookies.ts:54-62 | attributes render in insertion order |
| Cookies.RenderAttrsSnoc | cookies.ts:54-62 | each pass of the attribute loop appends that attribute's text |
| Cookies.CookieUrl | cookies.ts:64 | the URL handed to the jar starts with `https://` |
| Cookies.RowsCallsSnoc | cookies.ts:21-67 | each row adds its call, or nothing |
| Cookies.RowCallIff | cookies.ts:28-36 | a row gives no call exactly when it starts with `#` or is blank |
| Cookies.CommentRowNoCall | cookies.ts:32-34 | a row starting with `#` gives no call |
| Cookies.LeadingHashIsComment | cookies.ts:32-34 | a row whose first character is `#` gives no call |
| Cookies.HttpOnlyRowsSkipped | cookies.ts:24-34 | a `#HttpOnly_` row gives no call |
| Cookies.AttrTexts | cookies.ts:54-62 | Domain, Path, Expires and Secure render as `; Domain=…`, `; Path=…`, `; Expires=…` and `; Secure` |
| Cookies.RenderRowAttributes | cookies.ts:38-62 | a row's attributes render as Domain, Path and Expires, then Secure only for `TRUE` |
| Cookies.RowCallForm | cookies.ts:36-66 | a cookie row's call has the head, then Domain, Path, Expires and, only if the secure field is `TRUE`, Secure, never HttpOnly, and the row's URL; a field past the end of the row is `undefined` (`Cookies.Field`) |
| Cookies.ShortRowCall | cookies.ts:36-66 | a cookie row without a tab gives the call `undefined=undefined; Domain=<row>; Path=undefined; Expires=Invalid Date` |
| Cookies.ExpiryOfSeconds | cookies.ts:40 | an expires field of `n` seconds gives `n·1000` ms when that is a valid Date (at most 8.64e15, by TimeClip) and an Invalid Date otherwise |
| Cookies.RowsCallsAppend | cookies.ts:21-67 | the calls of two row lists are theirs in order |
| Cookies.CookieUrlIgnoresLeadingDot | cookies.ts:64 | one leading `.` of the domain is dropped from the URL |
| Cookies.NoMagicThrows | cookies.ts:3-19 | a content not starting with `#` throws a TypeError before any call |
| Cookies.SevenFieldRow | cookies.ts:36-66 | a seven-field row gives one call of the expected string |
| Cookies.CookieFileOfRows | cookies.ts:16-67 | a file of plain rows with the header calls once per cookie row, in row order |
| Cookies.MagicOfJoin | cookies.ts:3 | a file whose first row is a header passes the check |
| Cookies.MagicExtends | cookies.ts:3 | a content that starts with the header passes the check whatever follows |
| Cookies.FiveRowFile | cookies.ts:16-67 | a five-row file with a header calls for its rows in order |
| Cookies.FiveRowCalls | cookies.ts:21-67 | four skipped rows and one cookie row give exactly that row's call |
| Cookies.ExampleExpiry | cookies_test.ts:11 | `9754056585` seconds becomes 9754056585000 ms |
| Cookies.ExampleCivilDate | cookies_test.ts:11 | day 112894 after the epoch is 4 February 2279 |
| Cookies.ExampleExpiryText | cookies_test.ts:11 | the expiry renders as `Tue, 04 Feb 2279 04:09:45 GMT` |
| Cookies.ExampleUrl | cookies_test.ts:11 | the row's URL is `https://twitter.com` |
| Cookies.ExamplePieces | cookies_test.ts:11 | the row's string starts `test=test; Domain=.twitter.com; Path=/` |
| Cookies.ExampleRowCall | cookies_test.ts:11 | the row gives one call, for `https://twitter.com`, whose string begins `test=test; Domain=.twitter.com; Path=/` |
| Cookies.ExampleFileCalls | cookies_test.ts:5-16 | the test's file gives exactly one call, for `https://twitter.com`, with that string |
| Cookies.AppendAttribute | cookies.ts:54-62 | one attribute appends its text |
| Cookies.AppendAttributes | cookies.ts:54-62 | the attribute loop appends every attribute in insertion order |
| Cookies.SetAttributes | cookies.ts:24-44 | the fields set Domain, Path and Expires, Secure only for `TRUE`, and HttpOnly only for `#HttpOnly_` rows |
| Cookies.StartCookie | cookies.ts:46-52 | the string starts with `name=value`, or only `value` for an empty name |
| Cookies.CookieForRow | cookies.ts:36-64 | a row gives its head, its attributes and its URL |
| Cookies.ReadRow | cookies.ts:22-66 | a row records its call, or nothing when it is skipped |
| Cookies.ParseMozillaCookies | cookies.ts:16-68 | a file without the header throws before any call; otherwise the jar receives one call per cookie row, in row order |

## Left out

- Hono routing, the request-id and logging middleware, and the environment checks
  (main.ts:28-89, 543-546) are framework I/O.
- Outbound `fetch` calls to the Graph API and to syndication.twitter.com are left out. Their
  parsed replies are handler parameters, and a Graph `error` object becomes a 400 response.
- cheerio's extraction of `#__NEXT_DATA__`, and `JSON.parse`, are left out. A missing payload is
  the `NoPayload` page, answered with a 500.
- gzip compression and the JSON text of the cached blob are left out. The stored value is the
  JSON-shaped feed itself, so encoding and decoding are an exact round trip on values.
- Deno KV's eventual consistency and real-clock expiry are left out, and so is the cron
  schedule. The clock is a parameter, and the store is a map with explicit expiry times.
- `FeedCache.KvStore.ListKeys`: only states that it lists every key once. The order that `list`
  yields is not modelled, and eviction does not depend on it.
- Date strings are not parsed. `created_time`, `created_at` and `new Date()` are integer
  millisecond times, and an invalid date is not modelled.
- Each handler is one atomic step. Two requests that interleave between the `getAsBlob` read
  (main.ts:186, 372) and the write (main.ts:347-362, 520-526) are not modelled, and neither is
  the nightly eviction running during a miss.
- kv-toolbox stores a blob under several raw keys. `FeedCache.Key` stands for the whole blob, while
  the cron's `kv.list({ prefix: [] })` lists the raw chunk keys; the chunking is not modelled.
- `FeedCache.KvStore.EvictAll`: the limit on how many mutations one `kv.atomic()` commit accepts
  is not modelled, so the emptied store is promised without condition.
- `Feed.rss2()` rendering is left out. The `Rss` response carries the feed's options and items.
- tough-cookie's domain matching and its asynchronous errors are left out. The jar is the
  sequence of `setCookie` calls it received. The test's final check, that the jar reports the
  cookie `test=test`, is therefore not modelled.
- The `/facebook/video/:id` and `/facebook/profile-picture/:user` routes only fetch and
  redirect, so they are left out.
- proxy.ts, a forwarding proxy, is not part of this model.
- `new URL(path, BASE_URL)` is modelled as concatenation, with BASE_URL taken to be an origin.
- JavaScript strings are sequences of characters. UTF-16 surrogate pairs are not modelled.
- `toLowerCase` maps ASCII letters only.
- `Number()` reads only blank text (0) and an optional sign followed by decimal digits, after
  trimming. Every other form, such as a fraction or hex, is `NaN`.
- The `$` patterns of `replaceAll`'s replacement string are not interpreted.
- `Sorting.SortBy`: the in-place `sort` calls are modelled on sequence values, not arrays, so
  aliasing is not modelled.
- `JsValues.Utf8`: only states that its results are bytes; the byte values of each code point
  are not stated.
