# video-fetcher: a Dafny model of the detection core

video-fetcher is a browser extension. It detects the videos a tab loads and lists them so they can be downloaded. This project models its detection core and proves properties of that model:

- **`extension/background.js`**:
  - `isVideoLike` classifies a URL and an optional content type.
  - `filenameFromUrl` derives a file name from a URL, including the `decodeURIComponent` step.
  - The per-tab video cache: `ensureTab`, `addVideo` with its object-spread merge, `getVideos` with its stable sort by `firstSeen`, and `clearTab`.
  - The badge rule of `updateBadge`.
  - The listeners that feed and empty the cache:
    - the response-header observer;
    - the `videoElements` message;
    - `tabs.onUpdated`;
    - `tabs.onRemoved`.
- **`extension/content_script.js`**: `uniqueByUrl`, which collapses a page's batch of media sources to the first item carrying each url.

Modules:

- `Wrappers`: `Option`.
- `Decimal`: `String(count)` and its parse-back.
- `Uri`: `decodeURIComponent`, following ECMAScript's Decode with UTF-8 validation.
- `Classifier`: `isVideoLike` and `filenameFromUrl`.
- `VideoStore`: the records, the merge, one tab's `Map` (a value that keeps insertion order) and the stable sort. It also holds the class `VideoCache`, whose `tabs` field is the `videoCache` map and whose ghost `badges` field is what the badge was last set to.
- `ContentScript`: `uniqueByUrl` as a loop, proved against a reference definition.
- `Listeners`: the event handlers, as methods on a `VideoCache`.

### Inputs passed in as parameters

- `new URL(url).pathname` is a parameter `parsePath: string -> Option<string>`. `None` means the constructor throws.
- `Number(...)` is a parameter `number: string -> Option<int>`. `None` means NaN.
- `Date.now()` is a parameter `now`.

### Behaviour of the code worth knowing

- **A merge can erase a field.** `addVideo` merges with `{ ...prev, ...info }` (`extension/background.js:49`). Both producers always carry `contentType`, even when its value is `undefined` (lines 86 and 118). The response-header producer also always carries `sizeBytes` (line 87). So a later observation without a content type erases the stored one. The model records which keys an observation carries (`Field.Absent` or `Field.Carried`), and `VideoStore.RepeatedObservation` proves that a carried key overwrites, `undefined` included.
- **Ties in `getVideos` keep insertion order.** `Array.prototype.sort` is stable, so records with equal `firstSeen` keep the Map's insertion order. `VideoStore.SortByFirstSeen` proves exactly that.

## Model

| member | source | states |
|---|---|---|
| Classifier.IsVideoLike | extension/background.js:15-25 | A match of the extension expression makes the result true whatever the content type. Otherwise the result is true iff the content type is present and non-empty and, lower-cased, starts with `video/` or contains `mpegurl`. |
| Classifier.FindExtension | extension/background.js:13-16 | Finds the first index from which `\.(mp4\|webm\|mkv\|m3u8\|mov\|m4v)(\?\|#\|$)` matches case-insensitively. `None` means it matches nowhere. |
| Classifier.ExtensionDecides | extension/background.js:13-16 | A dot and a listed extension in any letter case, followed by `?`, `#` or the end, anywhere in the URL, make it video-like for every content type. |
| Classifier.MpegurlVariants | extension/background.js:21-23 | The two HLS playlist types tested by name contain `mpegurl`, so the last `includes` test covers them. |
| Classifier.Contains | extension/background.js:21-23 | `includes` is true iff the pattern occurs at some index. |
| Classifier.Split | extension/background.js:30 | `split('/')` yields at least one part and no part contains `/`. Joining the parts with `/` gives back the path. |
| Classifier.NonEmpty | extension/background.js:30 | `filter(Boolean)` keeps only non-empty parts, each drawn from the input. |
| Classifier.LastSegment | extension/background.js:30 | `pop()` of the filtered parts: when present, it is non-empty and contains no `/`. |
| Classifier.FilenameFromUrl | extension/background.js:27-35 | The file name is never empty: on every path, including the `catch`, the result is a non-empty string. |
| Classifier.SplitLastPart | extension/background.js:30 | The last part of the split is the run after the last `/`. |
| Classifier.TrailingSlashKeepsSegment | extension/background.js:30 | A trailing `/` does not change the chosen segment. |
| Classifier.LastCharEndsSegment | extension/background.js:30 | When the path does not end in `/`, the chosen segment is the final part. |
| Classifier.NoSegmentIffOnlySlashes | extension/background.js:30 | There is no segment, so `'video'` is used, exactly when the path consists only of slashes. |
| Classifier.LastSegmentShape | extension/background.js:30 | The chosen segment is a run of the path that starts at the beginning or after a `/`, and only slashes follow it. |
| Classifier.FilenameOfPlainSegment | extension/background.js:27-31 | A last segment without `%` is the file name unchanged. |
| Classifier.FilenameFallback | extension/background.js:27-35 | The name is `'video'` in three cases: the URL does not parse, the path is only slashes, or decoding the segment throws. |
| Uri.PercentDecode | extension/background.js:31 | `decodeURIComponent` never lengthens its input, and it decodes a non-empty input to a non-empty string. |
| Uri.DecodeWithoutEscapes | extension/background.js:31 | A string without `%` decodes to itself. |
| Uri.DecodeEscapedAscii | extension/background.js:31 | Decoding undoes `%XY` escaping of ASCII text (a round trip). |
| Uri.MalformedEscapeFails | extension/background.js:31-34 | A `%` that is not followed by two hexadecimal digits makes decoding throw, whatever stands before it, valid escapes included (`%41%zz`). This sends `filenameFromUrl` to its `catch`. |
| Uri.EscapeEndsInside | extension/background.js:31 | An escape decoded from the head of `t + "%" + u`, where `u` does not start with two hexadecimal digits, ends inside `t`. |
| Uri.EscapedOctetsShape | extension/background.js:31 | Each escape that a multi-octet sequence reads is a `%` followed by two hexadecimal digits, and all of them lie inside the string. |
| Decimal.NatToString | extension/background.js:67 | `String(count)` is a non-empty run of decimal digits with no leading zero except for `0` itself. Its partner `ParseNatToString` proves the numeral reads back as the count. |
| Decimal.ParseNatToString | extension/background.js:67 | Reading `String(count)` back as decimal digits gives `count`. |
| VideoStore.NewRecord | extension/background.js:46 | `{ ...info, firstSeen: Date.now() }` takes url, filename and source from the observation and stamps `firstSeen` with `now`. An optional key is set only when the observation carries it. |
| VideoStore.Merge | extension/background.js:49 | `{ ...prev, ...info }` keeps `firstSeen` and takes url, filename and source from the observation. `contentType` and `sizeBytes` are overwritten exactly when the observation carries them, with `undefined` too; otherwise they keep the previous value. Its partners are `RepeatedObservation` and `AddVideoIdempotent`. |
| VideoStore.Values | extension/background.js:57 | `tabMap.values()` lists one record per key, in insertion order. |
| VideoStore.Put | extension/background.js:45-50 | The tab's map stays well formed: each url is a key once, the key order has no repeats, and each record is stored under its own url. |
| VideoStore.InsertByFirstSeen | extension/background.js:57 | Inserting a record adds exactly that record to the multiset. |
| VideoStore.InsertKeepsSorted | extension/background.js:57 | Inserting into a list sorted by `firstSeen` keeps it sorted. |
| VideoStore.InsertFirstAmongEqual | extension/background.js:57 | The inserted record goes before those with the same `firstSeen`, which keeps their relative order. |
| VideoStore.SortByFirstSeen | extension/background.js:57 | The result is sorted by `firstSeen` and is a permutation of the input. Records with equal `firstSeen` keep their input order, which is the stable sort ECMAScript requires. |
| VideoStore.AddedVideo | extension/background.js:42-50 | The cache stays well formed after `addVideo`. |
| VideoStore.GetVideos | extension/background.js:54-58 | Returns `[]` for a tab without a map. Otherwise it returns the stable sort of the tab's records by `firstSeen`. |
| VideoStore.BadgeText | extension/background.js:65-67 | The badge is `''` exactly when the count is 0; otherwise it is the count's decimal digits. |
| VideoStore.CountIsRecordCount | extension/background.js:66 | The number `getVideos` returns is the number of records in the tab. |
| VideoStore.InsertKeepsDistinct | extension/background.js:57 | Inserting a record with a new url keeps the urls distinct. |
| VideoStore.SortKeepsDistinct | extension/background.js:57 | Sorting keeps distinct urls distinct. |
| VideoStore.GetVideosListsEachRecordOnce | extension/background.js:54-58 | `getVideos` lists every record of the tab exactly once, and nothing else. |
| VideoStore.AddedVideoKeepsUrls | extension/background.js:42-50 | `addVideo` on a non-negative tab creates the tab if needed, stores the url, and loses no url. |
| VideoStore.AddVideoEffect | extension/background.js:42-51 | After `addVideo`, the tab holds exactly one record for the url: a new record first seen `now`, or the merge with the previous one. No other url and no other tab changes. |
| VideoStore.AddVideoNegativeTab | extension/background.js:43 | `addVideo` with a negative tab id changes nothing. |
| VideoStore.RepeatedObservation | extension/background.js:47-49 | Merging keeps `firstSeen` and the key's place in the order. `filename` and `source` are overwritten. `contentType` and `sizeBytes` are overwritten exactly when the observation carries them, `undefined` included. |
| VideoStore.AddVideoIdempotent | extension/background.js:42-50 | Adding the same observation a second time, at any later time, leaves the cache as the first add left it. |
| VideoStore.PutTwice | extension/background.js:45-49 | A second `set` of the same observation into a tab's map finds the url and changes nothing. |
| VideoStore.ClearedTab | extension/background.js:60-63 | After the tab's map is deleted, the tab lists nothing, other tabs are unchanged, and the next `addVideo` of a url stamps it with the current time. |
| VideoStore.SortOfSorted | extension/background.js:57 | Sorting a list that is already sorted leaves it unchanged. |
| VideoStore.MergeKeepsChronological | extension/background.js:47-49 | Merging leaves every position's `firstSeen` unchanged. |
| VideoStore.AppendKeepsChronological | extension/background.js:45-46 | A new url is appended after the existing records. |
| VideoStore.PutKeepsChronological | extension/background.js:42-50 | If `now` is no earlier than any stored `firstSeen`, insertion order stays `firstSeen` order. |
| VideoStore.GetVideosInInsertionOrder | extension/background.js:54-58 | When insertion order is chronological, `getVideos` returns the records in insertion order. |
| VideoStore.VideoCache.constructor | extension/background.js:2 | The cache starts empty, with no badges set. |
| VideoStore.VideoCache.EnsureTab | extension/background.js:37-40 | Creates an empty map only for a missing tab and returns the tab's map. Every other tab is left alone. |
| VideoStore.VideoCache.UpdateBadge | extension/background.js:65-67 | Sets the tab's badge to the text for the number of videos `getVideos` returns. |
| VideoStore.VideoCache.AddVideo | extension/background.js:42-52 | A negative tab changes neither the cache nor any badge. Otherwise the cache becomes `AddedVideo` of the old cache, and the tab's badge shows its new record count. |
| VideoStore.VideoCache.ClearTab | extension/background.js:60-63 | Deletes the tab's map and blanks its badge. |
| VideoStore.VideoCache.RemoveTab | extension/background.js:105-107 | Deletes the tab's map and leaves every badge as it was. |
| ContentScript.UniqueByUrl | extension/content_script.js:21-31 | The loop's result is the reference definition: an item is kept iff it is present, has a non-empty url, and no earlier such item has that url. The invariant is that `seen` equals the urls of `out`. |
| ContentScript.UrlsOfMembership | extension/content_script.js:25 | A url belongs to the set iff some item carries it. |
| ContentScript.KeepsEveryUrl | extension/content_script.js:21-31 | The output carries exactly the urls the input carries. |
| ContentScript.KeepsOnlyItemsWithUrl | extension/content_script.js:25 | No null item and no item with an empty or missing url is kept. |
| ContentScript.KeptUrlsDistinct | extension/content_script.js:25-27 | No two kept items share a url. |
| ContentScript.UrlSetMembership | extension/content_script.js:26 | Every kept url is in `seen`. |
| ContentScript.KeepsOrder | extension/content_script.js:24-28 | The output is a subsequence of the input. |
| ContentScript.KeepsFirstCarrier | extension/content_script.js:24-28 | Every kept item is the first input item carrying its url. |
| ContentScript.KeepsEveryFirstCarrier | extension/content_script.js:24-28 | The first item carrying each url is kept. |
| Listeners.FindHeader | extension/background.js:79-80 | Returns the value of the first header whose lower-cased name matches. `None` means no header matches. |
| Listeners.NetworkObservation | extension/background.js:81-89 | The network observation has the request's url, source `webRequest` and a non-empty file name. It always carries `contentType` and `sizeBytes`. `sizeBytes` has a value exactly when the content-length header is present, non-empty and a number, and then it is that number. |
| Listeners.OnHeadersReceived | extension/background.js:74-96 | A negative tab or a response that is not video-like changes nothing. Otherwise the response is added with the header values, the derived file name and source `webRequest`, and the tab's badge shows its new count. |
| Listeners.DomObservation | extension/background.js:115-120 | The element observation has the item's url, source `dom` and a non-empty file name. It always carries `contentType`, which may be `undefined`, and never carries `sizeBytes`. |
| Listeners.RecordedItems | extension/background.js:113-121 | The `forEach` over a batch keeps the cache well formed. Its partners state its effect: `BatchWithoutUrls` (nothing changes without a url or for a negative tab), `BatchRecordsEveryUrl` (every url is recorded) and `BatchKeepsOtherTabs` (other tabs are untouched). |
| Listeners.RecordedItemKeepsUrl | extension/background.js:114-120 | Recording one item keeps every url the tab already holds, and records the item's own url when it has one. |
| Listeners.RecordedStep | extension/background.js:113-121 | The batch's effect grows by one item at a time: each item with a url adds one observation. |
| Listeners.RecordedItemKeys | extension/background.js:114-120 | Recording an item keeps every tab, and an item with a url makes its tab present. An item without a url changes nothing. |
| Listeners.BatchRecordsEveryUrl | extension/background.js:110-121 | After a batch, the sender's tab holds a record for the url of every item that has one. |
| Listeners.BatchRecordsUrl | extension/background.js:113-121 | The url of any one item of the batch that has a url is recorded in the sender's tab once the batch is through. |
| Listeners.BatchWithoutUrls | extension/background.js:113-114 | A batch for a negative tab, or a batch in which no item has a url, leaves the cache unchanged. |
| Listeners.BatchKeepsOtherTabs | extension/background.js:110-121 | A batch from one tab leaves every other tab as it was. |
| Listeners.BadgesStep | extension/background.js:115-120 | Each `addVideo` of the batch replaces the tab's badge with its current count, so the last one decides. |
| Listeners.RecordItem | extension/background.js:113-121 | Skips an item without a url. Otherwise it adds the item as a `dom` observation without `sizeBytes` and updates the tab's badge. |
| Listeners.OnVideoElements | extension/background.js:110-124 | A sender that is not a tab changes nothing. Otherwise the items are added in order, and if any item had a url the tab's badge shows its final count. |
| Listeners.OnUpdated | extension/background.js:99-103 | A tab that starts loading is cleared and its badge is blanked. Any other status changes nothing. |

## Left out

- **Browser APIs.** `chrome.action` is reduced to the ghost `badges` map. `chrome.webRequest`, `chrome.tabs` and `chrome.runtime` become method calls. The badge background colour (line 69) is not modelled: it is a side effect with no state that is read back.
- **Download history.** The `recordDownload` handler writes to `chrome.storage` and is not part of the core. The context menus and `extension/popup.js` are not part of this model either.
- **The `getVideos` message handler.** It converts its tab id with `Number`. `VideoStore.GetVideos` takes the id as an integer, and the conversion, including NaN, is not modelled.
- **The DOM walk.** `collectFromVideoEl`, `absoluteUrl`, `scanAndSend` and the mutation observer are not modelled. The batch they build is the input of `UniqueByUrl`.
- **URL parsing.** The WHATWG URL parser is the `parsePath` parameter: `filenameFromUrl` only needs the path it yields, or the fact that it threw.
- **`Number`.** The conversion of the content-length header is the `number` parameter, with NaN as `None`. Floating-point sizes are not modelled.
- **Letter case.** Folding is ASCII-only. This is exact for every decision the code takes:
  - Without the `u` flag, the expression's `i` flag never folds a non-ASCII character onto an ASCII one.
  - Only two non-ASCII characters lower-case to something that contains an ASCII letter. U+212A becomes `k`, which no compared pattern contains. U+0130 becomes `i` followed by U+0307, and in every pattern an `i` is followed by an ASCII letter, so it can never complete the `vi` of `video/` or an `i` of the `application/…` types.
  - The two `application/…` tests are covered by the `mpegurl` test anyway, and `mpegurl` contains no `i`.
- **Strings and headers.** Strings are sequences of Unicode scalar values, so lone UTF-16 surrogates are not modelled. Header entries that carry only a `binaryValue` are not modelled.
- **Exceptions.** The `try`/`catch` around the header listener is not modelled: none of the modelled steps throws there. The only modelled exception is the one in `filenameFromUrl`.
- **The clock.** One `now` covers a whole `videoElements` batch. In the source, each `addVideo` reads `Date.now()` itself.
- **Message transport.** `sendResponse`, JSON serialisation and `return true` are transport details and are not modelled.
- Uri.DecodeEscapedAscii: the round trip is proved for ASCII text only. Multi-byte UTF-8 escapes are decoded by `PercentDecode`, but no encoder is given for them.
