/** The per-tab video cache of extension/background.js: the records
    (`VideoInfo`), the observations the producers pass to `addVideo`, the
    merge of one into the other, and the sorted view `getVideos` returns. */
module VideoStore {
  import opened Wrappers
  import Decimal

  /** The producer that last contributed to a record: 'webRequest' or 'dom'. */
  datatype Source = WebRequest | Dom

  /** A stored `VideoInfo`. An optional field is None when its key is absent
      or holds `undefined`; no reader of a record can tell the two apart. */
  datatype VideoInfo = VideoInfo(
    url: string,
    filename: string,
    contentType: Option<string>,
    sizeBytes: Option<int>,
    source: Source,
    firstSeen: int)

  /** An optional key of an observation object: not carried at all, or
      carried with a value that may be `undefined` (None). A carried key
      overwrites in an object spread even when its value is `undefined`. */
  datatype Field<T> = Absent | Carried(value: Option<T>)

  /** The object a producer passes to `addVideo`: url, filename and source
      are always carried, contentType and sizeBytes may not be. */
  datatype Observation = Observation(
    url: string,
    filename: string,
    contentType: Field<string>,
    sizeBytes: Field<int>,
    source: Source)

  /** The value a key has after spreading a field over an object whose key
      held `previous`. */
  function Spread<T>(previous: Option<T>, f: Field<T>): Option<T> {
    match f
    case Absent => previous
    case Carried(v) => v
  }

  /** `{ ...info, firstSeen: now }`: the record a first observation creates. */
  function NewRecord(o: Observation, now: int): (r: VideoInfo)
    ensures r.url == o.url && r.filename == o.filename && r.source == o.source && r.firstSeen == now
    ensures r.contentType == (if o.contentType.Carried? then o.contentType.value else None)
    ensures r.sizeBytes == (if o.sizeBytes.Carried? then o.sizeBytes.value else None)
  {
    VideoInfo(o.url, o.filename, Spread(None, o.contentType), Spread(None, o.sizeBytes), o.source, now)
  }

  /** `{ ...prev, ...info }`: every key the observation carries wins; the
      others, firstSeen among them, keep the previous value. */
  function Merge(prev: VideoInfo, o: Observation): (r: VideoInfo)
    ensures r.url == o.url && r.filename == o.filename && r.source == o.source
    ensures r.firstSeen == prev.firstSeen
    ensures r.contentType == (if o.contentType.Carried? then o.contentType.value else prev.contentType)
    ensures r.sizeBytes == (if o.sizeBytes.Carried? then o.sizeBytes.value else prev.sizeBytes)
  {
    VideoInfo(
      o.url,
      o.filename,
      Spread(prev.contentType, o.contentType),
      Spread(prev.sizeBytes, o.sizeBytes),
      o.source,
      prev.firstSeen)
  }

  // ---------------------------------------------------------------------
  // One tab's Map<url, VideoInfo>

  /** One tab's map: the records by url, and the order in which their keys
      were first set. A JavaScript Map iterates in that order, and `set` on a
      key it already holds keeps the key's place. */
  datatype TabMap = TabMap(order: seq<string>, records: map<string, VideoInfo>) {
    ghost predicate Valid() {
      && (forall i, j | 0 <= i < j < |order| :: order[i] != order[j])
      && (forall u :: u in records <==> u in order)
      && |records| == |order|
      && (forall u | u in records :: records[u].url == u)
    }
  }

  const EMPTY_TAB: TabMap := TabMap([], map[])

  /** `tabMap.values()`, in iteration order. */
  function Values(tm: TabMap): (vs: seq<VideoInfo>)
    requires tm.Valid()
    ensures |vs| == |tm.order|
    ensures forall i | 0 <= i < |vs| :: vs[i] == tm.records[tm.order[i]]
  {
    seq(|tm.order|, i requires 0 <= i < |tm.order| => tm.records[tm.order[i]])
  }

  /** The body of `addVideo` once the tab's map exists: a new url is
      appended with firstSeen = now, a known one is merged in place. */
  function Put(tm: TabMap, o: Observation, now: int): (r: TabMap)
    requires tm.Valid()
    ensures r.Valid()
  {
    if o.url in tm.records then
      TabMap(tm.order, tm.records[o.url := Merge(tm.records[o.url], o)])
    else
      TabMap(tm.order + [o.url], tm.records[o.url := NewRecord(o, now)])
  }

  // ---------------------------------------------------------------------
  // The stable sort of getVideos

  ghost predicate SortedByFirstSeen(s: seq<VideoInfo>) {
    forall i, j | 0 <= i < j < |s| :: s[i].firstSeen <= s[j].firstSeen
  }

  /** The records of s first seen at time t, in their order in s. */
  function WithFirstSeen(s: seq<VideoInfo>, t: int): seq<VideoInfo> {
    if s == [] then []
    else (if s[0].firstSeen == t then [s[0]] else []) + WithFirstSeen(s[1..], t)
  }

  /** r is s sorted by firstSeen, stably: records first seen at the same
      time keep their relative order. */
  ghost predicate IsStableSortOf(r: seq<VideoInfo>, s: seq<VideoInfo>) {
    && SortedByFirstSeen(r)
    && multiset(r) == multiset(s)
    && forall t :: WithFirstSeen(r, t) == WithFirstSeen(s, t)
  }

  /** Inserts x before the first record of s seen no earlier than x. */
  function InsertByFirstSeen(x: VideoInfo, s: seq<VideoInfo>): (r: seq<VideoInfo>)
    ensures multiset(r) == multiset(s) + multiset{x}
  {
    if s == [] || x.firstSeen <= s[0].firstSeen then
      [x] + s
    else
      assert s == [s[0]] + s[1..];
      [s[0]] + InsertByFirstSeen(x, s[1..])
  }

  lemma {:induction false} InsertKeepsSorted(x: VideoInfo, s: seq<VideoInfo>)
    requires SortedByFirstSeen(s)
    ensures SortedByFirstSeen(InsertByFirstSeen(x, s))
  {
    if s != [] && x.firstSeen > s[0].firstSeen {
      TailSorted(s);
      InsertKeepsSorted(x, s[1..]);
      var rest := InsertByFirstSeen(x, s[1..]);
      forall k | 0 <= k < |rest| ensures s[0].firstSeen <= rest[k].firstSeen {
        AtLeastHead(x, s, rest[k]);
      }
      ConsSorted(s[0], rest);
    }
  }

  lemma TailSorted(s: seq<VideoInfo>)
    requires SortedByFirstSeen(s) && s != []
    ensures SortedByFirstSeen(s[1..])
  {
    var tail := s[1..];
    forall i, j | 0 <= i < j < |tail| ensures tail[i].firstSeen <= tail[j].firstSeen {
      assert tail[i] == s[i + 1] && tail[j] == s[j + 1];
    }
  }

  lemma ConsSorted(h: VideoInfo, rest: seq<VideoInfo>)
    requires SortedByFirstSeen(rest) && forall k | 0 <= k < |rest| :: h.firstSeen <= rest[k].firstSeen
    ensures SortedByFirstSeen([h] + rest)
  {
    var r := [h] + rest;
    forall i, j | 0 <= i < j < |r| ensures r[i].firstSeen <= r[j].firstSeen {
      assert r[j] == rest[j - 1];
      if i > 0 {
        assert r[i] == rest[i - 1];
      }
    }
  }

  /** A record of the insertion into the tail is seen no earlier than the
      head, when x is seen later than the head. */
  lemma AtLeastHead(x: VideoInfo, s: seq<VideoInfo>, y: VideoInfo)
    requires SortedByFirstSeen(s) && s != [] && x.firstSeen > s[0].firstSeen
    requires y in multiset(InsertByFirstSeen(x, s[1..]))
    ensures s[0].firstSeen <= y.firstSeen
  {
    if y != x {
      assert y in multiset(s[1..]);
      var k :| 0 <= k < |s[1..]| && s[1..][k] == y;
      assert s[k + 1] == y;
    }
  }

  /** Among the records first seen at x's time, x comes first. */
  lemma {:induction false} InsertFirstAmongEqual(x: VideoInfo, s: seq<VideoInfo>, t: int)
    requires SortedByFirstSeen(s)
    ensures WithFirstSeen(InsertByFirstSeen(x, s), t) ==
      if x.firstSeen == t then [x] + WithFirstSeen(s, t) else WithFirstSeen(s, t)
  {
    if s == [] || x.firstSeen <= s[0].firstSeen {
      assert ([x] + s)[1..] == s;
    } else {
      InsertFirstAmongEqual(x, s[1..], t);
      var rest := InsertByFirstSeen(x, s[1..]);
      assert ([s[0]] + rest)[1..] == rest;
    }
  }

  /** `Array.prototype.sort` with comparator `a.firstSeen - b.firstSeen`,
      which ECMAScript requires to be stable. */
  function SortByFirstSeen(s: seq<VideoInfo>): (r: seq<VideoInfo>)
    ensures IsStableSortOf(r, s)
  {
    if s == [] then []
    else
      var rest := SortByFirstSeen(s[1..]);
      assert s == [s[0]] + s[1..];
      InsertKeepsSorted(s[0], rest);
      forall t ensures WithFirstSeen(InsertByFirstSeen(s[0], rest), t) == WithFirstSeen(s, t) {
        InsertFirstAmongEqual(s[0], rest, t);
      }
      InsertByFirstSeen(s[0], rest)
  }

  // ---------------------------------------------------------------------
  // videoCache: Map<tabId, Map<url, VideoInfo>>

  type Cache = map<int, TabMap>

  ghost predicate ValidCache(c: Cache) {
    forall t | t in c :: c[t].Valid()
  }

  /** The tab's map, or the empty map `ensureTab` would create. */
  function TabOf(c: Cache, tabId: int): TabMap {
    if tabId in c then c[tabId] else EMPTY_TAB
  }

  /** The cache after `addVideo(tabId, info)`: negative tab ids are dropped. */
  function AddedVideo(c: Cache, tabId: int, o: Observation, now: int): (r: Cache)
    requires ValidCache(c)
    ensures ValidCache(r)
  {
    if tabId < 0 then c else c[tabId := Put(TabOf(c, tabId), o, now)]
  }

  /** `getVideos(tabId)`: nothing for a tab without a map, otherwise its
      records sorted by firstSeen, ties in insertion order. */
  function GetVideos(c: Cache, tabId: int): (items: seq<VideoInfo>)
    requires ValidCache(c)
    ensures tabId !in c ==> items == []
    ensures tabId in c ==> IsStableSortOf(items, Values(c[tabId]))
  {
    if tabId in c then SortByFirstSeen(Values(c[tabId])) else []
  }

  /** The badge text `updateBadge` sets: the count in decimal, blank for 0. */
  function BadgeText(count: nat): (text: string)
    ensures text == "" <==> count == 0
    ensures count > 0 ==>
      (forall i | 0 <= i < |text| :: Decimal.IsDigit(text[i])) && Decimal.ParseDigits(text) == count
  {
    if count == 0 then ""
    else
      Decimal.ParseNatToString(count);
      Decimal.NatToString(count)
  }

  /** The count `updateBadge` shows is the number of records in the tab. */
  lemma CountIsRecordCount(c: Cache, tabId: int)
    requires ValidCache(c)
    ensures |GetVideos(c, tabId)| == |TabOf(c, tabId).records|
  {
    if tabId in c {
      var items := GetVideos(c, tabId);
      assert |items| == |multiset(items)| == |multiset(Values(c[tabId]))|;
    }
  }

  // ---------------------------------------------------------------------
  // What addVideo, getVideos and clearTab promise

  ghost predicate DistinctUrls(s: seq<VideoInfo>) {
    forall i, j | 0 <= i < j < |s| :: s[i].url != s[j].url
  }

  lemma {:induction false} InsertKeepsDistinct(x: VideoInfo, s: seq<VideoInfo>)
    requires DistinctUrls(s) && forall k | 0 <= k < |s| :: s[k].url != x.url
    ensures DistinctUrls(InsertByFirstSeen(x, s))
  {
    if s != [] && x.firstSeen > s[0].firstSeen {
      var tail := s[1..];
      assert DistinctUrls(tail) by {
        forall i, j | 0 <= i < j < |tail| ensures tail[i].url != tail[j].url {
          assert tail[i] == s[i + 1] && tail[j] == s[j + 1];
        }
      }
      assert forall k | 0 <= k < |tail| :: tail[k] == s[k + 1];
      InsertKeepsDistinct(x, tail);
      var rest := InsertByFirstSeen(x, tail);
      forall k | 0 <= k < |rest| ensures rest[k].url != s[0].url {
        assert rest[k] in multiset(rest);
        if rest[k] != x {
          assert rest[k] in multiset(tail);
          var j :| 0 <= j < |tail| && tail[j] == rest[k];
          assert tail[j] == s[j + 1];
        }
      }
      ConsDistinct(s[0], rest);
    }
  }

  lemma ConsDistinct(h: VideoInfo, rest: seq<VideoInfo>)
    requires DistinctUrls(rest) && forall k | 0 <= k < |rest| :: rest[k].url != h.url
    ensures DistinctUrls([h] + rest)
  {
    var r := [h] + rest;
    forall i, j | 0 <= i < j < |r| ensures r[i].url != r[j].url {
      assert r[j] == rest[j - 1];
      if i > 0 {
        assert r[i] == rest[i - 1];
      }
    }
  }

  lemma {:induction false} SortKeepsDistinct(s: seq<VideoInfo>)
    requires DistinctUrls(s)
    ensures DistinctUrls(SortByFirstSeen(s))
  {
    if s != [] {
      SortKeepsDistinct(s[1..]);
      var rest := SortByFirstSeen(s[1..]);
      forall k | 0 <= k < |rest| ensures rest[k].url != s[0].url {
        assert rest[k] in multiset(s[1..]);
      }
      InsertKeepsDistinct(s[0], rest);
    }
  }

  /** The values of a well-formed map have distinct urls. */
  lemma ValuesDistinct(tm: TabMap)
    requires tm.Valid()
    ensures DistinctUrls(Values(tm))
  {
    var vs := Values(tm);
    forall i, j | 0 <= i < j < |vs| ensures vs[i].url != vs[j].url {
      assert tm.order[i] in tm.records && tm.order[j] in tm.records;
    }
  }

  /** Each value of a map is the record stored under its url. */
  lemma ValuesAreRecords(tm: TabMap, v: VideoInfo)
    requires tm.Valid() && v in multiset(Values(tm))
    ensures v.url in tm.records && v == tm.records[v.url]
  {
    var vs := Values(tm);
    var k :| 0 <= k < |vs| && vs[k] == v;
    assert tm.order[k] in tm.records;
  }

  /** Each record of a map is among its values. */
  lemma RecordsAreValues(tm: TabMap, u: string)
    requires tm.Valid() && u in tm.records
    ensures tm.records[u] in multiset(Values(tm))
  {
    var k :| 0 <= k < |tm.order| && tm.order[k] == u;
    assert Values(tm)[k] == tm.records[u];
  }

  /** `getVideos(tabId)` lists every record of the tab exactly once. */
  lemma GetVideosListsEachRecordOnce(c: Cache, tabId: int)
    requires ValidCache(c) && tabId in c
    ensures var items := GetVideos(c, tabId); var records := c[tabId].records;
      && DistinctUrls(items)
      && (forall i | 0 <= i < |items| :: items[i].url in records && items[i] == records[items[i].url])
      && (forall u | u in records :: records[u] in items)
  {
    var tm := c[tabId];
    var items := GetVideos(c, tabId);
    ValuesDistinct(tm);
    SortKeepsDistinct(Values(tm));
    forall i | 0 <= i < |items|
      ensures items[i].url in tm.records && items[i] == tm.records[items[i].url]
    {
      assert items[i] in multiset(items);
      ValuesAreRecords(tm, items[i]);
    }
    forall u | u in tm.records ensures tm.records[u] in items {
      RecordsAreValues(tm, u);
      assert tm.records[u] in multiset(items);
    }
  }

  /** `addVideo` records its url and forgets no url of the tab. */
  lemma AddedVideoKeepsUrls(c: Cache, tabId: int, o: Observation, now: int)
    requires ValidCache(c) && tabId >= 0
    ensures var r := AddedVideo(c, tabId, o, now);
      && tabId in r
      && o.url in r[tabId].records
      && TabOf(c, tabId).records.Keys <= r[tabId].records.Keys
  {
    AddVideoEffect(c, tabId, o, now);
  }

  /** `addVideo(tabId, info)` with tabId >= 0: the tab then holds exactly one
      record for info.url, a new one first seen now or the merge of the old
      one; no other record and no other tab changes. */
  lemma AddVideoEffect(c: Cache, tabId: int, o: Observation, now: int)
    requires ValidCache(c) && tabId >= 0
    ensures var c' := AddedVideo(c, tabId, o, now); var before := TabOf(c, tabId).records;
      && tabId in c'
      && o.url in c'[tabId].records
      && c'[tabId].records[o.url] ==
           (if o.url in before then Merge(before[o.url], o) else NewRecord(o, now))
      && (forall u | u != o.url :: (u in c'[tabId].records <==> u in before)
                                   && (u in before ==> c'[tabId].records[u] == before[u]))
      && (forall t | t != tabId :: t in c' <==> t in c)
      && (forall t | t != tabId && t in c :: c'[t] == c[t])
      && (forall i | 0 <= i < |GetVideos(c', tabId)| && GetVideos(c', tabId)[i].url == o.url ::
            GetVideos(c', tabId)[i] == c'[tabId].records[o.url])
      && c'[tabId].records[o.url] in GetVideos(c', tabId)
  {
    GetVideosListsEachRecordOnce(AddedVideo(c, tabId, o, now), tabId);
  }

  /** `addVideo` with a negative tab id changes nothing. */
  lemma AddVideoNegativeTab(c: Cache, tabId: int, o: Observation, now: int)
    requires ValidCache(c) && tabId < 0
    ensures AddedVideo(c, tabId, o, now) == c
    ensures tabId !in c ==> GetVideos(AddedVideo(c, tabId, o, now), tabId) == []
  {
  }

  /** A later observation of a known url keeps firstSeen, takes filename and
      source from the observation, and overwrites contentType and sizeBytes
      exactly when it carries them, with `undefined` (None) too. */
  lemma RepeatedObservation(c: Cache, tabId: int, o: Observation, now: int)
    requires ValidCache(c) && tabId >= 0 && tabId in c && o.url in c[tabId].records
    ensures var prev := c[tabId].records[o.url];
      var r := AddedVideo(c, tabId, o, now)[tabId].records[o.url];
      && r.firstSeen == prev.firstSeen
      && r.filename == o.filename && r.source == o.source && r.url == prev.url
      && r.contentType == (if o.contentType.Carried? then o.contentType.value else prev.contentType)
      && r.sizeBytes == (if o.sizeBytes.Carried? then o.sizeBytes.value else prev.sizeBytes)
      && AddedVideo(c, tabId, o, now)[tabId].order == c[tabId].order
  {
  }

  /** Recording the same observation twice leaves the cache as the first
      recording left it, whatever the clock says the second time. */
  lemma AddVideoIdempotent(c: Cache, tabId: int, o: Observation, now: int, later: int)
    requires ValidCache(c)
    ensures AddedVideo(AddedVideo(c, tabId, o, now), tabId, o, later) == AddedVideo(c, tabId, o, now)
  {
    if tabId >= 0 {
      var tm := Put(TabOf(c, tabId), o, now);
      PutTwice(TabOf(c, tabId), o, now, later);
      assert AddedVideo(c, tabId, o, now) == c[tabId := tm];
      assert TabOf(c[tabId := tm], tabId) == tm;
    }
  }

  /** A second `set` of the same observation finds the url and merges in
      nothing new. */
  lemma PutTwice(tm: TabMap, o: Observation, now: int, later: int)
    requires tm.Valid()
    ensures Put(Put(tm, o, now), o, later) == Put(tm, o, now)
  {
    var once := Put(tm, o, now);
    var rec := once.records[o.url];
    assert Merge(rec, o) == rec;
    assert once.records[o.url := rec] == once.records;
  }

  /** After `clearTab` (or the tab-removed handler) the tab lists nothing,
      other tabs are untouched, and a url seen before is new again. */
  lemma ClearedTab(c: Cache, tabId: int, o: Observation, now: int)
    requires ValidCache(c) && tabId >= 0
    ensures ValidCache(c - {tabId})
    ensures GetVideos(c - {tabId}, tabId) == []
    ensures forall t | t != tabId :: t in c - {tabId} <==> t in c
    ensures forall t | t != tabId && t in c :: GetVideos(c - {tabId}, t) == GetVideos(c, t)
    ensures AddedVideo(c - {tabId}, tabId, o, now)[tabId].records[o.url].firstSeen == now
  {
  }

  // ---------------------------------------------------------------------
  // Insertion order under a clock that does not run backwards

  ghost predicate SeenNoLaterThan(tm: TabMap, now: int) {
    forall u | u in tm.records :: tm.records[u].firstSeen <= now
  }

  lemma {:induction false} SortOfSorted(s: seq<VideoInfo>)
    requires SortedByFirstSeen(s)
    ensures SortByFirstSeen(s) == s
  {
    if s != [] {
      SortOfSorted(s[1..]);
      assert s == [s[0]] + s[1..];
    }
  }

  lemma MergeKeepsChronological(tm: TabMap, o: Observation, now: int)
    requires tm.Valid() && o.url in tm.records
    ensures forall i | 0 <= i < |tm.order| ::
      Values(Put(tm, o, now))[i].firstSeen == Values(tm)[i].firstSeen
  {
  }

  lemma AppendKeepsChronological(tm: TabMap, o: Observation, now: int)
    requires tm.Valid() && o.url !in tm.records
    ensures Values(Put(tm, o, now)) == Values(tm) + [NewRecord(o, now)]
  {
    var vs, ws := Values(tm), Values(Put(tm, o, now));
    assert forall i | 0 <= i < |vs| :: tm.order[i] != o.url;
  }

  /** Records in insertion order are in firstSeen order while `addVideo` is
      given times no earlier than any record it already holds. */
  lemma PutKeepsChronological(tm: TabMap, o: Observation, now: int)
    requires tm.Valid() && SortedByFirstSeen(Values(tm)) && SeenNoLaterThan(tm, now)
    ensures SortedByFirstSeen(Values(Put(tm, o, now)))
    ensures SeenNoLaterThan(Put(tm, o, now), now)
  {
    var vs := Values(tm);
    if o.url in tm.records {
      MergeKeepsChronological(tm, o, now);
    } else {
      AppendKeepsChronological(tm, o, now);
      forall i | 0 <= i < |vs| ensures vs[i].firstSeen <= now {
        assert tm.order[i] in tm.records;
      }
    }
  }

  /** While firstSeen follows insertion order, `getVideos` lists the records
      in the order their urls were first added. */
  lemma GetVideosInInsertionOrder(c: Cache, tabId: int)
    requires ValidCache(c) && tabId in c && SortedByFirstSeen(Values(c[tabId]))
    ensures GetVideos(c, tabId) == Values(c[tabId])
  {
    SortOfSorted(Values(c[tabId]));
  }

  /** `videoCache` and the badge each tab shows. The badge is ghost: it is
      what `chrome.action.setBadgeText` was last asked to display. */
  class VideoCache {
    var tabs: Cache
    ghost var badges: map<int, string>

    ghost predicate Valid()
      reads this
    {
      ValidCache(tabs)
    }

    constructor ()
      ensures Valid() && tabs == map[] && badges == map[]
    {
      tabs := map[];
      badges := map[];
    }

    /** `ensureTab(tabId)`: the tab's map, created empty when missing. */
    method EnsureTab(tabId: int) returns (tabMap: TabMap)
      requires Valid()
      modifies this`tabs
      ensures Valid()
      ensures tabs == if tabId in old(tabs) then old(tabs) else old(tabs)[tabId := EMPTY_TAB]
      ensures tabMap == tabs[tabId]
    {
      if tabId !in tabs {
        tabs := tabs[tabId := EMPTY_TAB];
      }
      tabMap := tabs[tabId];
    }

    /** `updateBadge(tabId)`: the badge shows the tab's record count. */
    method UpdateBadge(tabId: int)
      requires Valid()
      modifies this`badges
      ensures badges == old(badges)[tabId := BadgeText(|GetVideos(tabs, tabId)|)]
    {
      var count := |GetVideos(tabs, tabId)|;
      badges := badges[tabId := BadgeText(count)];
    }

    /** `addVideo(tabId, info)` at time `now` (the value of `Date.now()`). */
    method AddVideo(tabId: int, info: Observation, now: int)
      requires Valid()
      modifies this
      ensures Valid()
      ensures tabs == AddedVideo(old(tabs), tabId, info, now)
      ensures badges == if tabId < 0 then old(badges)
                        else old(badges)[tabId := BadgeText(|tabs[tabId].records|)]
    {
      if tabId < 0 {
        return;
      }
      ghost var added := AddedVideo(tabs, tabId, info, now);
      var tabMap := EnsureTab(tabId);
      assert tabMap == TabOf(old(tabs), tabId);
      tabs := tabs[tabId := Put(tabMap, info, now)];
      assert tabs == added;
      CountIsRecordCount(tabs, tabId);
      UpdateBadge(tabId);
    }

    /** `clearTab(tabId)`: the tab's map is dropped and its badge blanked. */
    method ClearTab(tabId: int)
      requires Valid()
      modifies this
      ensures Valid()
      ensures tabs == old(tabs) - {tabId}
      ensures badges == old(badges)[tabId := ""]
    {
      tabs := tabs - {tabId};
      UpdateBadge(tabId);
    }

    /** The `tabs.onRemoved` handler: the map is dropped, the badge is left. */
    method RemoveTab(tabId: int)
      requires Valid()
      modifies this`tabs
      ensures Valid()
      ensures tabs == old(tabs) - {tabId}
    {
      tabs := tabs - {tabId};
    }
  }
}
