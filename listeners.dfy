/** The listeners of extension/background.js that feed the cache and clear
    it: the webRequest response-header observer, the `videoElements` message
    handler and the navigation handler. */
module Listeners {
  import opened Wrappers
  import opened Classifier
  import opened VideoStore
  import opened ContentScript

  /** One entry of `details.responseHeaders`. */
  datatype Header = Header(name: string, value: string)

  /** `responseHeaders.find(h => h.name.toLowerCase() === name)`, value of:
      the first header whose name matches in any letter case. */
  function FindHeader(headers: seq<Header>, name: string): (r: Option<string>)
    ensures r.Some? ==> exists i | 0 <= i < |headers| ::
      && Lower(headers[i].name) == name && headers[i].value == r.value
      && forall j | 0 <= j < i :: Lower(headers[j].name) != name
    ensures r.None? ==> forall i | 0 <= i < |headers| :: Lower(headers[i].name) != name
  {
    if headers == [] then None
    else if Lower(headers[0].name) == name then
      Some(headers[0].value)
    else
      var r := FindHeader(headers[1..], name);
      assert forall j | 1 <= j <= |headers| - 1 :: headers[1..][j - 1] == headers[j];
      if r.Some? then
        var i :| 0 <= i < |headers[1..]| && Lower(headers[1..][i].name) == name && headers[1..][i].value == r.value
                 && forall j | 0 <= j < i :: Lower(headers[1..][j].name) != name;
        assert Lower(headers[i + 1].name) == name && headers[i + 1].value == r.value;
        r
      else r
  }

  /** The observation the webRequest listener passes to `addVideo`. It
      carries contentType and sizeBytes even when they are `undefined`.
      `number` stands for `Number`, None for NaN. */
  function NetworkObservation(url: string, contentType: Option<string>, contentLength: Option<string>,
                              parsePath: string -> Option<string>, number: string -> Option<int>): (o: Observation)
    ensures o.url == url && o.source == WebRequest && o.filename != ""
    ensures o.contentType == Carried(contentType) && o.sizeBytes.Carried?
    ensures o.sizeBytes.value.Some? <==>
      contentLength.Some? && contentLength.value != "" && number(contentLength.value).Some?
    ensures o.sizeBytes.value.Some? ==> o.sizeBytes.value == number(contentLength.value)
  {
    var sizeBytes := if contentLength.Some? && contentLength.value != "" then number(contentLength.value) else None;
    Observation(url, FilenameFromUrl(url, parsePath), Carried(contentType), Carried(sizeBytes), WebRequest)
  }

  /** `webRequest.onHeadersReceived`: events of negative tabs and responses
      that are not video-like are dropped; the rest are recorded at `now`. */
  method OnHeadersReceived(cache: VideoCache, tabId: int, url: string, responseHeaders: seq<Header>,
                           now: int, parsePath: string -> Option<string>, number: string -> Option<int>)
    requires cache.Valid()
    modifies cache
    ensures cache.Valid()
    ensures var ct := FindHeader(responseHeaders, "content-type");
      var o := NetworkObservation(url, ct, FindHeader(responseHeaders, "content-length"), parsePath, number);
      if tabId < 0 || !IsVideoLike(url, ct) then
        cache.tabs == old(cache.tabs) && cache.badges == old(cache.badges)
      else
        && cache.tabs == AddedVideo(old(cache.tabs), tabId, o, now)
        && cache.badges == old(cache.badges)[tabId := BadgeText(|cache.tabs[tabId].records|)]
  {
    if tabId < 0 {
      return;
    }
    var ct := FindHeader(responseHeaders, "content-type");
    var cl := FindHeader(responseHeaders, "content-length");
    if !IsVideoLike(url, ct) {
      return;
    }
    cache.AddVideo(tabId, NetworkObservation(url, ct, cl, parsePath, number), now);
  }

  /** The observation the `videoElements` handler passes to `addVideo`:
      contentType is carried even when `undefined`, sizeBytes is not. */
  function DomObservation(url: string, contentType: Option<string>, parsePath: string -> Option<string>): (o: Observation)
    ensures o.url == url && o.source == Dom && o.filename != ""
    ensures o.contentType == Carried(contentType) && o.sizeBytes.Absent?
  {
    Observation(url, FilenameFromUrl(url, parsePath), Carried(contentType), Absent, Dom)
  }

  /** The cache after the handler has seen one item: an item with a url is
      recorded, without being classified again; the others are skipped. */
  function RecordedItem(c: Cache, tabId: int, it: Option<Candidate>, now: int,
                        parsePath: string -> Option<string>): (r: Cache)
    requires ValidCache(c)
    ensures ValidCache(r)
  {
    if HasUrl(it) then AddedVideo(c, tabId, DomObservation(it.value.url.value, it.value.contentType, parsePath), now)
    else c
  }

  /** The cache after the handler has seen the items of a batch in turn. */
  function RecordedItems(c: Cache, tabId: int, items: seq<Option<Candidate>>, now: int,
                         parsePath: string -> Option<string>): (r: Cache)
    requires ValidCache(c)
    ensures ValidCache(r)
  {
    if items == [] then c
    else
      var before := RecordedItems(c, tabId, items[..|items| - 1], now, parsePath);
      RecordedItem(before, tabId, items[|items| - 1], now, parsePath)
  }

  predicate AnyHasUrl(items: seq<Option<Candidate>>) {
    exists i | 0 <= i < |items| :: HasUrl(items[i])
  }

  /** The badges after some `addVideo` calls for the tab, the last of them
      when the cache was c; unchanged when there were none. */
  function BadgesAfter(badges: map<int, string>, c: Cache, tabId: int, added: bool): map<int, string> {
    if added && tabId >= 0 && tabId in c then badges[tabId := BadgeText(|c[tabId].records|)] else badges
  }

  /** A batch for a negative tab, or one without an item that has a url,
      changes nothing. */
  lemma {:induction false} BatchWithoutUrls(c: Cache, tabId: int, items: seq<Option<Candidate>>, now: int,
                                            parsePath: string -> Option<string>)
    requires ValidCache(c) && (tabId < 0 || !AnyHasUrl(items))
    ensures RecordedItems(c, tabId, items, now, parsePath) == c
    decreases |items|
  {
    if items != [] {
      var init := items[..|items| - 1];
      assert forall j | 0 <= j < |init| :: init[j] == items[j];
      BatchWithoutUrls(c, tabId, init, now, parsePath);
    }
  }

  /** One more item of the batch: recorded when it has a url. */
  lemma RecordedStep(c: Cache, tabId: int, items: seq<Option<Candidate>>, i: int, now: int,
                     parsePath: string -> Option<string>)
    requires ValidCache(c) && 0 <= i < |items|
    ensures var before := RecordedItems(c, tabId, items[..i], now, parsePath);
      RecordedItems(c, tabId, items[..i + 1], now, parsePath) ==
        RecordedItem(before, tabId, items[i], now, parsePath)
    ensures AnyHasUrl(items[..i + 1]) <==> AnyHasUrl(items[..i]) || HasUrl(items[i])
  {
    assert items[..i + 1][..i] == items[..i];
    assert items[..i + 1][i] == items[i];
    assert forall j | 0 <= j < i :: items[..i + 1][j] == items[..i][j];
  }

  /** Recording an item keeps every tab; one with a url has its tab. */
  lemma RecordedItemKeys(c: Cache, tabId: int, it: Option<Candidate>, now: int,
                         parsePath: string -> Option<string>)
    requires ValidCache(c)
    ensures var r := RecordedItem(c, tabId, it, now, parsePath);
      && c.Keys <= r.Keys
      && (HasUrl(it) && tabId >= 0 ==> tabId in r)
      && (!HasUrl(it) ==> r == c)
  {
  }

  /** After a batch, the sender's tab holds a record for every item with a
      url. */
  lemma BatchRecordsEveryUrl(c: Cache, tabId: int, items: seq<Option<Candidate>>, now: int,
                             parsePath: string -> Option<string>)
    requires ValidCache(c) && tabId >= 0
    ensures var r := RecordedItems(c, tabId, items, now, parsePath);
      forall i | 0 <= i < |items| && HasUrl(items[i]) ::
        tabId in r && items[i].value.url.value in r[tabId].records
  {
    forall i | 0 <= i < |items| && HasUrl(items[i])
      ensures var r := RecordedItems(c, tabId, items, now, parsePath);
        tabId in r && items[i].value.url.value in r[tabId].records
    {
      BatchRecordsUrl(c, tabId, items, i, now, parsePath);
    }
  }

  /** The url of item i of a batch is recorded once the batch is through. */
  lemma {:induction false} BatchRecordsUrl(c: Cache, tabId: int, items: seq<Option<Candidate>>, i: int, now: int,
                                           parsePath: string -> Option<string>)
    requires ValidCache(c) && tabId >= 0 && 0 <= i < |items| && HasUrl(items[i])
    ensures var r := RecordedItems(c, tabId, items, now, parsePath);
      tabId in r && items[i].value.url.value in r[tabId].records
    decreases |items|
  {
    var last := |items| - 1;
    var init := items[..last];
    var before := RecordedItems(c, tabId, init, now, parsePath);
    if i < last {
      assert init[i] == items[i];
      BatchRecordsUrl(c, tabId, init, i, now, parsePath);
    }
    RecordedItemKeepsUrl(before, tabId, items[last], items[i].value.url.value, now, parsePath);
  }

  /** Recording one item forgets no url of the tab and adds the item's own. */
  lemma RecordedItemKeepsUrl(c: Cache, tabId: int, it: Option<Candidate>, u: string, now: int,
                             parsePath: string -> Option<string>)
    requires ValidCache(c) && tabId >= 0
    requires (tabId in c && u in c[tabId].records) || (HasUrl(it) && u == it.value.url.value)
    ensures var r := RecordedItem(c, tabId, it, now, parsePath);
      tabId in r && u in r[tabId].records
  {
    if HasUrl(it) {
      AddedVideoKeepsUrls(c, tabId, DomObservation(it.value.url.value, it.value.contentType, parsePath), now);
    }
  }

  /** A batch from one tab leaves every other tab as it was. */
  lemma {:induction false} BatchKeepsOtherTabs(c: Cache, tabId: int, items: seq<Option<Candidate>>, now: int,
                                               parsePath: string -> Option<string>)
    requires ValidCache(c)
    ensures var r := RecordedItems(c, tabId, items, now, parsePath);
      forall t | t != tabId :: (t in r <==> t in c) && (t in c ==> r[t] == c[t])
    decreases |items|
  {
    if |items| > 0 {
      BatchKeepsOtherTabs(c, tabId, items[..|items| - 1], now, parsePath);
    }
  }

  /** One more item updates the badges as `BadgesAfter` says. */
  lemma BadgesStep(badges: map<int, string>, c1: Cache, c2: Cache, tabId: int, added: bool, has: bool)
    requires tabId >= 0 && (added || has) ==> tabId in c2
    requires !has ==> c2 == c1
    ensures (if has && tabId >= 0
             then BadgesAfter(badges, c1, tabId, added)[tabId := BadgeText(|c2[tabId].records|)]
             else BadgesAfter(badges, c1, tabId, added))
            == BadgesAfter(badges, c2, tabId, added || has)
  {
  }

  /** The `forEach` callback of the `videoElements` handler: an item with a
      url is recorded, without being classified again. */
  method RecordItem(cache: VideoCache, tabId: int, it: Option<Candidate>, now: int,
                    parsePath: string -> Option<string>)
    requires cache.Valid()
    modifies cache
    ensures cache.Valid()
    ensures cache.tabs == RecordedItem(old(cache.tabs), tabId, it, now, parsePath)
    ensures cache.badges ==
      if HasUrl(it) && tabId >= 0
      then old(cache.badges)[tabId := BadgeText(|cache.tabs[tabId].records|)]
      else old(cache.badges)
  {
    if it.None? || it.value.url.None? || it.value.url.value == "" {
      return;
    }
    cache.AddVideo(tabId, DomObservation(it.value.url.value, it.value.contentType, parsePath), now);
  }

  /** The `videoElements` message handler; `senderTab` is the id of the
      sender's tab, None when the sender is not a tab. */
  method OnVideoElements(cache: VideoCache, senderTab: Option<int>, items: seq<Option<Candidate>>,
                         now: int, parsePath: string -> Option<string>)
    requires cache.Valid()
    modifies cache
    ensures cache.Valid()
    ensures senderTab.None? ==> cache.tabs == old(cache.tabs) && cache.badges == old(cache.badges)
    ensures senderTab.Some? && senderTab.value >= 0 && AnyHasUrl(items) ==> senderTab.value in cache.tabs
    ensures senderTab.Some? ==>
      var tabId := senderTab.value;
      && cache.tabs == RecordedItems(old(cache.tabs), tabId, items, now, parsePath)
      && cache.badges == if tabId >= 0 && AnyHasUrl(items)
                         then old(cache.badges)[tabId := BadgeText(|cache.tabs[tabId].records|)]
                         else old(cache.badges)
  {
    if senderTab.None? {
      return;
    }
    var tabId := senderTab.value;
    ghost var badges0 := cache.badges;
    for i := 0 to |items|
      invariant cache.Valid()
      invariant cache.tabs == RecordedItems(old(cache.tabs), tabId, items[..i], now, parsePath)
      invariant tabId >= 0 && AnyHasUrl(items[..i]) ==> tabId in cache.tabs
      invariant cache.badges == BadgesAfter(badges0, cache.tabs, tabId, AnyHasUrl(items[..i]))
    {
      ghost var tabs1 := cache.tabs;
      RecordItem(cache, tabId, items[i], now, parsePath);
      RecordedStep(old(cache.tabs), tabId, items, i, now, parsePath);
      RecordedItemKeys(tabs1, tabId, items[i], now, parsePath);
      BadgesStep(badges0, tabs1, cache.tabs, tabId, AnyHasUrl(items[..i]), HasUrl(items[i]));
    }
    assert items[..|items|] == items;
  }

  /** `tabs.onUpdated`: a tab that starts loading a page is cleared. */
  method OnUpdated(cache: VideoCache, tabId: int, status: string)
    requires cache.Valid()
    modifies cache
    ensures cache.Valid()
    ensures status == "loading" ==>
      cache.tabs == old(cache.tabs) - {tabId} && cache.badges == old(cache.badges)[tabId := ""]
    ensures status != "loading" ==>
      cache.tabs == old(cache.tabs) && cache.badges == old(cache.badges)
  {
    if status == "loading" {
      cache.ClearTab(tabId);
    }
  }
}
