/** `uniqueByUrl` of extension/content_script.js: the batch of media-element
    sources a page sends to the background, with repeated urls collapsed to
    the first item that carries them. */
module ContentScript {
  import opened Wrappers

  /** `{ url, contentType }` as collected from a <video> or <source> element;
      a url that is missing is None. */
  datatype Candidate = Candidate(url: Option<string>, contentType: Option<string>)

  /** `it && it.url`: the item is present and its url is a non-empty string. */
  predicate HasUrl(it: Option<Candidate>) {
    it.Some? && it.value.url.Some? && it.value.url.value != ""
  }

  /** The urls of the items that have one. */
  function UrlsOf(items: seq<Option<Candidate>>): set<string> {
    if items == [] then {}
    else
      var it := items[|items| - 1];
      UrlsOf(items[..|items| - 1]) + if HasUrl(it) then {it.value.url.value} else {}
  }

  /** The urls of kept candidates. */
  function UrlSet(out: seq<Candidate>): set<string> {
    if out == [] then {}
    else
      var it := out[|out| - 1];
      UrlSet(out[..|out| - 1]) + if it.url.Some? then {it.url.value} else {}
  }

  /** The reference definition: an item is kept when it has a url and no
      earlier item has the same url. */
  function FirstOccurrences(items: seq<Option<Candidate>>): seq<Candidate> {
    if items == [] then []
    else
      var before := items[..|items| - 1];
      var it := items[|items| - 1];
      if HasUrl(it) && it.value.url.value !in UrlsOf(before) then FirstOccurrences(before) + [it.value]
      else FirstOccurrences(before)
  }

  /** `uniqueByUrl(items)`; `seen` is the Set of urls already pushed. */
  method UniqueByUrl(items: seq<Option<Candidate>>) returns (out: seq<Candidate>)
    ensures out == FirstOccurrences(items)
  {
    var seen: set<string> := {};
    out := [];
    for i := 0 to |items|
      invariant out == FirstOccurrences(items[..i])
      invariant seen == UrlsOf(items[..i])
      invariant seen == UrlSet(out)
      invariant |out| <= i
    {
      var it := items[i];
      assert items[..i + 1][..i] == items[..i];
      if it.Some? && it.value.url.Some? && it.value.url.value != "" && it.value.url.value !in seen {
        seen := seen + {it.value.url.value};
        assert (out + [it.value])[..|out|] == out;
        out := out + [it.value];
      }
    }
    assert items[..|items|] == items;
  }

  // ---------------------------------------------------------------------
  // What uniqueByUrl promises

  /** out is obtained from items by dropping items (and unwrapping the rest):
      relative order is preserved. */
  ghost predicate IsSubsequence(out: seq<Candidate>, items: seq<Option<Candidate>>)
    decreases |items|
  {
    if out == [] then true
    else if items == [] then false
    else
      || (items[|items| - 1] == Some(out[|out| - 1]) && IsSubsequence(out[..|out| - 1], items[..|items| - 1]))
      || IsSubsequence(out, items[..|items| - 1])
  }

  /** Item i has a url that no earlier item has. */
  ghost predicate IsFirstWithUrl(items: seq<Option<Candidate>>, i: int)
    requires 0 <= i < |items|
  {
    HasUrl(items[i]) &&
    forall j | 0 <= j < i :: !(HasUrl(items[j]) && items[j].value.url == items[i].value.url)
  }

  lemma {:induction false} UrlsOfMembership(items: seq<Option<Candidate>>, u: string)
    ensures u in UrlsOf(items) <==>
      exists j | 0 <= j < |items| :: HasUrl(items[j]) && items[j].value.url.value == u
  {
    if items != [] {
      var before := items[..|items| - 1];
      UrlsOfMembership(before, u);
      assert forall j | 0 <= j < |before| :: before[j] == items[j];
    }
  }

  /** The kept items carry exactly the urls the input items carry, so every
      item with a url has its url present in the output. */
  lemma {:induction false} KeepsEveryUrl(items: seq<Option<Candidate>>)
    ensures UrlSet(FirstOccurrences(items)) == UrlsOf(items)
  {
    if items != [] {
      var before := items[..|items| - 1];
      KeepsEveryUrl(before);
      var out := FirstOccurrences(before);
      var it := items[|items| - 1];
      if HasUrl(it) && it.value.url.value !in UrlsOf(before) {
        assert (out + [it.value])[..|out|] == out;
      }
    }
  }

  /** Every kept item is present and has a non-empty url. */
  lemma {:induction false} KeepsOnlyItemsWithUrl(items: seq<Option<Candidate>>)
    ensures forall k | 0 <= k < |FirstOccurrences(items)| :: HasUrl(Some(FirstOccurrences(items)[k]))
  {
    if items != [] {
      KeepsOnlyItemsWithUrl(items[..|items| - 1]);
    }
  }

  /** No two kept items share a url. */
  lemma {:induction false} KeptUrlsDistinct(items: seq<Option<Candidate>>)
    ensures var out := FirstOccurrences(items);
      forall j, k | 0 <= j < k < |out| :: out[j].url != out[k].url
  {
    if items != [] {
      var before := items[..|items| - 1];
      KeptUrlsDistinct(before);
      KeepsEveryUrl(before);
      KeepsOnlyItemsWithUrl(before);
      var out := FirstOccurrences(before);
      var it := items[|items| - 1];
      if HasUrl(it) && it.value.url.value !in UrlsOf(before) {
        forall j | 0 <= j < |out| ensures out[j].url != it.value.url {
          UrlSetMembership(out, j);
        }
      }
    }
  }

  lemma {:induction false} UrlSetMembership(out: seq<Candidate>, j: int)
    requires 0 <= j < |out| && out[j].url.Some?
    ensures out[j].url.value in UrlSet(out)
  {
    if j < |out| - 1 {
      UrlSetMembership(out[..|out| - 1], j);
    }
  }

  /** The output is a subsequence of the input: relative order is kept. */
  lemma {:induction false} KeepsOrder(items: seq<Option<Candidate>>)
    ensures IsSubsequence(FirstOccurrences(items), items)
  {
    if items != [] {
      var before := items[..|items| - 1];
      KeepsOrder(before);
      var out := FirstOccurrences(before);
      var it := items[|items| - 1];
      if HasUrl(it) && it.value.url.value !in UrlsOf(before) {
        assert (out + [it.value])[..|out|] == out;
      } else if out != [] {
        assert IsSubsequence(out, items);
      }
    }
  }

  /** Each kept item is the first input item carrying its url. */
  lemma {:induction false} KeepsFirstCarrier(items: seq<Option<Candidate>>, k: int)
    requires 0 <= k < |FirstOccurrences(items)|
    ensures exists i | 0 <= i < |items| ::
      IsFirstWithUrl(items, i) && items[i] == Some(FirstOccurrences(items)[k])
  {
    var before := items[..|items| - 1];
    var n := |items| - 1;
    var it := items[n];
    var out := FirstOccurrences(before);
    if HasUrl(it) && it.value.url.value !in UrlsOf(before) && k == |out| {
      UrlsOfMembership(before, it.value.url.value);
      assert forall j | 0 <= j < n :: before[j] == items[j];
      assert IsFirstWithUrl(items, n);
    } else {
      KeepsFirstCarrier(before, k);
      var i :| 0 <= i < |before| && IsFirstWithUrl(before, i) && before[i] == Some(out[k]);
      assert forall j | 0 <= j <= i :: before[j] == items[j];
      assert IsFirstWithUrl(items, i);
    }
  }

  /** The first item carrying a url is kept. */
  lemma {:induction false} KeepsEveryFirstCarrier(items: seq<Option<Candidate>>, i: int)
    requires 0 <= i < |items| && IsFirstWithUrl(items, i)
    ensures items[i].value in FirstOccurrences(items)
  {
    var before := items[..|items| - 1];
    var n := |items| - 1;
    assert forall j | 0 <= j < n :: before[j] == items[j];
    if i == n {
      UrlsOfMembership(before, items[n].value.url.value);
    } else {
      assert IsFirstWithUrl(before, i);
      KeepsEveryFirstCarrier(before, i);
    }
  }
}
