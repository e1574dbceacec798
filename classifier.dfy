/** The two pure helpers of extension/background.js: `isVideoLike`, which
    decides whether a URL and an optional content type denote a video, and
    `filenameFromUrl`, which names the file a detected URL is saved under. */
module Classifier {
  import opened Wrappers
  import Uri

  /** The alternatives of VIDEO_EXT_RE, in the order the expression lists them. */
  const VIDEO_EXTENSIONS: seq<string> := ["mp4", "webm", "mkv", "m3u8", "mov", "m4v"]

  /** The name used when no better one can be derived from the URL. */
  const FALLBACK_NAME: string := "video"

  /** Letter case folding, for ASCII letters only. This is exact for the
      regular expression's `i` flag, which without `u` never folds a non-ASCII
      character onto an ASCII one. It is also exact for every `toLowerCase`
      comparison here, whose patterns are all ASCII. Only two non-ASCII
      characters lower-case to something that contains an ASCII letter:
      - U+212A lower-cases to `k`, which no pattern contains;
      - U+0130 lower-cases to `i` followed by U+0307. In every pattern an `i`
        is followed by an ASCII letter, so this `i` can never complete a
        match (the `vi` of `video/`, for instance). */
  function LowerChar(c: char): char {
    if 'A' <= c <= 'Z' then (c as int - 'A' as int + 'a' as int) as char else c
  }

  function Lower(s: string): string {
    seq(|s|, i requires 0 <= i < |s| => LowerChar(s[i]))
  }

  // ---------------------------------------------------------------------
  // isVideoLike

  /** VIDEO_EXT_RE matches at index i with alternative ext: a dot, ext in any
      letter case, then `?`, `#` or the end of the URL. */
  predicate ExtensionAt(url: string, i: nat, ext: string) {
    var end := i + 1 + |ext|;
    end <= |url| && url[i] == '.' && Lower(url[i + 1..end]) == ext &&
    (end == |url| || url[end] == '?' || url[end] == '#')
  }

  predicate MatchAt(url: string, i: nat) {
    exists k | 0 <= k < |VIDEO_EXTENSIONS| :: ExtensionAt(url, i, VIDEO_EXTENSIONS[k])
  }

  /** `VIDEO_EXT_RE.test(url)`: the expression is unanchored, so it tests the
      whole URL, query and fragment included. */
  ghost predicate HasVideoExtension(url: string) {
    exists i | 0 <= i < |url| :: MatchAt(url, i)
  }

  /** The regular-expression search: the first index at or after `from` where
      the expression matches. */
  function FindExtension(url: string, from: nat): (r: Option<nat>)
    requires from <= |url|
    ensures r.Some? ==> from <= r.value < |url| && MatchAt(url, r.value)
    ensures r.Some? ==> forall j | from <= j < r.value :: !MatchAt(url, j)
    ensures r.None? ==> forall j | from <= j < |url| :: !MatchAt(url, j)
    decreases |url| - from
  {
    if from == |url| then None
    else if MatchAt(url, from) then Some(from)
    else FindExtension(url, from + 1)
  }

  /** pat occurs in s (JavaScript's `s.includes(pat)`). */
  ghost predicate Infix(pat: string, s: string) {
    exists i | 0 <= i <= |s| :: pat <= s[i..]
  }

  function Contains(s: string, pat: string): (r: bool)
    ensures r <==> Infix(pat, s)
  {
    if pat <= s then
      assert s[0..] == s;
      true
    else if s == [] then false
    else
      var r := Contains(s[1..], pat);
      assert forall i | 1 <= i <= |s| :: s[1..][i - 1..] == s[i..];
      r
  }

  lemma InfixTransitive(a: string, b: string, c: string)
    requires Infix(a, b) && Infix(b, c)
    ensures Infix(a, c)
  {
    var i :| 0 <= i <= |b| && a <= b[i..];
    var j :| 0 <= j <= |c| && b <= c[j..];
    assert a <= c[j + i..];
  }

  /** The content-type test of `isVideoLike`, on the lower-cased type:
      the two tests the four written disjuncts reduce to. */
  ghost predicate VideoContentType(ct: string) {
    "video/" <= ct || Infix("mpegurl", ct)
  }

  /** `isVideoLike(url, contentType)`: an extension match decides by itself;
      otherwise an absent or empty content type is false, and a present one is
      tested in lower case. */
  function IsVideoLike(url: string, contentType: Option<string>): (r: bool)
    ensures HasVideoExtension(url) ==> r
    ensures !HasVideoExtension(url) ==>
      (r <==> contentType.Some? && contentType.value != "" && VideoContentType(Lower(contentType.value)))
  {
    if FindExtension(url, 0).Some? then true
    else match contentType
      case None => false
      case Some(raw) =>
        if raw == "" then false
        else
          var ct := Lower(raw);
          var r := "video/" <= ct
            || Contains(ct, "application/vnd.apple.mpegurl")
            || Contains(ct, "application/x-mpegurl")
            || Contains(ct, "mpegurl");
          MpegurlVariants(ct);
          r
  }

  /** The two HLS playlist types the source names contain `mpegurl`, so the
      last disjunct subsumes them. */
  lemma MpegurlVariants(ct: string)
    ensures Infix("application/vnd.apple.mpegurl", ct) ==> Infix("mpegurl", ct)
    ensures Infix("application/x-mpegurl", ct) ==> Infix("mpegurl", ct)
  {
    assert "mpegurl" <= "application/vnd.apple.mpegurl"[22..];
    assert "mpegurl" <= "application/x-mpegurl"[14..];
    if Infix("application/vnd.apple.mpegurl", ct) {
      InfixTransitive("mpegurl", "application/vnd.apple.mpegurl", ct);
    }
    if Infix("application/x-mpegurl", ct) {
      InfixTransitive("mpegurl", "application/x-mpegurl", ct);
    }
  }

  // ---------------------------------------------------------------------
  // filenameFromUrl

  /** Joins path parts with `/`: the inverse of `Split`. */
  function Join(parts: seq<string>): string
    requires |parts| >= 1
  {
    if |parts| == 1 then parts[0] else Join(parts[..|parts| - 1]) + "/" + parts[|parts| - 1]
  }

  /** `s.split('/')`: the maximal runs between slashes, empty ones included. */
  function Split(s: string): (parts: seq<string>)
    ensures |parts| >= 1
    ensures forall k | 0 <= k < |parts| :: '/' !in parts[k]
    ensures Join(parts) == s
  {
    if s == [] then [""]
    else
      var init := Split(s[..|s| - 1]);
      var c := s[|s| - 1];
      assert s == s[..|s| - 1] + [c];
      if c == '/' then
        assert (init + [""])[..|init|] == init;
        init + [""]
      else
        ExtendLast(init, c);
        init[..|init| - 1] + [init[|init| - 1] + [c]]
  }

  /** Appending a character to the last part appends it to the joined string. */
  lemma ExtendLast(parts: seq<string>, c: char)
    requires |parts| >= 1
    ensures Join(parts[..|parts| - 1] + [parts[|parts| - 1] + [c]]) == Join(parts) + [c]
  {
    var q := parts[..|parts| - 1] + [parts[|parts| - 1] + [c]];
    assert q[..|q| - 1] == parts[..|parts| - 1];
  }

  /** `.filter(Boolean)`: the non-empty parts, in order. */
  function NonEmpty(parts: seq<string>): (r: seq<string>)
    ensures forall k | 0 <= k < |r| :: r[k] != "" && r[k] in parts
  {
    if parts == [] then []
    else
      var init := NonEmpty(parts[..|parts| - 1]);
      var last := parts[|parts| - 1];
      assert forall p | p in parts[..|parts| - 1] :: p in parts;
      if last == "" then init else init + [last]
  }

  /** `pathname.split('/').filter(Boolean).pop()`: the last non-empty segment. */
  function LastSegment(path: string): (r: Option<string>)
    ensures r.Some? ==> r.value != "" && '/' !in r.value
  {
    var segments := NonEmpty(Split(path));
    if segments == [] then None else Some(segments[|segments| - 1])
  }

  /** `filenameFromUrl(url)`; `parsePath` stands for `new URL(url).pathname`,
      `None` when the URL constructor throws. */
  function FilenameFromUrl(url: string, parsePath: string -> Option<string>): (r: string)
    ensures r != ""
  {
    match parsePath(url)
    case None => FALLBACK_NAME
    case Some(path) =>
      var name := match LastSegment(path) case None => FALLBACK_NAME case Some(s) => s;
      match Uri.PercentDecode(name)
      case None => FALLBACK_NAME
      case Some(decoded) => decoded
  }

  /** The last part `split` yields is the run after the last slash. */
  lemma {:induction false} SplitLastPart(s: string)
    ensures var parts := Split(s); var last := parts[|parts| - 1];
      |last| <= |s| && s[|s| - |last|..] == last && (|last| == |s| || s[|s| - |last| - 1] == '/')
  {
    if s != [] && s[|s| - 1] != '/' {
      SplitLastPart(s[..|s| - 1]);
      var init := Split(s[..|s| - 1]);
      var last := init[|init| - 1];
      assert s[|s| - 1 - |last|..] == s[..|s| - 1][|s| - 1 - |last|..] + [s[|s| - 1]];
    }
  }

  lemma TrailingSlashKeepsSegment(path: string)
    requires path != [] && path[|path| - 1] == '/'
    ensures LastSegment(path) == LastSegment(path[..|path| - 1])
  {
    var parts := Split(path);
    var initParts := Split(path[..|path| - 1]);
    assert parts[..|parts| - 1] == initParts;
  }

  lemma LastCharEndsSegment(path: string)
    requires path != [] && path[|path| - 1] != '/'
    ensures var parts := Split(path);
      LastSegment(path) == Some(parts[|parts| - 1])
  {
    var parts := Split(path);
    var initParts := Split(path[..|path| - 1]);
    assert parts[|parts| - 1] == initParts[|initParts| - 1] + [path[|path| - 1]];
  }

  /** There is no segment exactly when the path is made of slashes only. */
  lemma {:induction false} NoSegmentIffOnlySlashes(path: string)
    ensures LastSegment(path).None? <==> forall i | 0 <= i < |path| :: path[i] == '/'
  {
    if path != [] {
      if path[|path| - 1] == '/' {
        var init := path[..|path| - 1];
        TrailingSlashKeepsSegment(path);
        NoSegmentIffOnlySlashes(init);
        assert forall i | 0 <= i < |init| :: init[i] == path[i];
      } else {
        LastCharEndsSegment(path);
      }
    }
  }

  /** seg stands at index start of path, after a slash or at the start, and
      only slashes follow it. */
  ghost predicate SegmentAt(path: string, seg: string, start: nat) {
    && start + |seg| <= |path|
    && path[start..start + |seg|] == seg
    && (start == 0 || path[start - 1] == '/')
    && forall j | start + |seg| <= j < |path| :: path[j] == '/'
  }

  /** The segment `filenameFromUrl` starts from is the run of non-slash
      characters, beginning at `start` after a slash or at the start of the
      path, that only slashes follow. */
  lemma {:induction false} LastSegmentShape(path: string) returns (start: nat)
    requires LastSegment(path).Some?
    ensures SegmentAt(path, LastSegment(path).value, start)
  {
    if path[|path| - 1] == '/' {
      TrailingSlashKeepsSegment(path);
      start := LastSegmentShape(path[..|path| - 1]);
      SegmentBeforeSlash(path, LastSegment(path).value, start);
    } else {
      start := FinalSegmentShape(path);
    }
  }

  lemma SegmentBeforeSlash(path: string, seg: string, start: nat)
    requires path != [] && path[|path| - 1] == '/' && SegmentAt(path[..|path| - 1], seg, start)
    ensures SegmentAt(path, seg, start)
  {
    var init := path[..|path| - 1];
    assert forall i | 0 <= i < |init| :: init[i] == path[i];
    assert path[start..start + |seg|] == init[start..start + |seg|];
  }

  lemma FinalSegmentShape(path: string) returns (start: nat)
    requires path != [] && path[|path| - 1] != '/'
    ensures LastSegment(path).Some? && SegmentAt(path, LastSegment(path).value, start)
  {
    LastCharEndsSegment(path);
    SplitLastPart(path);
    var seg := LastSegment(path).value;
    start := |path| - |seg|;
    assert path[start..start + |seg|] == path[|path| - |seg|..];
  }

  // ---------------------------------------------------------------------
  // What the two helpers promise

  /** A dot and a video extension, in any letter case, followed by `?`, `#`
      or the end of the URL, make the URL video-like wherever they stand and
      whatever the content type says. */
  lemma ExtensionDecides(before: string, ext: string, after: string, contentType: Option<string>)
    requires Lower(ext) in VIDEO_EXTENSIONS
    requires after == [] || after[0] == '?' || after[0] == '#'
    ensures IsVideoLike(before + "." + ext + after, contentType)
  {
    var url := before + "." + ext + after;
    var i := |before|;
    assert url[i + 1..i + 1 + |ext|] == ext;
    var k :| 0 <= k < |VIDEO_EXTENSIONS| && VIDEO_EXTENSIONS[k] == Lower(ext);
    assert url[i] == '.';
    assert ExtensionAt(url, i, VIDEO_EXTENSIONS[k]);
    assert MatchAt(url, i);
  }

  /** A path segment without escapes is the file name as it stands. */
  lemma FilenameOfPlainSegment(url: string, parsePath: string -> Option<string>, path: string)
    requires parsePath(url) == Some(path)
    requires LastSegment(path).Some? && '%' !in LastSegment(path).value
    ensures FilenameFromUrl(url, parsePath) == LastSegment(path).value
  {
    Uri.DecodeWithoutEscapes(LastSegment(path).value);
  }

  /** The fallback name is used when the URL does not parse, when its path
      has no non-empty segment, and when the segment's escapes are malformed. */
  lemma FilenameFallback(url: string, parsePath: string -> Option<string>)
    requires || parsePath(url).None?
             || (forall i | 0 <= i < |parsePath(url).value| :: parsePath(url).value[i] == '/')
             || (&& parsePath(url).Some? && LastSegment(parsePath(url).value).Some?
                 && Uri.PercentDecode(LastSegment(parsePath(url).value).value).None?)
    ensures FilenameFromUrl(url, parsePath) == FALLBACK_NAME
  {
    Uri.DecodeWithoutEscapes(FALLBACK_NAME);
    if parsePath(url).Some? {
      NoSegmentIffOnlySlashes(parsePath(url).value);
    }
  }
}
