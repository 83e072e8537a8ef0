/** `getYouTubeVideoId`: the id of a YouTube video from a link. Three
    patterns are tried in order, each a fixed marker followed by a captured
    run of characters other than '&', '\n', '?' and '#':

      youtube.com/watch?v=   youtu.be/   youtube.com/embed/

    A regular expression without anchors matches at the leftmost position
    where it can, and the `+` on the character class is greedy, so a pattern
    captures the longest run after the leftmost marker occurrence that is
    followed by at least one allowed character. The search is modelled here
    position by position instead of with a regular-expression engine. */
module YouTube {
  import opened Types
  import opened JsStrings

  const WatchMarker := "youtube.com/watch?v="
  const ShortMarker := "youtu.be/"
  const EmbedMarker := "youtube.com/embed/"

  /** The markers in the order they are tried. */
  const Markers := [WatchMarker, ShortMarker, EmbedMarker]

  /** The character class `[^&\n?#]`. */
  predicate Allowed(c: char) {
    c != '&' && c != '\n' && c != '?' && c != '#'
  }

  /** Length of the longest run of allowed characters starting at `j`. */
  function RunLength(s: string, j: nat): (n: nat)
    requires j <= |s|
    ensures j + n <= |s|
    ensures forall k :: j <= k < j + n ==> Allowed(s[k])
    ensures j + n == |s| || !Allowed(s[j + n])
    decreases |s| - j
  {
    if j == |s| || !Allowed(s[j]) then 0 else 1 + RunLength(s, j + 1)
  }

  /** The pattern of marker `m` can match at `i`: the marker occurs there and
      is followed by at least one allowed character. */
  predicate MatchAt(s: string, m: string, i: int) {
    OccursAt(s, m, i) && i + |m| < |s| && Allowed(s[i + |m|])
  }

  /** The leftmost position at or after `i` where the pattern of `m` can
      match, if any. */
  function FirstMatch(s: string, m: string, i: nat): (r: Option<nat>)
    ensures r.Some? ==> i <= r.value && MatchAt(s, m, r.value)
    ensures r.Some? ==> forall j :: i <= j < r.value ==> !MatchAt(s, m, j)
    ensures r.None? ==> forall j :: i <= j ==> !MatchAt(s, m, j)
    decreases |s| - i
  {
    if i > |s| then None
    else if MatchAt(s, m, i) then Some(i)
    else FirstMatch(s, m, i + 1)
  }

  /** The captured group: the longest allowed run starting at `j`. */
  function Captured(s: string, j: nat): (g: string)
    requires j <= |s|
    ensures |g| == RunLength(s, j) && g == s[j..j + |g|]
  {
    s[j..j + RunLength(s, j)]
  }

  /** `url.match(pattern)?.[1]` for the pattern of marker `m`. */
  function MatchGroup(s: string, m: string): (r: Option<string>)
    ensures r.Some? <==> exists i :: MatchAt(s, m, i)
    ensures r.Some? ==> |r.value| >= 1 && forall k :: 0 <= k < |r.value| ==> Allowed(r.value[k])
  {
    match FirstMatch(s, m, 0)
    case None => None
    case Some(i) => Some(Captured(s, i + |m|))
  }

  /** The loop over the patterns: the first one that matches decides. */
  function FirstPattern(s: string, markers: seq<string>): (r: Option<string>)
    ensures r.None? <==> forall p :: 0 <= p < |markers| ==> MatchGroup(s, markers[p]).None?
  {
    if markers == [] then None
    else
      match MatchGroup(s, markers[0])
      case Some(id) => Some(id)
      case None =>
        var rest := FirstPattern(s, markers[1..]);
        assert forall p :: 1 <= p < |markers| ==> markers[p] == markers[1..][p - 1];
        rest
  }

  /** `getYouTubeVideoId`: nothing for a missing or empty link; otherwise the
      group of the first pattern that matches, or nothing. */
  function GetYouTubeVideoId(url: Option<string>): (r: Option<string>)
    ensures url.None? || url.value == "" ==> r.None?
    ensures r.Some? ==> |r.value| >= 1 && forall k :: 0 <= k < |r.value| ==> Allowed(r.value[k])
    ensures url.Some? && url.value != "" ==>
      (r.None? <==> forall p, i :: 0 <= p < |Markers| ==> !MatchAt(url.value, Markers[p], i))
  {
    if url.None? || url.value == "" then None
    else
      var r := FirstPattern(url.value, Markers);
      assert r.Some? ==> exists p :: 0 <= p < |Markers| && r == MatchGroup(url.value, Markers[p]) by {
        if r.Some? { FirstPatternIsSomeGroup(url.value, Markers); }
      }
      r
  }

  /** The result of the pattern loop is the group of one of the markers. */
  lemma {:induction false} FirstPatternIsSomeGroup(s: string, markers: seq<string>)
    requires FirstPattern(s, markers).Some?
    ensures exists p :: 0 <= p < |markers| && FirstPattern(s, markers) == MatchGroup(s, markers[p])
  {
    if MatchGroup(s, markers[0]).None? {
      FirstPatternIsSomeGroup(s, markers[1..]);
      var p :| 0 <= p < |markers[1..]| && FirstPattern(s, markers[1..]) == MatchGroup(s, markers[1..][p]);
      assert markers[1..][p] == markers[p + 1];
    }
  }

  /** A pattern list whose first pattern does not match falls through to
      the rest. */
  lemma FirstPatternSkip(s: string, markers: seq<string>)
    requires |markers| >= 1 && MatchGroup(s, markers[0]).None?
    ensures FirstPattern(s, markers) == FirstPattern(s, markers[1..])
  {
  }

  /** A pattern list whose first pattern matches returns its group. */
  lemma FirstPatternHead(s: string, markers: seq<string>)
    requires |markers| >= 1 && MatchGroup(s, markers[0]).Some?
    ensures FirstPattern(s, markers) == MatchGroup(s, markers[0])
  {
  }

  /** The result of one pattern is the longest allowed run right after its
      leftmost matching occurrence, so it is a substring of the link and the
      character after it, if any, is one of '&', '\n', '?', '#'. */
  lemma GroupIsLeftmostLongestRun(s: string, m: string)
    requires MatchGroup(s, m).Some?
    ensures exists i :: LeftmostMatch(s, m, i) && MatchGroup(s, m).value == Captured(s, i + |m|)
    ensures Includes(s, MatchGroup(s, m).value)
  {
    var i := FirstMatch(s, m, 0).value;
    assert LeftmostMatch(s, m, i);
    var g := Captured(s, i + |m|);
    assert OccursAt(s, g, i + |m|);
  }

  /** `i` is the leftmost position where the pattern of `m` matches. */
  predicate LeftmostMatch(s: string, m: string, i: int) {
    MatchAt(s, m, i) && forall j :: 0 <= j < i ==> !MatchAt(s, m, j)
  }

  /** The same for the whole function: the id comes from one marker's
      leftmost match. */
  lemma ResultIsLeftmostLongestRun(url: string)
    requires GetYouTubeVideoId(Some(url)).Some?
    ensures exists p :: 0 <= p < |Markers| && GetYouTubeVideoId(Some(url)) == MatchGroup(url, Markers[p])
    ensures Includes(url, GetYouTubeVideoId(Some(url)).value)
  {
    FirstPatternIsSomeGroup(url, Markers);
    var p :| 0 <= p < |Markers| && FirstPattern(url, Markers) == MatchGroup(url, Markers[p]);
    GroupIsLeftmostLongestRun(url, Markers[p]);
  }

  /** A match of the watch pattern anywhere decides the result, even if a
      later pattern's marker comes first in the link. */
  lemma WatchPatternWins(url: string, i: int)
    requires MatchAt(url, WatchMarker, i)
    ensures GetYouTubeVideoId(Some(url)) == MatchGroup(url, WatchMarker)
  {
  }

  /** Without a watch match, a match of the short-link pattern decides. */
  lemma ShortPatternNext(url: string, i: int)
    requires forall j :: !MatchAt(url, WatchMarker, j)
    requires MatchAt(url, ShortMarker, i)
    ensures GetYouTubeVideoId(Some(url)) == MatchGroup(url, ShortMarker)
  {
    FirstPatternSkip(url, Markers);
    assert Markers[1..][0] == ShortMarker;
    FirstPatternHead(url, Markers[1..]);
  }

  /** The match is not anchored: a marker followed by an allowed character
      anywhere in the link gives an id. */
  lemma AnyMarkerMatches(url: string, p: nat, i: int)
    requires p < |Markers| && MatchAt(url, Markers[p], i)
    ensures GetYouTubeVideoId(Some(url)).Some?
  {
  }

  /** Matching is case-sensitive: every marker starts with a lowercase 'y', so
      a link without one, such as "https://YouTube.com/watch?v=abc", gives
      nothing. */
  lemma NoLowercaseYNoId(url: string)
    requires 'y' !in url
    ensures GetYouTubeVideoId(Some(url)).None?
  {
    forall p, i | 0 <= p < |Markers|
      ensures !MatchAt(url, Markers[p], i)
    {
      assert Markers[p][0] == 'y';
      if 0 <= i && i + |Markers[p]| <= |url| {
        assert url[i..i + |Markers[p]|][0] == url[i];
        assert url[i] in url;
      }
    }
    assert FirstPattern(url, Markers).None?;
  }

  lemma CaseSensitiveExample(url: string)
    requires url == "https://YouTube.com/watch?v=abc"
    ensures GetYouTubeVideoId(Some(url)).None?
  {
    NoLowercaseYNoId(url);
  }

  /** A watch link whose text before the marker has no 'y' yields exactly the
      id between the marker and the first '&', '\n', '?' or '#'. */
  lemma WatchLinkId(prefix: string, id: string, rest: string)
    requires 'y' !in prefix
    requires |id| >= 1 && forall k :: 0 <= k < |id| ==> Allowed(id[k])
    requires rest == [] || !Allowed(rest[0])
    ensures GetYouTubeVideoId(Some(prefix + WatchMarker + id + rest)) == Some(id)
  {
    var url := prefix + WatchMarker + id + rest;
    WatchLinkMatch(prefix, id, rest);
    WatchLinkCapture(prefix, id, rest);
    assert MatchGroup(url, WatchMarker) == Some(id);
    WatchPatternWins(url, |prefix|);
  }

  /** In such a link the watch pattern first matches right after the
      prefix. */
  lemma WatchLinkMatch(prefix: string, id: string, rest: string)
    requires 'y' !in prefix
    requires |id| >= 1 && Allowed(id[0])
    ensures FirstMatch(prefix + WatchMarker + id + rest, WatchMarker, 0) == Some(|prefix|)
  {
    var url := prefix + WatchMarker + id + rest;
    var m := WatchMarker;
    var i := |prefix|;
    assert url[i..i + |m|] == m;
    assert url[i + |m|] == id[0];
    forall j | 0 <= j < i ensures !MatchAt(url, m, j) {
      assert url[j] == prefix[j];
      if j + |m| <= |url| {
        assert url[j..j + |m|][0] == url[j];
      }
    }
    FirstMatchIsLeftmost(url, m, 0, i);
  }

  /** ... and captures exactly the id. */
  lemma WatchLinkCapture(prefix: string, id: string, rest: string)
    requires forall k :: 0 <= k < |id| ==> Allowed(id[k])
    requires rest == [] || !Allowed(rest[0])
    ensures Captured(prefix + WatchMarker + id + rest, |prefix| + |WatchMarker|) == id
  {
    var url := prefix + WatchMarker + id + rest;
    var j := |prefix| + |WatchMarker|;
    assert url[j..j + |id|] == id;
    RunLengthOfRun(url, j, |id|);
  }

  /** `FirstMatch` finds the leftmost match. */
  lemma {:induction false} FirstMatchIsLeftmost(s: string, m: string, from: nat, i: nat)
    requires from <= i && MatchAt(s, m, i)
    requires forall j :: from <= j < i ==> !MatchAt(s, m, j)
    ensures FirstMatch(s, m, from) == Some(i)
    decreases i - from
  {
    if from < i {
      FirstMatchIsLeftmost(s, m, from + 1, i);
    }
  }

  /** A run of `n` allowed characters ended by a disallowed one or the end. */
  lemma {:induction false} RunLengthOfRun(s: string, j: nat, n: nat)
    requires j + n <= |s|
    requires forall k :: j <= k < j + n ==> Allowed(s[k])
    requires j + n == |s| || !Allowed(s[j + n])
    ensures RunLength(s, j) == n
    decreases n
  {
    if n > 0 {
      RunLengthOfRun(s, j + 1, n - 1);
    }
  }
}
