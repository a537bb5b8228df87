/**
 * `extract_video_id` of app.py: try the two URL patterns in a fixed order and
 * return `group(1)` of the first one that `re.search` finds anywhere in the
 * input, or `None` when neither matches.
 */
module Extractor {

  import opened Wrappers
  import opened RegexSearch

  /** The literal prefixes, as the regular expressions spell them once unescaped. */
  const WatchPrefix: string := "youtube.com/watch?v="
  const ShortLinkPrefix: string := "youtu.be/"
  const EmbedPrefix: string := "youtube.com/embed/"

  /** `(?:youtube\.com\/watch\?v=|youtu\.be\/)([^&\n?#]+)` */
  const WatchOrShortLink: Pattern := Pattern([WatchPrefix, ShortLinkPrefix])

  /** `youtube\.com\/embed\/([^&\n?#]+)` */
  const Embed: Pattern := Pattern([EmbedPrefix])

  /** The pattern list, in the order it is tried. */
  const Patterns: seq<Pattern> := [WatchOrShortLink, Embed]

  /** Group 1 of the first pattern in `pats` that matches somewhere in `url`. */
  function FirstGroup(pats: seq<Pattern>, url: string): (r: Option<string>)
    ensures r.None? <==> forall n :: 0 <= n < |pats| ==> NoMatch(pats[n], url)
    ensures r.Some? ==> exists n, m ::
      && 0 <= n < |pats|
      && (forall n' :: 0 <= n' < n ==> NoMatch(pats[n'], url))
      && IsLeftmostMatch(pats[n], url, m)
      && m.group == r.value
  {
    if pats == [] then None
    else match Search(pats[0], url)
      case Some(m) => Some(m.group)
      case None => FirstGroup(pats[1..], url)
  }

  /** The value `extract_video_id(url)` returns. */
  function VideoIdOf(url: string): Option<string> {
    FirstGroup(Patterns, url)
  }

  /** `extract_video_id`: the loop over the pattern list with its early return. */
  method ExtractVideoId(url: string) returns (id: Option<string>)
    ensures id == VideoIdOf(url)
  {
    for n := 0 to |Patterns|
      invariant FirstGroup(Patterns[n..], url) == VideoIdOf(url)
    {
      var found := Search(Patterns[n], url);
      if found.Some? {
        return Some(found.value.group);
      }
      assert Patterns[n..][1..] == Patterns[n + 1..];
    }
    return None;
  }

  /** The two-pattern list, unfolded: watch/short-link first, embed second. */
  lemma VideoIdUnfold(url: string)
    ensures VideoIdOf(url) ==
      match Search(WatchOrShortLink, url)
      case Some(m) => Some(m.group)
      case None => (match Search(Embed, url) case Some(m) => Some(m.group) case None => None)
  {
    assert Patterns[1..] == [Embed];
    assert [Embed][1..] == [];
    assert FirstGroup([], url) == None;
    assert FirstGroup([Embed], url) ==
      match Search(Embed, url) case Some(m) => Some(m.group) case None => None;
  }

  /**
   * The pattern order decides before the position does: the result is the
   * leftmost watch/short-link match when there is one, and only otherwise the
   * leftmost embed match.
   */
  lemma VideoIdByPatternOrder(url: string, id: string)
    ensures VideoIdOf(url) == Some(id) <==>
      || (exists m :: IsLeftmostMatch(WatchOrShortLink, url, m) && m.group == id)
      || (NoMatch(WatchOrShortLink, url) && exists m :: IsLeftmostMatch(Embed, url, m) && m.group == id)
  {
    VideoIdUnfold(url);
    forall m | IsLeftmostMatch(WatchOrShortLink, url, m) ensures Search(WatchOrShortLink, url) == Some(m) {
      SearchIsLeftmostMatch(WatchOrShortLink, url, m);
    }
    forall m | IsLeftmostMatch(Embed, url, m) ensures Search(Embed, url) == Some(m) {
      SearchIsLeftmostMatch(Embed, url, m);
    }
  }

  /** One of the three literal prefixes the patterns recognise. */
  predicate RecognisedPrefix(p: string) {
    p == WatchPrefix || p == ShortLinkPrefix || p == EmbedPrefix
  }

  /**
   * A returned ID is non-empty, holds none of `&`, `\n`, `?`, `#`, and is the
   * whole run of such characters right after an occurrence of a recognised
   * prefix: it ends at the end of the URL or just before a delimiter.
   */
  lemma VideoIdShape(url: string, id: string)
    requires VideoIdOf(url) == Some(id)
    ensures |id| > 0
    ensures forall c :: c in id ==> c != '&' && c != '\n' && c != '?' && c != '#'
    ensures exists i: nat, p :: RecognisedPrefix(p) && LiteralAt(url, i, p) && IsMaximalRun(url, i + |p|, id)
  {
    VideoIdUnfold(url);
    var pat := if Search(WatchOrShortLink, url).Some? then WatchOrShortLink else Embed;
    var m := Search(pat, url).value;
    MatchGroupNonEmptyInClass(pat, url, m);
    assert RecognisedPrefix(pat.alternatives[m.alternative]);
  }

  /**
   * `extract_video_id` returns `None` exactly when no recognised prefix occurs
   * anywhere in the URL followed by at least one character other than `&`,
   * `\n`, `?`, `#`.
   */
  lemma VideoIdNoneIff(url: string)
    ensures VideoIdOf(url).None? <==>
      forall i: nat, p :: RecognisedPrefix(p) ==> !AlternativeMatchesAt(url, i, p)
  {
    VideoIdUnfold(url);
    if VideoIdOf(url).None? {
      forall i: nat, p | RecognisedPrefix(p) ensures !AlternativeMatchesAt(url, i, p) {
        assert !MatchesAt(WatchOrShortLink, url, i) && !MatchesAt(Embed, url, i);
        if p == WatchPrefix {
          assert WatchOrShortLink.alternatives[0] == p;
        } else if p == ShortLinkPrefix {
          assert WatchOrShortLink.alternatives[1] == p;
        } else {
          assert Embed.alternatives[0] == p;
        }
      }
    } else {
      var m := if Search(WatchOrShortLink, url).Some? then Search(WatchOrShortLink, url).value else Search(Embed, url).value;
      var pat := if Search(WatchOrShortLink, url).Some? then WatchOrShortLink else Embed;
      assert IsLeftmostMatch(pat, url, m);
      assert RecognisedPrefix(pat.alternatives[m.alternative]);
    }
  }

  /**
   * Round trip for short links: the ID of `youtu.be/<id><rest>` is `<id>`,
   * whatever its length, when `<id>` is a non-empty run of allowed characters
   * and `<rest>` is empty or starts with a delimiter.
   */
  lemma ShortLinkRoundTrip(id: string, rest: string)
    requires |id| > 0 && forall t :: 0 <= t < |id| ==> InClass(id[t])
    requires rest == [] || !InClass(rest[0])
    ensures VideoIdOf(ShortLinkPrefix + id + rest) == Some(id)
  {
    var url := ShortLinkPrefix + id + rest;
    assert url[5] == '.';
    assert !LiteralAt(url, 0, WatchPrefix) by {
      assert WatchPrefix[5] == 'b';
    }
    assert WatchOrShortLink.alternatives[1] == ShortLinkPrefix;
    SearchAtStart(WatchOrShortLink, 1, id, rest);
    VideoIdUnfold(url);
  }

  /**
   * Round trip for watch URLs: the ID of `youtube.com/watch?v=<id><rest>` is
   * `<id>`, so a following `&t=...` or `#...` is cut off.
   */
  lemma WatchRoundTrip(id: string, rest: string)
    requires |id| > 0 && forall t :: 0 <= t < |id| ==> InClass(id[t])
    requires rest == [] || !InClass(rest[0])
    ensures VideoIdOf(WatchPrefix + id + rest) == Some(id)
  {
    assert WatchOrShortLink.alternatives[0] == WatchPrefix;
    SearchAtStart(WatchOrShortLink, 0, id, rest);
    VideoIdUnfold(WatchPrefix + id + rest);
  }

  /** Every recognised prefix begins with 'y', so none can occur where another character stands. */
  lemma NoWatchOrShortLinkAt(s: string, i: nat)
    requires i < |s| && s[i] != 'y'
    ensures !MatchesAt(WatchOrShortLink, s, i)
  {
    assert !LiteralAt(s, i, WatchPrefix) by { assert WatchPrefix[0] == 'y'; }
    assert !LiteralAt(s, i, ShortLinkPrefix) by { assert ShortLinkPrefix[0] == 'y'; }
  }

  /** Neither watch nor short-link literal fits at the start of an embed URL. */
  lemma NoWatchOrShortLinkAtEmbedStart(s: string)
    requires LiteralAt(s, 0, EmbedPrefix)
    ensures !MatchesAt(WatchOrShortLink, s, 0)
  {
    assert s[5] == EmbedPrefix[5] == 'b';
    assert s[12] == EmbedPrefix[12] == 'e';
    assert !LiteralAt(s, 0, WatchPrefix) by { assert WatchPrefix[12] == 'w'; }
    assert !LiteralAt(s, 0, ShortLinkPrefix) by { assert ShortLinkPrefix[5] == '.'; }
  }

  /**
   * Pattern order beats position: in `youtube.com/embed/<a>youtu.be/<b>` the
   * embed pattern matches first in the string, yet the short-link capture
   * `<b>` is returned.
   */
  lemma {:induction false} EmbedEarlierShortLinkWins(a: string, b: string)
    requires |a| > 0 && forall t :: 0 <= t < |a| ==> InClass(a[t]) && a[t] != 'y'
    requires |b| > 0 && forall t :: 0 <= t < |b| ==> InClass(b[t])
    ensures Search(Embed, EmbedPrefix + a + ShortLinkPrefix + b).Some?
    ensures Search(Embed, EmbedPrefix + a + ShortLinkPrefix + b).value.start == 0
    ensures VideoIdOf(EmbedPrefix + a + ShortLinkPrefix + b) == Some(b)
  {
    var url := EmbedPrefix + a + ShortLinkPrefix + b;
    var run := a + ShortLinkPrefix + b;
    assert url == EmbedPrefix + run;
    assert url[..|EmbedPrefix| + |a|] == EmbedPrefix + a;
    NoWatchOrShortLinkInEmbedHead(url, a);
    assert url[|EmbedPrefix| + |a|..][..|ShortLinkPrefix|] == ShortLinkPrefix;
    assert url[|EmbedPrefix| + |a| + |ShortLinkPrefix|..] == b;
    ShortLinkMatchAt(url, |EmbedPrefix| + |a|, b);
    ShortLinkInClassRun(a, b);
    EmbedMatchesAtStart(url, run);
    VideoIdUnfold(url);
  }

  /** Joining two class runs around the short-link literal gives a class run. */
  lemma ShortLinkInClassRun(a: string, b: string)
    requires forall t :: 0 <= t < |a| ==> InClass(a[t])
    requires forall t :: 0 <= t < |b| ==> InClass(b[t])
    ensures forall t :: 0 <= t < |a + ShortLinkPrefix + b| ==> InClass((a + ShortLinkPrefix + b)[t])
  {
  }

  /** Before the end of `youtube.com/embed/<a>`, with no 'y' in `<a>`, no watch/short-link match starts. */
  lemma NoWatchOrShortLinkInEmbedHead(url: string, a: string)
    requires |EmbedPrefix| + |a| <= |url| && url[..|EmbedPrefix| + |a|] == EmbedPrefix + a
    requires forall t :: 0 <= t < |a| ==> a[t] != 'y'
    ensures forall i: nat :: i < |EmbedPrefix| + |a| ==> !MatchesAt(WatchOrShortLink, url, i)
  {
    assert url[..|EmbedPrefix|] == EmbedPrefix;
    NoWatchOrShortLinkAtEmbedStart(url);
    forall i: nat | 0 < i < |EmbedPrefix| + |a| ensures !MatchesAt(WatchOrShortLink, url, i) {
      assert url[i] == (EmbedPrefix + a)[i];
      if i < |EmbedPrefix| {
        assert EmbedPrefix[i] != 'y';
      }
      NoWatchOrShortLinkAt(url, i);
    }
  }

  /** `youtube.com/embed/<run>` with `<run>` a class run matches the embed pattern at index 0. */
  lemma EmbedMatchesAtStart(url: string, run: string)
    requires url == EmbedPrefix + run
    requires |run| > 0 && forall t :: 0 <= t < |run| ==> InClass(run[t])
    ensures Search(Embed, url) == Some(Match(0, 0, run))
  {
    assert Embed.alternatives[0] == EmbedPrefix;
    assert url == EmbedPrefix + run + [];
    SearchAtStart(Embed, 0, run, []);
  }

  /** A short link at `at`, with no watch/short-link match before it, is the leftmost match. */
  lemma ShortLinkMatchAt(url: string, at: nat, b: string)
    requires at + |ShortLinkPrefix| + |b| == |url|
    requires url[at..at + |ShortLinkPrefix|] == ShortLinkPrefix && url[at + |ShortLinkPrefix|..] == b
    requires |b| > 0 && forall t :: 0 <= t < |b| ==> InClass(b[t])
    requires forall i: nat :: i < at ==> !MatchesAt(WatchOrShortLink, url, i)
    ensures Search(WatchOrShortLink, url) == Some(Match(at, 1, b))
  {
    assert !LiteralAt(url, at, WatchPrefix) by {
      assert url[at + 5] == ShortLinkPrefix[5] == '.';
      assert WatchPrefix[5] == 'b';
    }
    assert url[at + |ShortLinkPrefix|] == b[0];
    assert url[at + |ShortLinkPrefix|..at + |ShortLinkPrefix| + |b|] == b;
    SearchIsLeftmostMatch(WatchOrShortLink, url, Match(at, 1, b));
  }

  /**
   * A prefix followed directly by a delimiter is skipped and the scan goes on:
   * the ID of `youtu.be/<d>youtu.be/<b>` is `<b>`.
   */
  lemma {:induction false} DelimitedShortLinkSkipped(d: char, b: string)
    requires !InClass(d)
    requires |b| > 0 && forall t :: 0 <= t < |b| ==> InClass(b[t])
    ensures VideoIdOf(ShortLinkPrefix + [d] + ShortLinkPrefix + b) == Some(b)
  {
    var url := ShortLinkPrefix + [d] + ShortLinkPrefix + b;
    var at := |ShortLinkPrefix| + 1;
    forall i: nat | i < at ensures !MatchesAt(WatchOrShortLink, url, i) {
      if i == 0 {
        assert url[5] == '.' && url[9] == d;
        assert !LiteralAt(url, 0, WatchPrefix) by { assert WatchPrefix[5] == 'b'; }
      } else {
        assert url[i] == (ShortLinkPrefix + [d])[i];
        if i < |ShortLinkPrefix| {
          assert ShortLinkPrefix[i] != 'y';
        }
        NoWatchOrShortLinkAt(url, i);
      }
    }
    assert url[at..][..|ShortLinkPrefix|] == ShortLinkPrefix;
    assert url[at + |ShortLinkPrefix|..] == b;
    ShortLinkMatchAt(url, at, b);
    VideoIdUnfold(url);
  }

  /**
   * Matching is case-sensitive: every recognised prefix starts with a
   * lower-case 'y', so a URL without one (`https://YOUTU.BE/...`) yields no ID.
   */
  lemma WithoutLowerCaseYNone(url: string)
    requires 'y' !in url
    ensures VideoIdOf(url) == None
  {
    VideoIdNoneIff(url);
    forall i: nat, p | RecognisedPrefix(p) ensures !AlternativeMatchesAt(url, i, p) {
      LiteralStartsWithY(url, i, p);
    }
  }

  /** An occurrence of a recognised prefix starts with a lower-case 'y'. */
  lemma LiteralStartsWithY(url: string, i: nat, p: string)
    requires RecognisedPrefix(p)
    ensures LiteralAt(url, i, p) ==> i < |url| && url[i] == 'y'
  {
  }

  /** The upper-case short link `https://YOUTU.BE/dQw4w9WgXcQ` is not recognised. */
  lemma UpperCaseShortLinkRejected()
    ensures VideoIdOf("https://YOUTU.BE/dQw4w9WgXcQ") == None
  {
    WithoutLowerCaseYNone("https://YOUTU.BE/dQw4w9WgXcQ");
  }
}
