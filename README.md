# YouTube video-ID extraction and request validation

This project models the one piece of logic in the transcript service's
`app.py` that does not simply call a framework or a third-party library:

- `extract_video_id`. It tries two regular expressions in a fixed order and
  returns capture group 1 of the first one that `re.search` finds anywhere in
  the URL, or `None`. The first expression is `(?:youtube\.com\/watch\?v=|youtu\.be\/)([^&\n?#]+)`
  and the second is `youtube\.com\/embed\/([^&\n?#]+)`.
- The validation branches at the top of the `POST /transcript` handler. A
  missing or empty `url` gets "URL is required". A URL the extractor finds
  nothing in gets "Invalid YouTube URL". Only an extracted ID goes on to the
  transcript fetch.

Modules:

- `Wrappers` (`wrappers.dfy`): `Option`, standing for Python's `None` or a value.
- `RegexSearch` (`regex_search.dfy`): `re.search` for patterns of the shape
  `(?:L0|L1|...)([^&\n?#]+)`. `Search` scans start positions left to right. At
  each start it tries the alternatives in order, and the capture is the greedy
  class run after the literal. `IsLeftmostMatch` states, without reference to
  the scan, which match Python reports. `SearchIsLeftmostMatch` proves that
  `Search` returns a match exactly when it is that match.
- `Extractor` (`extractor.dfy`): the pattern list, the specification
  function `FirstGroup`/`VideoIdOf`, and the method `ExtractVideoId`, which
  is the source's `for pattern in patterns` loop with its early return. The
  lemmas state the properties of the result.
- `TranscriptHandler` (`transcript_handler.dfy`): the three-way validation
  decision, as the method `ValidateTranscriptRequest`.

This `app.py` has only the two patterns above. It applies no length rule, so
a successful capture of any length is returned unchanged. It answers
validation failures with status 400.

## Model

| member | source | states |
|---|---|---|
| RegexSearch.RunEnd | app.py:10-11 | the greedy `[^&\n?#]+` run from an index ends at the end of the string or at the first `&`, `\n`, `?` or `#`, and every character before that end is allowed |
| RegexSearch.FirstAlternative | app.py:10 | the alternation `(?:youtube\.com\/watch\?v=\|youtu\.be\/)` picks the first alternative, in order, that matches at the position; none is picked exactly when none matches |
| RegexSearch.MatchAt | app.py:10-11 | a match anchored at a position exists exactly when some alternative matches there, and its group is the maximal class run after the first such alternative |
| RegexSearch.SearchFrom | app.py:14 | scanning from index i finds the first position at or after i where the pattern matches, and finds none exactly when no position from i on matches |
| RegexSearch.Search | app.py:14 | `re.search` returns a leftmost match whose group is the greedy capture, and returns nothing exactly when the pattern matches at no position |
| RegexSearch.MaximalRunUnique | app.py:10-11 | the greedy run starting at a given index is unique |
| RegexSearch.LeftmostMatchUnique | app.py:14 | at most one match has the leftmost-match property: start, alternative and group are all determined |
| RegexSearch.SearchIsLeftmostMatch | app.py:14 | `Search` returns m if and only if m is the leftmost match with the greedy group |
| RegexSearch.MatchGroupNonEmptyInClass | app.py:10-11 | the group of any match is non-empty and holds only characters other than `&`, `\n`, `?`, `#` |
| RegexSearch.SearchAtStart | app.py:10-14 | a string that starts with an alternative, then a non-empty class run, then the end or a delimiter, matches at index 0 with that run as its group, provided no earlier alternative matches at index 0 |
| Extractor.FirstGroup | app.py:13-17 | the group comes from the leftmost match of a pattern in the list such that every earlier pattern in the list matches nowhere; the result is None exactly when every pattern in the list fails to match |
| Extractor.ExtractVideoId | app.py:7-17 | the loop over the pattern list with its early return computes the specification `VideoIdOf` |
| Extractor.VideoIdUnfold | app.py:9-17 | the result is the watch/short-link group when that pattern matches, else the embed group when that pattern matches, else None |
| Extractor.VideoIdByPatternOrder | app.py:9-16 | the result is id if and only if id is the leftmost watch/short-link capture, or there is no watch/short-link match at all and id is the leftmost embed capture |
| Extractor.VideoIdShape | app.py:10-16 | a returned ID is non-empty, contains none of `&`, `\n`, `?`, `#`, and is the whole allowed run right after an occurrence of `youtube.com/watch?v=`, `youtu.be/` or `youtube.com/embed/`, ending at the end of the URL or just before a delimiter |
| Extractor.VideoIdNoneIff | app.py:9-17 | the result is None if and only if no recognised prefix occurs anywhere followed by at least one allowed character |
| Extractor.ShortLinkRoundTrip | app.py:10 | `youtu.be/<id><rest>` yields `<id>` for every non-empty allowed `<id>`, of any length, when `<rest>` is empty or starts with a delimiter |
| Extractor.WatchRoundTrip | app.py:10 | `youtube.com/watch?v=<id><rest>` yields `<id>` for every non-empty `<id>` of allowed characters when `<rest>` is empty or starts with a delimiter, so a following `&...`, `?...` or `#...` is cut off |
| Extractor.EmbedEarlierShortLinkWins | app.py:9-16 | for every non-empty `<a>` of allowed characters with no lower-case `y`, and every non-empty `<b>` of allowed characters, in `youtube.com/embed/<a>youtu.be/<b>` the embed pattern matches at index 0, yet `<b>` is returned: pattern order beats position |
| Extractor.DelimitedShortLinkSkipped | app.py:10-14 | a prefix followed directly by a delimiter is skipped and the scan continues: when `<d>` is one of `&`, `\n`, `?`, `#` and `<b>` is a non-empty run of allowed characters that ends the URL, `youtu.be/<d>youtu.be/<b>` yields `<b>` |
| Extractor.WithoutLowerCaseYNone | app.py:10-11 | matching is case-sensitive: a URL with no lower-case `y` yields None |
| Extractor.UpperCaseShortLinkRejected | app.py:10-11 | `https://YOUTU.BE/dQw4w9WgXcQ` yields None |
| TranscriptHandler.ValidateTranscriptRequest | app.py:24-31 | a missing or empty URL is rejected with "URL is required"; otherwise a URL with no extractable ID is rejected with "Invalid YouTube URL"; otherwise the request proceeds with the extracted, non-empty ID |

## Left out

- Flask routing, `request.json` parsing, `jsonify` and the HTTP status codes (app.py:1-5, 19-23, 35-39) are framework I/O. The two rejections are the error bodies that the handler sends with status 400.
- `YouTubeTranscriptApi.get_transcripts` (app.py:33) is a network call into a third-party library whose source is not part of this model. The model stops at the `Proceed` outcome that would call it.
- The catch-all `except Exception` that answers with `str(e)` and status 500 (app.py:40-41) depends on arbitrary library exception text. This includes a request whose body `request.json` (app.py:23) or `data.get` (app.py:24) cannot handle.
- TranscriptHandler.ValidateTranscriptRequest: `url` is modelled as an optional string. A non-string JSON value (a number, a list, `false`) is not modelled: Python's falsiness test and `re.search` on such a value are outside the string model. A `url` containing lone surrogate code points (which a JSON body can carry, and which the pattern would capture as ordinary class characters) is not representable, because a Dafny `char` is a Unicode scalar value.
- The `/health` endpoint and `app.run` (app.py:43-49) are plumbing and server startup.
- Proxy rotation, transcript fallback chains, a `shorts/` pattern and a bare 11-character ID rule do not appear in this `app.py`.
