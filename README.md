# Research-resource filtering, modelled in Dafny

The research assistant asks SerpAPI (Google Scholar) and the YouTube Data
API for material on a topic. It drops every paper whose link contains, as a
substring anywhere and with the same case, one of six course-platform names
on a fixed blacklist, and every video whose lower-cased title contains one.
It formats the rest as Markdown strings and puts a sentinel string in place
of an empty list. This project models
that filtering and shaping, with the API responses given as data:

- `Text`: Python's substring test `sub in s`, ASCII `str.lower()`, the slice
  `s[:n]`, and a case-insensitive substring test used to state what the
  video filter guarantees.
- `DomainFilter`: `BLACKLISTED_DOMAINS` and `filter_links`.
- `PaperFetcher`: `fetch_research_papers_google_scholar`. The HTTP call is a
  function parameter from the request (engine, query, `start` offset, key) to
  the response (status code, optional `organic_results`). The method returns
  the paper list and the requests it issued. The function `PaperList` states
  the result, and the lemmas are about `PaperList`.
- `VideoFetcher`: the result loop of `get_youtube_videos`. The API response
  (its optional `items`, each with an optional `id.videoId` and
  `snippet.title`) is the input. The outcome is either the video list or the
  `KeyError` that Python raises when a video item has no `snippet` or no
  `snippet.title`.
- `Optional`: `Option` with `GetOr`, which models `dict.get(key, default)`.

Both fetchers are methods with loops that append to a local list, as in the
source. Each is proved equal to a function that accumulates the same list
one element at a time (`PaperList`, `VideoList`).

The properties below rest on these definitions, which model the source
directly:

- `Text.Contains` is Python's `domain in link` on strings (app.py:16, 92, 116).
- `DomainFilter.IsBlacklisted` is `any(domain in s for domain in BLACKLISTED_DOMAINS)`
  over the constant `DomainFilter.BlacklistedDomains` (app.py:12, 16, 92).
- `Text.Lower` is `video_title.lower()` (app.py:116), restricted to ASCII.
- `PaperFetcher.TitleOf`, `LinkOf` and `SnippetOf` apply the defaults
  `"No Title"`, `"#"` and `"No summary available"` (app.py:88-90).
  `PaperFetcher.FormatPaper` and `Entry` build the display string
  `Title: …\nSummary: <snippet cut to 300>...\n[Read More](<link>)\n\n`
  (app.py:93).
- `VideoFetcher.FormatVideo` builds `[<title>](https://www.youtube.com/watch?v=<id>)`
  (app.py:114, 117).
- `PaperFetcher.PageCount` is the length of `range(num_pages)`, which is zero
  for a negative count (app.py:76).

## Model

| member | source | states |
|---|---|---|
| `DomainFilter.FilterLinks` | app.py:14-16 | no kept link is blacklisted, every kept link comes from the input, every non-blacklisted input link is kept, and the output is no longer than the input |
| `DomainFilter.FilterLinksIsSubsequence` | app.py:16 | the output is a subsequence of the input, so relative order is preserved |
| `DomainFilter.FilterLinksMultiplicity` | app.py:16 | each link occurs in the output as often as in the input if it is not blacklisted, and never if it is |
| `DomainFilter.FilterLinksAppend` | app.py:16 | filtering a concatenation gives the concatenation of the filtered parts |
| `DomainFilter.FilterLinksKeepsAllowed` | app.py:16 | a list with no blacklisted link comes back unchanged |
| `DomainFilter.FilterLinksIdempotent` | app.py:16 | filtering twice is the same as filtering once, and `[]` maps to `[]` |
| `DomainFilter.BlacklistIsLowerCase` | app.py:12 | every blacklist entry is lower-case |
| `DomainFilter.ShortStringIsNotBlacklisted` | app.py:12 | a string shorter than seven characters, such as the default link `"#"`, is never blacklisted |
| `Text.Lower` | app.py:116 | each character of the result is the title's character up to ASCII case and is not an upper-case letter (which determines the result); a lower-case string is left unchanged |
| `Text.Truncate` | app.py:93 | `s[:300]` is a prefix of `s` of length `min(300, len(s))` |
| `Text.LowerContainsIffIgnoringCase` | app.py:116 | for a lower-case name, searching the lower-cased title is exactly a search of the title matching character by character up to ASCII case, a test defined without lower-casing |
| `PaperFetcher.FetchResearchPapers` | app.py:72-95 | exactly `max(num_pages, 0)` requests are made; request `i` asks engine `google_scholar` for the query with the key and `start = i*10`; the result is `PaperList` of the responses in request order |
| `PaperFetcher.PaperEntriesAppend` | app.py:76-93 | the entries of earlier pages come before those of later pages |
| `PaperFetcher.ResultEntriesAppend` | app.py:87-93 | within a page, entries follow the order of the results |
| `PaperFetcher.FailedPagesContributeNothing` | app.py:85 | the entries of all pages equal the entries of the pages with status 200 alone |
| `PaperFetcher.PaperEntriesSound` | app.py:85-93 | every entry is the formatted form of some result of a status-200 page whose defaulted link is not blacklisted |
| `PaperFetcher.PaperEntriesComplete` | app.py:85-93 | every result of a status-200 page whose defaulted link is not blacklisted yields its entry |
| `PaperFetcher.ResultEntriesFollowFilterLinks` | app.py:88-93 | a page yields as many entries as `filter_links` keeps of its defaulted links, and entry `i` ends with a link to the `i`-th kept link |
| `PaperFetcher.MissingLinkIsKept` | app.py:89-92 | a result without a link gets `"#"` and is never dropped |
| `PaperFetcher.EntryIsNotSentinel` | app.py:93 | every paper entry starts with `"Title: "` and so differs from the sentinel |
| `PaperFetcher.PaperEntriesAreNotSentinels` | app.py:93-95 | no collected entry is the sentinel |
| `PaperFetcher.PaperListSentinel` | app.py:95 | the paper list is never empty, is `["No relevant research papers found."]` exactly when no entry survived, and otherwise does not contain the sentinel |
| `PaperFetcher.PaperEntriesCount` | app.py:86-93 | there are at most as many entries as results on status-200 pages |
| `VideoFetcher.GetYoutubeVideos` | app.py:109-118 | the outcome is `VideoList` of the response |
| `VideoFetcher.MissingTitlePersists` | app.py:111-113 | once a video item without a title raises, the whole call raises |
| `VideoFetcher.MissingTitleIff` | app.py:112-113 | the call raises exactly when some item with a `videoId` has no title |
| `VideoFetcher.VideoEntriesAppend` | app.py:111-117 | items are processed in order: earlier entries come first, and the first failure ends the run |
| `VideoFetcher.VideoEntriesSound` | app.py:111-117 | every entry is the Markdown link of an item that has a `videoId` and a title whose lower-cased form is not blacklisted |
| `VideoFetcher.VideoEntriesComplete` | app.py:111-117 | every such item yields its entry |
| `VideoFetcher.VideoEntriesCount` | app.py:111-117 | there are at most as many entries as items |
| `VideoFetcher.TitleFilterIgnoresCase` | app.py:116 | a title is dropped exactly when some blacklisted name occurs in it in any mix of ASCII upper and lower case |
| `VideoFetcher.KeptVideosAvoidBlacklist` | app.py:116-117 | no kept video's title contains a blacklisted name in any ASCII letter case |
| `VideoFetcher.CapitalisedTitleIsDropped` | app.py:116 | a video titled `Coursera.ORG` is dropped |
| `VideoFetcher.VideoEntriesAreNotSentinels` | app.py:117 | every video entry starts with `"["`, so none is the sentinel |
| `VideoFetcher.VideoListSentinel` | app.py:118 | a successful video list is never empty, is `["No relevant videos found."]` exactly when no video survived, and otherwise does not contain the sentinel |

## Left out

- The Streamlit UI, its session state and the empty-topic guard (app.py:20-56, 148-173): this is presentation code with no logic to state.
- `get_ai_summary` and the Groq client (app.py:59-70): an external language-model call whose result is opaque text.
- `get_resources` (app.py:120-124): it only calls the three fetchers in sequence, the paper fetcher with its default of two pages.
- `create_word_doc` (app.py:126-146): the document format and its serialisation belong to python-docx.
- The network calls (app.py:83, 99-108): the SerpAPI call is a function parameter, and the YouTube response is an input value. The YouTube request parameters (`part`, `maxResults=5`, `order="viewCount"`) are not modelled. The five-video cap is enforced by the remote API, so the model proves only "at most one entry per item".
- Transport exceptions from `requests.get` and from the YouTube client: they propagate uncaught in the source and are outside the model.
- Malformed status-200 bodies: `response.json()` raises on a body that is not JSON (app.py:86), `.get("organic_results", [])` raises `AttributeError` on JSON that is not an object, and `result.get(...)` raises on a result that is not an object (app.py:88-90). These exceptions escape the fetcher uncaught. `PageResponse` always holds a well-formed object, so the model has no such error path. The same holds for the video loop: `item.get("id", {})` raises `AttributeError` on an item that is not an object (app.py:112), and `VideoItem` always stands for an object.
- JSON values that are `null` or not strings: a present field is always a string here. In Python a `null` title would render as `None`, and a `null` link would raise a `TypeError`.
- `Text.Lower`: `str.lower()` is modelled as ASCII lower-casing, one character to one character; `VideoFetcher.TitleIsBlacklisted`, which uses it, has the same limit. Python lower-cases all of Unicode and can change the length: `"İ".lower()` has two code points. The Kelvin sign becomes `k`, so Python would drop a title spelling `khanacademy.org` with that sign, and the model keeps it.
- Characters are Unicode scalar values. `s[:300]` counts them the way Python counts code points.
