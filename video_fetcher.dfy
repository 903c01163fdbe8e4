/** The video fetcher: it takes the items of one YouTube search response,
    skips those that are not videos, drops those whose lower-cased title
    contains a blacklisted name, formats the rest as Markdown links and
    substitutes a sentinel when nothing is left. The API call itself is not
    modelled; its response is the input. */
module VideoFetcher {
  import opened Optional
  import opened Text
  import opened DomainFilter

  /** One search item: `id.videoId` (absent when the item has no `id` or the
      `id` is not a video's) and `snippet.title` (absent when the item has no
      `snippet`, or a `snippet` without `title`: both raise the same
      `KeyError`). */
  datatype VideoItem = VideoItem(videoId: Option<string>, title: Option<string>)

  /** The response: its `items` key may be missing. */
  datatype VideoResponse = VideoResponse(items: Option<seq<VideoItem>>)

  /** What `get_youtube_videos` produces: the video list, or the `KeyError`
      raised when a video item has no `snippet.title`. */
  datatype VideoOutcome = Videos(entries: seq<string>) | MissingTitle

  const WatchPrefix := "https://www.youtube.com/watch?v="
  const NoVideosFound := "No relevant videos found."

  /** The response's items, or none when it has no `items` key. */
  function ItemsOf(response: VideoResponse): seq<VideoItem> {
    response.items.GetOr([])
  }

  /** The Markdown link for a video. */
  function FormatVideo(title: string, videoId: string): string {
    "[" + title + "](" + WatchPrefix + videoId + ")"
  }

  /** The title filter: the lower-cased title against the blacklist. */
  predicate TitleIsBlacklisted(title: string) {
    IsBlacklisted(Lower(title))
  }

  /** The outcome of the loop over `items`, item by item. */
  function VideoEntries(items: seq<VideoItem>): VideoOutcome {
    if items == [] then Videos([])
    else
      match VideoEntries(items[..|items| - 1])
      case MissingTitle => MissingTitle
      case Videos(v) =>
        var last := items[|items| - 1];
        if last.videoId.None? then Videos(v)
        else if last.title.None? then MissingTitle
        else if TitleIsBlacklisted(last.title.value) then Videos(v)
        else Videos(v + [FormatVideo(last.title.value, last.videoId.value)])
  }

  /** What the fetcher returns for a response. */
  function VideoList(response: VideoResponse): VideoOutcome {
    match VideoEntries(ItemsOf(response))
    case MissingTitle => MissingTitle
    case Videos(v) => Videos(if v == [] then [NoVideosFound] else v)
  }

  /** Once an item raises, the whole loop raises. */
  lemma {:induction false} MissingTitlePersists(items: seq<VideoItem>, k: int)
    requires 0 <= k <= |items|
    requires VideoEntries(items[..k]) == MissingTitle
    ensures VideoEntries(items) == MissingTitle
  {
    if k < |items| {
      var init := items[..|items| - 1];
      assert init[..k] == items[..k];
      MissingTitlePersists(init, k);
    } else {
      assert items[..k] == items;
    }
  }

  /** `get_youtube_videos(query)` once the API has answered with `response`. */
  method GetYoutubeVideos(response: VideoResponse) returns (outcome: VideoOutcome)
    ensures outcome == VideoList(response)
  {
    var items := response.items.GetOr([]);
    var videos: seq<string> := [];
    var k := 0;
    while k < |items|
      invariant 0 <= k <= |items|
      invariant VideoEntries(items[..k]) == Videos(videos)
    {
      var item := items[k];
      assert items[..k + 1][..k] == items[..k];
      assert items[..k + 1][k] == item;
      if item.videoId.Some? {
        if item.title.None? {
          MissingTitlePersists(items, k + 1);
          return MissingTitle;
        }
        var videoTitle := item.title.value;
        var videoUrl := WatchPrefix + item.videoId.value;
        if !IsBlacklisted(Lower(videoTitle)) {
          assert "[" + videoTitle + "](" + videoUrl + ")" == FormatVideo(videoTitle, item.videoId.value);
          videos := videos + ["[" + videoTitle + "](" + videoUrl + ")"];
        }
      }
      k := k + 1;
    }
    assert items[..k] == items;
    outcome := Videos(if videos == [] then [NoVideosFound] else videos);
  }

  // ---------------------------------------------------------------------
  // Properties of the specification

  /** Item `k` is a video with a title that passes the filter. */
  ghost predicate KeptVideoAt(items: seq<VideoItem>, k: int) {
    && 0 <= k < |items|
    && items[k].videoId.Some?
    && items[k].title.Some?
    && !TitleIsBlacklisted(items[k].title.value)
  }

  /** The video link item `k` is formatted as. */
  function VideoEntry(item: VideoItem): string
    requires item.videoId.Some? && item.title.Some?
  {
    FormatVideo(item.title.value, item.videoId.value)
  }

  /** Combining the outcomes of two runs over consecutive items. */
  function Then(a: VideoOutcome, b: VideoOutcome): VideoOutcome {
    match a
    case MissingTitle => MissingTitle
    case Videos(x) =>
      match b
      case MissingTitle => MissingTitle
      case Videos(y) => Videos(x + y)
  }

  /** Items are processed in order: the entries of earlier items come first,
      and the first item that raises ends the run. */
  lemma {:induction false} VideoEntriesAppend(a: seq<VideoItem>, b: seq<VideoItem>)
    ensures VideoEntries(a + b) == Then(VideoEntries(a), VideoEntries(b))
    decreases |b|
  {
    if b == [] {
      assert a + b == a;
      if VideoEntries(a).Videos? {
        assert VideoEntries(a).entries + [] == VideoEntries(a).entries;
      }
    } else {
      var c := b[..|b| - 1];
      assert (a + b)[..|a + b| - 1] == a + c;
      assert (a + b)[|a + b| - 1] == b[|b| - 1];
      VideoEntriesAppend(a, c);
    }
  }

  /** The run raises exactly when some video item lacks a title. */
  lemma {:induction false} MissingTitleIff(items: seq<VideoItem>)
    ensures VideoEntries(items) == MissingTitle <==>
      exists k :: 0 <= k < |items| && items[k].videoId.Some? && items[k].title.None?
  {
    if items != [] {
      var init := items[..|items| - 1];
      MissingTitleIff(init);
      if exists k :: 0 <= k < |init| && init[k].videoId.Some? && init[k].title.None? {
        var k :| 0 <= k < |init| && init[k].videoId.Some? && init[k].title.None?;
        assert items[k] == init[k];
      }
      if exists k :: 0 <= k < |items| && items[k].videoId.Some? && items[k].title.None? {
        var k :| 0 <= k < |items| && items[k].videoId.Some? && items[k].title.None?;
        if k < |init| {
          assert init[k] == items[k];
        }
      }
    }
  }

  /** Soundness: every entry is the link of a kept video item. */
  lemma {:induction false} VideoEntriesSound(items: seq<VideoItem>, e: string)
    requires VideoEntries(items).Videos? && e in VideoEntries(items).entries
    ensures exists k :: KeptVideoAt(items, k) && e == VideoEntry(items[k])
  {
    var init := items[..|items| - 1];
    var v := VideoEntries(init).entries;
    if e in v {
      VideoEntriesSound(init, e);
      var k :| KeptVideoAt(init, k) && e == VideoEntry(init[k]);
      assert items[k] == init[k];
      assert KeptVideoAt(items, k);
    } else {
      assert KeptVideoAt(items, |items| - 1);
    }
  }

  /** Completeness: every kept video item yields its entry, unless the run
      raises. */
  lemma {:induction false} VideoEntriesComplete(items: seq<VideoItem>, k: int)
    requires VideoEntries(items).Videos? && KeptVideoAt(items, k)
    ensures VideoEntry(items[k]) in VideoEntries(items).entries
  {
    var init := items[..|items| - 1];
    if k < |items| - 1 {
      assert init[k] == items[k];
      assert KeptVideoAt(init, k);
      VideoEntriesComplete(init, k);
    }
  }

  /** At most one entry per item. */
  lemma {:induction false} VideoEntriesCount(items: seq<VideoItem>)
    requires VideoEntries(items).Videos?
    ensures |VideoEntries(items).entries| <= |items|
  {
    if items != [] {
      VideoEntriesCount(items[..|items| - 1]);
    }
  }

  /** Because every blacklisted name is lower-case, the title filter drops a
      title exactly when some blacklisted name occurs in it in any mix of
      upper and lower case. */
  lemma TitleFilterIgnoresCase(title: string)
    ensures TitleIsBlacklisted(title) <==>
      exists k :: 0 <= k < |BlacklistedDomains| && ContainsIgnoringCase(title, BlacklistedDomains[k])
  {
    BlacklistIsLowerCase();
    forall k | 0 <= k < |BlacklistedDomains|
      ensures Contains(Lower(title), BlacklistedDomains[k]) <==> ContainsIgnoringCase(title, BlacklistedDomains[k])
    {
      LowerContainsIffIgnoringCase(title, BlacklistedDomains[k]);
    }
  }

  /** No kept video's title contains a blacklisted name in any letter case. */
  lemma KeptVideosAvoidBlacklist(items: seq<VideoItem>, k: int)
    requires KeptVideoAt(items, k)
    ensures forall d :: 0 <= d < |BlacklistedDomains| ==>
      !ContainsIgnoringCase(items[k].title.value, BlacklistedDomains[d])
  {
    TitleFilterIgnoresCase(items[k].title.value);
  }

  /** A title spelling a blacklisted name in capitals is dropped all the same. */
  lemma CapitalisedTitleIsDropped()
    ensures VideoEntries([VideoItem(Some("abc"), Some("Coursera.ORG"))]) == Videos([])
  {
    var t := "Coursera.ORG";
    assert Lower(t) == "coursera.org";
    assert OccursAt(Lower(t), BlacklistedDomains[0], 0);
    assert TitleIsBlacklisted(t);
    assert [VideoItem(Some("abc"), Some(t))][..0] == [];
  }

  /** Every entry starts with `"["`; none is the sentinel. */
  lemma VideoEntriesAreNotSentinels(items: seq<VideoItem>)
    requires VideoEntries(items).Videos?
    ensures forall e :: e in VideoEntries(items).entries ==> "[" <= e
    ensures NoVideosFound !in VideoEntries(items).entries
  {
    forall e | e in VideoEntries(items).entries
      ensures "[" <= e && e != NoVideosFound
    {
      VideoEntriesSound(items, e);
      var k :| KeptVideoAt(items, k) && e == VideoEntry(items[k]);
      assert e[0] == '[';
    }
  }

  /** The fetcher never returns an empty list; it returns the sentinel alone
      exactly when no video survived, and otherwise no sentinel at all. */
  lemma VideoListSentinel(response: VideoResponse)
    requires VideoList(response).Videos?
    ensures VideoList(response).entries != []
    ensures VideoList(response).entries == [NoVideosFound] <==> VideoEntries(ItemsOf(response)).entries == []
    ensures VideoEntries(ItemsOf(response)).entries != [] ==> NoVideosFound !in VideoList(response).entries
  {
    VideoEntriesAreNotSentinels(ItemsOf(response));
  }
}
