/** The research-paper fetcher: it pages through Google Scholar results
    obtained from SerpAPI, fills in missing fields, drops results whose link
    is blacklisted, formats the rest and substitutes a sentinel when nothing
    is left. The HTTP call is a parameter: a function from the request to
    the page it returns. */
module PaperFetcher {
  import opened Optional
  import opened Text
  import opened DomainFilter

  /** One entry of `organic_results`; each field may be missing. */
  datatype ScholarResult = ScholarResult(title: Option<string>, link: Option<string>, snippet: Option<string>)

  /** One HTTP response: its status code and, in the JSON body, the
      `organic_results` key, which may be missing. */
  datatype PageResponse = PageResponse(statusCode: int, organicResults: Option<seq<ScholarResult>>)

  /** The query parameters of one SerpAPI request. */
  datatype SearchRequest = SearchRequest(engine: string, q: string, start: int, apiKey: string)

  const ResultsPerPage := 10
  const SnippetLimit := 300
  const NoPapersFound := "No relevant research papers found."

  function TitleOf(r: ScholarResult): string { r.title.GetOr("No Title") }
  function LinkOf(r: ScholarResult): string { r.link.GetOr("#") }
  function SnippetOf(r: ScholarResult): string { r.snippet.GetOr("No summary available") }

  /** The display string of one paper; the snippet is cut to 300 characters. */
  function FormatPaper(title: string, snippet: string, link: string): string {
    "Title: " + title + "\nSummary: " + Truncate(snippet, SnippetLimit) + "...\n[Read More](" + link + ")\n\n"
  }

  /** The display string of a result, its missing fields defaulted. */
  function Entry(r: ScholarResult): string {
    FormatPaper(TitleOf(r), SnippetOf(r), LinkOf(r))
  }

  /** The page's results, or none when the body has no `organic_results`. */
  function ResultsOf(p: PageResponse): seq<ScholarResult> {
    p.organicResults.GetOr([])
  }

  /** The entries the inner loop appends for one page's results. */
  function ResultEntries(rs: seq<ScholarResult>): seq<string> {
    if rs == [] then []
    else
      var last := rs[|rs| - 1];
      ResultEntries(rs[..|rs| - 1]) + (if IsBlacklisted(LinkOf(last)) then [] else [Entry(last)])
  }

  /** The entries one page contributes: none unless its status is 200. */
  function PageEntries(p: PageResponse): seq<string> {
    if p.statusCode == 200 then ResultEntries(ResultsOf(p)) else []
  }

  /** The entries of all pages, in page order. */
  function PaperEntries(pages: seq<PageResponse>): seq<string> {
    if pages == [] then []
    else PaperEntries(pages[..|pages| - 1]) + PageEntries(pages[|pages| - 1])
  }

  /** What the fetcher returns for the given page responses. */
  function PaperList(pages: seq<PageResponse>): seq<string> {
    var entries := PaperEntries(pages);
    if entries == [] then [NoPapersFound] else entries
  }

  /** The length of `range(numPages)`. */
  function PageCount(numPages: int): nat {
    if numPages < 0 then 0 else numPages
  }

  /** The responses `search` gives to the requests, in order. */
  function Responses(search: SearchRequest -> PageResponse, requests: seq<SearchRequest>): seq<PageResponse> {
    seq(|requests|, i requires 0 <= i < |requests| => search(requests[i]))
  }

  /** `fetch_research_papers_google_scholar(query, num_pages)`, with the
      SerpAPI key and the HTTP call passed in. Returns the paper list and the
      requests it issued, in order. */
  method FetchResearchPapers(query: string, numPages: int, apiKey: string, search: SearchRequest -> PageResponse)
    returns (papers: seq<string>, issued: seq<SearchRequest>)
    ensures |issued| == PageCount(numPages)
    ensures forall i :: 0 <= i < |issued| ==>
      issued[i] == SearchRequest("google_scholar", query, i * ResultsPerPage, apiKey)
    ensures papers == PaperList(Responses(search, issued))
  {
    papers := [];
    issued := [];
    ghost var pages: seq<PageResponse> := [];
    var page := 0;
    while page < numPages
      invariant 0 <= page <= PageCount(numPages)
      invariant |issued| == page
      invariant forall i :: 0 <= i < page ==>
        issued[i] == SearchRequest("google_scholar", query, i * ResultsPerPage, apiKey)
      invariant pages == Responses(search, issued)
      invariant papers == PaperEntries(pages)
    {
      var request := SearchRequest("google_scholar", query, page * ResultsPerPage, apiKey);
      var response := search(request);
      issued := issued + [request];
      ghost var before := papers;
      if response.statusCode == 200 {
        var results := response.organicResults.GetOr([]);
        var j := 0;
        while j < |results|
          invariant 0 <= j <= |results|
          invariant papers == before + ResultEntries(results[..j])
        {
          var result := results[j];
          var title := result.title.GetOr("No Title");
          var link := result.link.GetOr("#");
          var snippet := result.snippet.GetOr("No summary available");
          if !IsBlacklisted(link) {
            papers := papers + [FormatPaper(title, snippet, link)];
          }
          assert results[..j + 1][..j] == results[..j];
          j := j + 1;
        }
        assert results[..j] == results;
      }
      assert papers == before + PageEntries(response);
      ghost var earlier := pages;
      pages := pages + [response];
      assert pages[..|pages| - 1] == earlier;
      assert PaperEntries(pages) == PaperEntries(earlier) + PageEntries(response);
      assert pages == Responses(search, issued) by {
        forall i | 0 <= i < |issued|
          ensures pages[i] == search(issued[i])
        {
          if i < page {
            assert pages[i] == earlier[i];
          }
        }
      }
      page := page + 1;
    }
    if papers == [] {
      papers := [NoPapersFound];
    }
  }

  // ---------------------------------------------------------------------
  // Properties of the specification

  /** Entries of earlier pages come first: the paper list follows page order. */
  lemma {:induction false} PaperEntriesAppend(a: seq<PageResponse>, b: seq<PageResponse>)
    ensures PaperEntries(a + b) == PaperEntries(a) + PaperEntries(b)
    decreases |b|
  {
    if b == [] {
      assert a + b == a;
    } else {
      var c, last := b[..|b| - 1], b[|b| - 1];
      assert (a + b)[..|a + b| - 1] == a + c;
      assert (a + b)[|a + b| - 1] == last;
      calc {
        PaperEntries(a + b);
        PaperEntries(a + c) + PageEntries(last);
        { PaperEntriesAppend(a, c); }
        PaperEntries(a) + PaperEntries(c) + PageEntries(last);
        PaperEntries(a) + PaperEntries(b);
      }
    }
  }

  /** Within a page, results keep their order too. */
  lemma {:induction false} ResultEntriesAppend(a: seq<ScholarResult>, b: seq<ScholarResult>)
    ensures ResultEntries(a + b) == ResultEntries(a) + ResultEntries(b)
    decreases |b|
  {
    if b == [] {
      assert a + b == a;
    } else {
      var c := b[..|b| - 1];
      assert (a + b)[..|a + b| - 1] == a + c;
      assert (a + b)[|a + b| - 1] == b[|b| - 1];
      ResultEntriesAppend(a, c);
    }
  }

  /** The pages whose status is 200, in order. */
  function OkPages(pages: seq<PageResponse>): (ok: seq<PageResponse>)
    ensures forall i :: 0 <= i < |ok| ==> ok[i].statusCode == 200
  {
    if pages == [] then []
    else
      var last := pages[|pages| - 1];
      OkPages(pages[..|pages| - 1]) + (if last.statusCode == 200 then [last] else [])
  }

  /** Pages whose status is not 200 contribute nothing: the paper entries
      are those of the successful pages alone. */
  lemma {:induction false} FailedPagesContributeNothing(pages: seq<PageResponse>)
    ensures PaperEntries(pages) == PaperEntries(OkPages(pages))
  {
    if pages != [] {
      var init, last := pages[..|pages| - 1], pages[|pages| - 1];
      FailedPagesContributeNothing(init);
      var okInit := OkPages(init);
      if last.statusCode == 200 {
        assert OkPages(pages) == okInit + [last];
        PaperEntriesAppend(okInit, [last]);
        assert PaperEntries([last]) == PaperEntries([]) + PageEntries(last) by {
          assert [last][..0] == [];
        }
      } else {
        assert OkPages(pages) == okInit + [];
        assert okInit + [] == okInit;
        assert PageEntries(last) == [];
      }
    }
  }

  /** Result `j` of page `p` is one that survives: the page succeeded and the
      (defaulted) link is not blacklisted. */
  ghost predicate KeptAt(pages: seq<PageResponse>, p: int, j: int) {
    && 0 <= p < |pages|
    && pages[p].statusCode == 200
    && 0 <= j < |ResultsOf(pages[p])|
    && !IsBlacklisted(LinkOf(ResultsOf(pages[p])[j]))
  }

  lemma {:induction false} ResultEntriesSound(rs: seq<ScholarResult>, e: string)
    requires e in ResultEntries(rs)
    ensures exists j :: 0 <= j < |rs| && !IsBlacklisted(LinkOf(rs[j])) && e == Entry(rs[j])
  {
    var init, last := rs[..|rs| - 1], rs[|rs| - 1];
    if e in ResultEntries(init) {
      ResultEntriesSound(init, e);
      var j :| 0 <= j < |init| && !IsBlacklisted(LinkOf(init[j])) && e == Entry(init[j]);
      assert rs[j] == init[j];
    } else {
      assert !IsBlacklisted(LinkOf(rs[|rs| - 1])) && e == Entry(rs[|rs| - 1]);
    }
  }

  /** Soundness: every entry is the formatted form of a result of a
      successful page whose link is not blacklisted. */
  lemma {:induction false} PaperEntriesSound(pages: seq<PageResponse>, e: string)
    requires e in PaperEntries(pages)
    ensures exists p, j :: KeptAt(pages, p, j) && e == Entry(ResultsOf(pages[p])[j])
  {
    var init, last := pages[..|pages| - 1], pages[|pages| - 1];
    if e in PaperEntries(init) {
      PaperEntriesSound(init, e);
      var p, j :| KeptAt(init, p, j) && e == Entry(ResultsOf(init[p])[j]);
      assert pages[p] == init[p];
      assert KeptAt(pages, p, j);
    } else {
      assert e in PageEntries(last);
      ResultEntriesSound(ResultsOf(last), e);
      var j :| 0 <= j < |ResultsOf(last)| && !IsBlacklisted(LinkOf(ResultsOf(last)[j]))
        && e == Entry(ResultsOf(last)[j]);
      assert KeptAt(pages, |pages| - 1, j);
    }
  }

  lemma {:induction false} ResultEntriesComplete(rs: seq<ScholarResult>, j: int)
    requires 0 <= j < |rs| && !IsBlacklisted(LinkOf(rs[j]))
    ensures Entry(rs[j]) in ResultEntries(rs)
  {
    var init := rs[..|rs| - 1];
    if j < |rs| - 1 {
      assert init[j] == rs[j];
      ResultEntriesComplete(init, j);
    }
  }

  /** Completeness: every non-blacklisted result of a successful page
      appears in the entries. */
  lemma {:induction false} PaperEntriesComplete(pages: seq<PageResponse>, p: int, j: int)
    requires KeptAt(pages, p, j)
    ensures Entry(ResultsOf(pages[p])[j]) in PaperEntries(pages)
  {
    var init := pages[..|pages| - 1];
    if p < |pages| - 1 {
      assert init[p] == pages[p];
      assert KeptAt(init, p, j);
      PaperEntriesComplete(init, p, j);
    } else {
      ResultEntriesComplete(ResultsOf(pages[p]), j);
    }
  }

  /** The (defaulted) links of the results, in order. */
  function LinksOf(rs: seq<ScholarResult>): seq<string> {
    seq(|rs|, i requires 0 <= i < |rs| => LinkOf(rs[i]))
  }

  /** The link each entry of a page ends with. */
  function ReadMoreLine(link: string): string {
    "[Read More](" + link + ")\n\n"
  }

  lemma EntryEndsWithLink(r: ScholarResult)
    ensures EndsWith(Entry(r), ReadMoreLine(LinkOf(r)))
  {
    var head := "Title: " + TitleOf(r) + "\nSummary: " + Truncate(SnippetOf(r), SnippetLimit) + "...\n";
    assert Entry(r) == head + ReadMoreLine(LinkOf(r));
  }

  /** The inlined blacklist test agrees with `filter_links`: entry `i` of a
      page links to entry `i` of `filter_links` applied to that page's links. */
  lemma {:induction false} ResultEntriesFollowFilterLinks(rs: seq<ScholarResult>)
    ensures |ResultEntries(rs)| == |FilterLinks(LinksOf(rs))|
    ensures forall i :: 0 <= i < |ResultEntries(rs)| ==>
      EndsWith(ResultEntries(rs)[i], ReadMoreLine(FilterLinks(LinksOf(rs))[i]))
  {
    if rs != [] {
      var init, last := rs[..|rs| - 1], rs[|rs| - 1];
      ResultEntriesFollowFilterLinks(init);
      assert LinksOf(rs) == LinksOf(init) + [LinkOf(last)];
      FilterLinksAppend(LinksOf(init), [LinkOf(last)]);
      assert [LinkOf(last)][1..] == [];
      EntryEndsWithLink(last);
    }
  }

  /** A result without a link gets the placeholder `"#"`, which is never
      filtered out. */
  lemma MissingLinkIsKept(r: ScholarResult)
    requires r.link.None?
    ensures LinkOf(r) == "#"
    ensures ResultEntries([r]) == [Entry(r)]
  {
    ShortStringIsNotBlacklisted("#");
    assert [r][..0] == [];
  }

  /** Every entry starts with `"Title: "`; none is the sentinel. */
  lemma EntryIsNotSentinel(r: ScholarResult)
    ensures "Title: " <= Entry(r)
    ensures Entry(r) != NoPapersFound
  {
    assert Entry(r)[0] == 'T';
  }

  lemma PaperEntriesAreNotSentinels(pages: seq<PageResponse>)
    ensures forall e :: e in PaperEntries(pages) ==> "Title: " <= e
    ensures NoPapersFound !in PaperEntries(pages)
  {
    forall e | e in PaperEntries(pages)
      ensures "Title: " <= e && e != NoPapersFound
    {
      PaperEntriesSound(pages, e);
      var p, j :| KeptAt(pages, p, j) && e == Entry(ResultsOf(pages[p])[j]);
      EntryIsNotSentinel(ResultsOf(pages[p])[j]);
    }
  }

  /** The fetcher never returns an empty list; it returns the sentinel alone
      exactly when no paper survived, and otherwise no sentinel at all. */
  lemma PaperListSentinel(pages: seq<PageResponse>)
    ensures PaperList(pages) != []
    ensures PaperList(pages) == [NoPapersFound] <==> PaperEntries(pages) == []
    ensures PaperEntries(pages) != [] ==> NoPapersFound !in PaperList(pages)
  {
    PaperEntriesAreNotSentinels(pages);
  }

  /** The number of results on successful pages. */
  function OkResultCount(pages: seq<PageResponse>): nat {
    if pages == [] then 0
    else
      var last := pages[|pages| - 1];
      OkResultCount(pages[..|pages| - 1]) + (if last.statusCode == 200 then |ResultsOf(last)| else 0)
  }

  lemma {:induction false} ResultEntriesCount(rs: seq<ScholarResult>)
    ensures |ResultEntries(rs)| <= |rs|
  {
    if rs != [] {
      ResultEntriesCount(rs[..|rs| - 1]);
    }
  }

  /** At most one entry per result of a successful page. */
  lemma {:induction false} PaperEntriesCount(pages: seq<PageResponse>)
    ensures |PaperEntries(pages)| <= OkResultCount(pages)
  {
    if pages != [] {
      PaperEntriesCount(pages[..|pages| - 1]);
      ResultEntriesCount(ResultsOf(pages[|pages| - 1]));
    }
  }
}
