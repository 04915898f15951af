/**
 * The five-node data collection pipeline. The state is a record of optional fields; each
 * node reads the state and returns a partial update, which overwrites the fields it names.
 * The nodes run in a fixed order: fetch the initial search results, rank them, fetch the full
 * content of the selected ones, convert that content, and store the documents.
 */
module Graph {
  import opened Wrappers
  import opened Text
  import opened Schemas
  import opened Processors
  import opened Tools
  import opened Storage

  /** The pipeline state; a key absent from the state reads as `None`. */
  datatype GraphState = GraphState(
    researchTopic: Option<string>,
    initialSearchResults: Option<seq<InitialSearchResult>> := None,
    rankedInitialResults: Option<seq<InitialSearchResult>> := None,
    topNSelectedForFullFetch: Option<seq<InitialSearchResult>> := None,
    fetchedFullContent: Option<seq<FullContentData>> := None,
    processedStructuredData: Option<seq<ProcessedContent>> := None,
    gcsStorageLinks: Option<seq<string>> := None,
    errorMessages: Option<seq<string>> := None,
    currentRetryCount: int := 0)

  /** A node's result: the keys it returns, each `Some` with the new value. */
  datatype StateUpdate = StateUpdate(
    initialSearchResults: Option<seq<InitialSearchResult>> := None,
    rankedInitialResults: Option<seq<InitialSearchResult>> := None,
    topNSelectedForFullFetch: Option<seq<InitialSearchResult>> := None,
    fetchedFullContent: Option<seq<FullContentData>> := None,
    processedStructuredData: Option<seq<ProcessedContent>> := None,
    gcsStorageLinks: Option<seq<string>> := None,
    errorMessages: Option<seq<string>> := None)

  function Pick<T>(update: Option<T>, current: Option<T>): Option<T> {
    if update.Some? then update else current
  }

  /** Apply an update: every key it returns replaces the old value; the rest stay. */
  function Merge(s: GraphState, u: StateUpdate): GraphState {
    s.(initialSearchResults := Pick(u.initialSearchResults, s.initialSearchResults),
       rankedInitialResults := Pick(u.rankedInitialResults, s.rankedInitialResults),
       topNSelectedForFullFetch := Pick(u.topNSelectedForFullFetch, s.topNSelectedForFullFetch),
       fetchedFullContent := Pick(u.fetchedFullContent, s.fetchedFullContent),
       processedStructuredData := Pick(u.processedStructuredData, s.processedStructuredData),
       gcsStorageLinks := Pick(u.gcsStorageLinks, s.gcsStorageLinks),
       errorMessages := Pick(u.errorMessages, s.errorMessages))
  }

  /** Python truthiness of an optional list: present and non-empty. */
  predicate NonEmpty<T>(s: Option<seq<T>>) {
    s.Some? && s.value != []
  }

  /** The configuration and the collaborators' behaviour, as seen by the nodes. */
  datatype PipelineEnv = PipelineEnv(
    topN: int,
    serpApiKey: Option<string>,
    scholar: SearchParams -> SearchReply,
    scoring: ScoringEnv,
    httpGet: string -> HttpReply,
    pdfWritten: string -> bool,
    pdfExists: FilePath -> bool,
    mcpEndpoint: Option<string>,
    mcpPost: (string, string) -> McpReply,
    storage: StorageEnv)

  // ---------------------------------------------------------------- fetch_initial

  const TopicMissing: string := "Research topic is missing."

  /** Building a candidate from one raw hit; validation fails without a well-formed link. */
  function ParseHit(hit: RawHit): (r: Option<InitialSearchResult>)
    ensures r.Some? <==> hit.link.Some? && IsHttpUrl(hit.link.value)
    ensures r.Some? ==>
              r.value.link == hit.link.value && r.value.title == hit.title &&
              r.value.snippet == hit.snippet && r.value.sourceName == hit.source &&
              r.value.publicationDateStr == hit.publicationDate && r.value.rawSerpapiData == Some(hit) &&
              r.value.citationCount.None? && r.value.qualityScore.None?
  {
    if hit.link.Some? && IsHttpUrl(hit.link.value) then
      Some(InitialSearchResult(
        link := hit.link.value,
        title := hit.title,
        snippet := hit.snippet,
        sourceName := hit.source,
        publicationDateStr := hit.publicationDate,
        rawSerpapiData := Some(hit)))
    else None
  }

  /** The candidates of the hits that pass validation, in order. */
  function ParsedHits(hits: seq<RawHit>): (r: seq<InitialSearchResult>)
    ensures |r| <= |hits|
    ensures forall k :: 0 <= k < |r| ==> IsHttpUrl(r[k].link) && r[k].qualityScore.None? &&
                                         r[k].rawSerpapiData.Some? && r[k].rawSerpapiData.value in hits
  {
    if hits == [] then []
    else
      var front := ParsedHits(hits[..|hits| - 1]);
      assert forall h :: h in hits[..|hits| - 1] ==> h in hits;
      match ParseHit(hits[|hits| - 1])
      case None => front
      case Some(c) => front + [c]
  }

  /** When every hit validates, there is one candidate per hit, taken from it. */
  lemma {:induction false} ParsedHitsOneToOne(hits: seq<RawHit>)
    requires forall k :: 0 <= k < |hits| ==> ParseHit(hits[k]).Some?
    ensures |ParsedHits(hits)| == |hits|
    ensures forall k :: 0 <= k < |hits| ==> ParsedHits(hits)[k] == ParseHit(hits[k]).value
  {
    if hits != [] {
      var front := hits[..|hits| - 1];
      var last := hits[|hits| - 1];
      assert ParseHit(last).Some?;
      assert forall k :: 0 <= k < |front| ==> ParseHit(front[k]).Some? by {
        forall k | 0 <= k < |front| ensures ParseHit(front[k]).Some? {
          assert front[k] == hits[k];
        }
      }
      ParsedHitsOneToOne(front);
      var r := ParsedHits(hits);
      assert r == ParsedHits(front) + [ParseHit(last).value];
      forall k | 0 <= k < |hits| ensures r[k] == ParseHit(hits[k]).value {
        if k < |front| {
          assert r[k] == ParsedHits(front)[k];
          assert front[k] == hits[k];
        }
      }
    }
  }

  /** The number of hits that parse. */
  function CountParsing(hits: seq<RawHit>): nat {
    if hits == [] then 0
    else CountParsing(hits[..|hits| - 1]) + (if ParseHit(hits[|hits| - 1]).Some? then 1 else 0)
  }

  /** A hit that parses is counted: every longer prefix has more parsing hits than the shorter one. */
  lemma {:induction false} CountParsingGrows(hits: seq<RawHit>, j: int, k: int)
    requires 0 <= j < k <= |hits| && ParseHit(hits[j]).Some?
    ensures CountParsing(hits[..j]) < CountParsing(hits[..k])
    decreases k
  {
    var p := hits[..k];
    assert p[..k - 1] == hits[..k - 1] && p[k - 1] == hits[k - 1];
    if k - 1 == j {
      assert hits[..k - 1] == hits[..j];
    } else {
      CountParsingGrows(hits, j, k - 1);
    }
  }

  /**
   * Invalid hits are skipped and nothing else is lost: there is one candidate per parsing hit,
   * and the candidate of the `k`-th hit sits after those of the parsing hits before it. With
   * `CountParsingGrows`, the candidates keep the order of their hits.
   */
  lemma {:induction false} ParsedHitsKeepsEveryValidHit(hits: seq<RawHit>)
    ensures |ParsedHits(hits)| == CountParsing(hits)
    ensures forall k :: 0 <= k < |hits| && ParseHit(hits[k]).Some? ==>
      CountParsing(hits[..k]) < |ParsedHits(hits)| && ParsedHits(hits)[CountParsing(hits[..k])] == ParseHit(hits[k]).value
  {
    if hits != [] {
      var n := |hits| - 1;
      var front := hits[..n];
      ParsedHitsKeepsEveryValidHit(front);
      var all, before := ParsedHits(hits), ParsedHits(front);
      assert all == if ParseHit(hits[n]).Some? then before + [ParseHit(hits[n]).value] else before;
      forall k | 0 <= k < |hits| && ParseHit(hits[k]).Some?
        ensures CountParsing(hits[..k]) < |all| && all[CountParsing(hits[..k])] == ParseHit(hits[k]).value
      {
        if k < n {
          assert hits[..k] == front[..k] && front[k] == hits[k];
          assert all[CountParsing(front[..k])] == before[CountParsing(front[..k])];
        } else {
          assert hits[..k] == front;
        }
      }
    }
  }

  /** One more hit extends the parsed candidates by its own parse, if any. */
  lemma ParsedHitsStep(hits: seq<RawHit>, i: int)
    requires 0 <= i < |hits|
    ensures ParsedHits(hits[..i + 1]) ==
              if ParseHit(hits[i]).Some? then ParsedHits(hits[..i]) + [ParseHit(hits[i]).value] else ParsedHits(hits[..i])
  {
    assert hits[..i + 1][..i] == hits[..i];
    assert hits[..i + 1][i] == hits[i];
  }

  method NodeFetchInitialResults(state: GraphState, env: PipelineEnv) returns (u: StateUpdate)
    ensures !Truthy(state.researchTopic) ==> u == StateUpdate(errorMessages := Some([TopicMissing]))
    ensures Truthy(state.researchTopic) ==>
      u == StateUpdate(initialSearchResults := Some(ParsedHits(
             SearchAcademicPapers(state.researchTopic.value, env.topN * 2, env.serpApiKey, env.scholar))))
  {
    if !Truthy(state.researchTopic) {
      return StateUpdate(errorMessages := Some([TopicMissing]));
    }
    var hits := SearchAcademicPapers(state.researchTopic.value, env.topN * 2, env.serpApiKey, env.scholar);
    var initial: seq<InitialSearchResult> := [];
    var i := 0;
    while i < |hits|
      invariant 0 <= i <= |hits|
      invariant initial == ParsedHits(hits[..i])
    {
      ParsedHitsStep(hits, i);
      var parsed := ParseHit(hits[i]);
      if parsed.Some? {
        initial := initial + [parsed.value];
      }
      i := i + 1;
    }
    assert hits[..i] == hits;
    u := StateUpdate(initialSearchResults := Some(initial));
  }

  // ---------------------------------------------------------------- rank_initial

  /**
   * Ranks the search results with the state's topic. Ranking stamps a score onto the very
   * objects the state holds, so the update also carries the stamped search results.
   */
  method NodeRankInitialResults(state: GraphState, env: PipelineEnv) returns (u: StateUpdate)
    ensures !NonEmpty(state.initialSearchResults) ==>
      u == StateUpdate(rankedInitialResults := Some([]), topNSelectedForFullFetch := Some([]))
    ensures NonEmpty(state.initialSearchResults) ==>
      u.fetchedFullContent.None? && u.processedStructuredData.None? && u.gcsStorageLinks.None? && u.errorMessages.None? &&
      u.initialSearchResults.Some? &&
      StampedFrom(u.initialSearchResults.value, state.initialSearchResults.value, state.researchTopic, env.scoring) &&
      u.rankedInitialResults == u.topNSelectedForFullFetch ==
        Some(PyPrefix(SortByScoreDesc(u.initialSearchResults.value), env.topN))
  {
    if !NonEmpty(state.initialSearchResults) {
      return StateUpdate(rankedInitialResults := Some([]), topNSelectedForFullFetch := Some([]));
    }
    var scored, ranked := RankInitialResults(state.initialSearchResults.value, env.topN, state.researchTopic, env.scoring);
    u := StateUpdate(initialSearchResults := Some(scored),
                     rankedInitialResults := Some(ranked),
                     topNSelectedForFullFetch := Some(ranked));
  }

  // ---------------------------------------------------------------- fetch_full

  const PdfScratchDir: string := "./temp_pdfs"
  const PdfContentPrefix: string := "Content from PDF: "

  /** Only the last four characters decide, compared without regard to case. */
  function IsPdfLink(url: string): (b: bool)
    ensures b <==> |url| >= 4 && Lower(url[|url| - 4..]) == ".pdf"
  {
    if |url| >= 4 then
      assert Lower(url)[|url| - 4..] == Lower(url[|url| - 4..]);
      EndsWith(Lower(url), ".pdf")
    else EndsWith(Lower(url), ".pdf")
  }

  /** The fetch outcome for one selected candidate. */
  function FetchedItem(result: InitialSearchResult, env: PipelineEnv): (d: FullContentData)
    ensures d.sourceUrl == result.link && d.originalMetadata == result && d.filePath.None?
    ensures d.downloadSuccessful <==> d.contentType == "pdf" || d.contentType == "html"
    ensures d.downloadSuccessful ==> Truthy(d.rawContent) && d.errorMessage.None?
    ensures !d.downloadSuccessful ==> d.contentType == "unknown" && d.errorMessage.Some? && d.rawContent == Some("")
    ensures d.contentType == "pdf" ==> IsPdfLink(result.link)
    ensures d.contentType == "html" ==> !IsPdfLink(result.link)
  {
    var url := result.link;
    if IsPdfLink(url) then
      var path := DownloadPdf(url, PdfScratchDir, None, env.httpGet, env.pdfWritten(url));
      if path.Some? && env.pdfExists(path.value) then
        FullContentData(url, result, "pdf", rawContent := Some(PdfContentPrefix + path.value.name),
                        downloadSuccessful := true, errorMessage := None)
      else
        FullContentData(url, result, "unknown", rawContent := Some(""),
                        downloadSuccessful := false, errorMessage := Some("Failed to download PDF from " + url))
    else
      var html := FetchWebpageContent(url, env.mcpEndpoint, env.mcpPost);
      if Truthy(html) then
        FullContentData(url, result, "html", rawContent := html, downloadSuccessful := true, errorMessage := None)
      else
        FullContentData(url, result, "unknown", rawContent := Some(""), downloadSuccessful := false,
                        errorMessage := Some("Failed to fetch webpage content from " + url + " via Playwright MCP."))
  }

  /** A PDF link succeeds exactly when the download yields a file that exists; the content names the file. */
  lemma PdfLinkOutcome(result: InitialSearchResult, env: PipelineEnv)
    requires IsPdfLink(result.link)
    ensures var path := DownloadPdf(result.link, PdfScratchDir, None, env.httpGet, env.pdfWritten(result.link));
      var d := FetchedItem(result, env);
      (d.downloadSuccessful <==> path.Some? && env.pdfExists(path.value)) &&
      (d.downloadSuccessful ==> d.contentType == "pdf" && EndsWith(Lower(path.value.name), ".pdf") &&
                                d.rawContent == Some(PdfContentPrefix + path.value.name))
  {
  }

  /** Any other link succeeds exactly when the scraping server returns non-empty content, which is kept. */
  lemma WebLinkOutcome(result: InitialSearchResult, env: PipelineEnv)
    requires !IsPdfLink(result.link)
    ensures var html := FetchWebpageContent(result.link, env.mcpEndpoint, env.mcpPost);
      var d := FetchedItem(result, env);
      (d.downloadSuccessful <==> Truthy(html)) && (d.downloadSuccessful ==> d.rawContent == html)
  {
  }

  /** Without a scraping endpoint no web page is ever fetched. */
  lemma NoEndpointNoWebContent(result: InitialSearchResult, env: PipelineEnv)
    requires !IsPdfLink(result.link) && !Truthy(env.mcpEndpoint)
    ensures !FetchedItem(result, env).downloadSuccessful
  {
  }

  /** One pass of the fetch loop, with the source's per-item locals. */
  method FetchContentFor(result: InitialSearchResult, env: PipelineEnv) returns (d: FullContentData)
    ensures d == FetchedItem(result, env)
  {
    var url := result.link;
    var rawContent: Option<string> := None;
    var contentType: Option<string> := None;
    var downloadSuccessful := false;
    var errorMessage: Option<string> := None;
    if IsPdfLink(url) {
      var downloadedPath := DownloadPdf(url, PdfScratchDir, None, env.httpGet, env.pdfWritten(url));
      if downloadedPath.Some? && env.pdfExists(downloadedPath.value) {
        rawContent := Some(PdfContentPrefix + downloadedPath.value.name);
        contentType := Some("pdf");
        downloadSuccessful := true;
      } else {
        errorMessage := Some("Failed to download PDF from " + url);
        downloadSuccessful := false;
      }
    } else {
      rawContent := FetchWebpageContent(url, env.mcpEndpoint, env.mcpPost);
      if Truthy(rawContent) {
        contentType := Some("html");
        downloadSuccessful := true;
      } else {
        errorMessage := Some("Failed to fetch webpage content from " + url + " via Playwright MCP.");
        downloadSuccessful := false;
      }
    }
    d := FullContentData(
      sourceUrl := result.link,
      originalMetadata := result,
      rawContent := Some(rawContent.GetOr("")),
      contentType := contentType.GetOr("unknown"),
      downloadSuccessful := downloadSuccessful,
      errorMessage := errorMessage);
  }

  /** One fetch outcome per selected candidate, in order. */
  predicate FetchedFrom(fetched: seq<FullContentData>, selected: seq<InitialSearchResult>, env: PipelineEnv) {
    |fetched| == |selected| && forall i :: 0 <= i < |selected| ==> fetched[i] == FetchedItem(selected[i], env)
  }

  lemma FetchedFromExtend(fetched: seq<FullContentData>, done: seq<InitialSearchResult>, next: InitialSearchResult,
                          d: FullContentData, env: PipelineEnv)
    requires FetchedFrom(fetched, done, env) && d == FetchedItem(next, env)
    ensures FetchedFrom(fetched + [d], done + [next], env)
  {
    var f, s := fetched + [d], done + [next];
    forall i | 0 <= i < |s| ensures f[i] == FetchedItem(s[i], env) {
      if i < |done| {
        assert f[i] == fetched[i] && s[i] == done[i];
      }
    }
  }

  method NodeFetchFullContent(state: GraphState, env: PipelineEnv) returns (u: StateUpdate)
    ensures !NonEmpty(state.topNSelectedForFullFetch) ==> u == StateUpdate(fetchedFullContent := Some([]))
    ensures NonEmpty(state.topNSelectedForFullFetch) ==>
      u.fetchedFullContent.Some? && FetchedFrom(u.fetchedFullContent.value, state.topNSelectedForFullFetch.value, env) &&
      u == StateUpdate(fetchedFullContent := u.fetchedFullContent)
  {
    if !NonEmpty(state.topNSelectedForFullFetch) {
      return StateUpdate(fetchedFullContent := Some([]));
    }
    var selected := state.topNSelectedForFullFetch.value;
    var fetched: seq<FullContentData> := [];
    var i := 0;
    while i < |selected|
      invariant 0 <= i <= |selected|
      invariant FetchedFrom(fetched, selected[..i], env)
    {
      var d := FetchContentFor(selected[i], env);
      FetchedFromExtend(fetched, selected[..i], selected[i], d, env);
      assert selected[..i + 1] == selected[..i] + [selected[i]];
      fetched := fetched + [d];
      i := i + 1;
    }
    assert selected[..i] == selected;
    u := StateUpdate(fetchedFullContent := Some(fetched));
  }

  // ---------------------------------------------------------------- process_full

  /** The items the process node passes to conversion. */
  predicate Processable(item: FullContentData) {
    item.downloadSuccessful && Truthy(item.rawContent)
  }

  /** The converted documents of the processable items, in order. */
  function ProcessAll(items: seq<FullContentData>): (r: seq<ProcessedContent>)
    ensures |r| <= |items|
  {
    if items == [] then []
    else
      var front := ProcessAll(items[..|items| - 1]);
      var item := items[|items| - 1];
      if Processable(item) then
        match ConvertContentToMarkdown(item)
        case Some(p) => front + [p]
        case None => front
      else front
  }

  /** The number of processable items. */
  function CountProcessable(items: seq<FullContentData>): nat {
    if items == [] then 0
    else CountProcessable(items[..|items| - 1]) + (if Processable(items[|items| - 1]) then 1 else 0)
  }

  /** Some processable item of `items` converts to `doc`. */
  predicate ConvertedFrom(doc: ProcessedContent, items: seq<FullContentData>) {
    exists j :: 0 <= j < |items| && Processable(items[j]) && ConvertContentToMarkdown(items[j]) == Some(doc)
  }

  lemma ConvertedFromPrefix(doc: ProcessedContent, front: seq<FullContentData>, items: seq<FullContentData>)
    requires front <= items && ConvertedFrom(doc, front)
    ensures ConvertedFrom(doc, items)
  {
    var j :| 0 <= j < |front| && Processable(front[j]) && ConvertContentToMarkdown(front[j]) == Some(doc);
    assert items[j] == front[j];
  }

  /** How the last item extends the documents and the count of the items before it. */
  lemma ProcessAllLast(items: seq<FullContentData>)
    requires items != []
    ensures var front := items[..|items| - 1];
      var item := items[|items| - 1];
      if Processable(item) then
        ConvertContentToMarkdown(item).Some? &&
        ProcessAll(items) == ProcessAll(front) + [ConvertContentToMarkdown(item).value] &&
        CountProcessable(items) == CountProcessable(front) + 1
      else
        ProcessAll(items) == ProcessAll(front) && CountProcessable(items) == CountProcessable(front)
  {
  }

  /** Conversion never fails on a processable item: one document per processable item, each its conversion. */
  lemma {:induction false} ProcessAllConvertsEveryProcessable(items: seq<FullContentData>)
    ensures |ProcessAll(items)| == CountProcessable(items)
    ensures forall k :: 0 <= k < |ProcessAll(items)| ==> ConvertedFrom(ProcessAll(items)[k], items)
  {
    if items != [] {
      var front := items[..|items| - 1];
      var item := items[|items| - 1];
      var docs, frontDocs := ProcessAll(items), ProcessAll(front);
      ProcessAllConvertsEveryProcessable(front);
      ProcessAllLast(items);
      forall k | 0 <= k < |docs| ensures ConvertedFrom(docs[k], items) {
        if k < |frontDocs| {
          assert docs[k] == frontDocs[k];
          ConvertedFromPrefix(docs[k], front, items);
        } else {
          assert items[|items| - 1] == item;
          assert Processable(item) && ConvertContentToMarkdown(item) == Some(docs[k]);
        }
      }
    }
  }

  /** A processable item is counted: every longer prefix has more processable items than the shorter one. */
  lemma {:induction false} CountProcessableGrows(items: seq<FullContentData>, j: int, k: int)
    requires 0 <= j < k <= |items| && Processable(items[j])
    ensures CountProcessable(items[..j]) < CountProcessable(items[..k])
    decreases k
  {
    var p := items[..k];
    assert p[..k - 1] == items[..k - 1] && p[k - 1] == items[k - 1];
    if k - 1 == j {
      assert items[..k - 1] == items[..j];
    } else {
      CountProcessableGrows(items, j, k - 1);
    }
  }

  /**
   * Every processable item is converted: its document sits after those of the processable items
   * before it. With `CountProcessableGrows`, the documents keep the items' order.
   */
  lemma {:induction false} ProcessAllKeepsEveryProcessable(items: seq<FullContentData>)
    ensures forall k :: 0 <= k < |items| && Processable(items[k]) ==>
      CountProcessable(items[..k]) < |ProcessAll(items)| && ConvertContentToMarkdown(items[k]).Some? &&
      ProcessAll(items)[CountProcessable(items[..k])] == ConvertContentToMarkdown(items[k]).value
  {
    if items != [] {
      var n := |items| - 1;
      var front := items[..n];
      ProcessAllKeepsEveryProcessable(front);
      ProcessAllConvertsEveryProcessable(front);
      ProcessAllLast(items);
      var all, before := ProcessAll(items), ProcessAll(front);
      forall k | 0 <= k < |items| && Processable(items[k])
        ensures CountProcessable(items[..k]) < |all| && ConvertContentToMarkdown(items[k]).Some? &&
          all[CountProcessable(items[..k])] == ConvertContentToMarkdown(items[k]).value
      {
        if k < n {
          assert items[..k] == front[..k] && front[k] == items[k];
          assert all[CountProcessable(front[..k])] == before[CountProcessable(front[..k])];
        } else {
          assert items[..k] == front;
        }
      }
    }
  }

  /** Every successful fetch is processable, so each yields one document. */
  lemma EverySuccessfulFetchIsProcessed(fetched: seq<FullContentData>, selected: seq<InitialSearchResult>, env: PipelineEnv)
    requires FetchedFrom(fetched, selected, env)
    ensures forall i :: 0 <= i < |fetched| ==> (Processable(fetched[i]) <==> fetched[i].downloadSuccessful)
  {
  }

  /** The number of successful fetches. */
  function CountSuccessful(items: seq<FullContentData>): nat {
    if items == [] then 0
    else CountSuccessful(items[..|items| - 1]) + (if items[|items| - 1].downloadSuccessful then 1 else 0)
  }

  lemma {:induction false} CountsAgree(items: seq<FullContentData>)
    requires forall i :: 0 <= i < |items| ==> (Processable(items[i]) <==> items[i].downloadSuccessful)
    ensures CountProcessable(items) == CountSuccessful(items)
  {
    if items != [] {
      var front := items[..|items| - 1];
      assert forall i :: 0 <= i < |front| ==> front[i] == items[i];
      CountsAgree(front);
    }
  }

  /** Across the fetch and process nodes: one document for each successful fetch. */
  lemma OneDocumentPerSuccessfulFetch(fetched: seq<FullContentData>, selected: seq<InitialSearchResult>, env: PipelineEnv)
    requires FetchedFrom(fetched, selected, env)
    ensures |ProcessAll(fetched)| == CountSuccessful(fetched)
  {
    EverySuccessfulFetchIsProcessed(fetched, selected, env);
    ProcessAllConvertsEveryProcessable(fetched);
    CountsAgree(fetched);
  }

  method NodeProcessFullContent(state: GraphState) returns (u: StateUpdate)
    ensures !NonEmpty(state.fetchedFullContent) ==> u == StateUpdate(processedStructuredData := Some([]))
    ensures NonEmpty(state.fetchedFullContent) ==>
      u == StateUpdate(processedStructuredData := Some(ProcessAll(state.fetchedFullContent.value)))
  {
    if !NonEmpty(state.fetchedFullContent) {
      return StateUpdate(processedStructuredData := Some([]));
    }
    var items := state.fetchedFullContent.value;
    var processed: seq<ProcessedContent> := [];
    var i := 0;
    while i < |items|
      invariant 0 <= i <= |items|
      invariant processed == ProcessAll(items[..i])
    {
      assert items[..i + 1][..i] == items[..i];
      var item := items[i];
      if item.downloadSuccessful && Truthy(item.rawContent) {
        var processedItem := ConvertContentToMarkdown(item);
        if processedItem.Some? {
          processed := processed + [processedItem.value];
        }
      }
      i := i + 1;
    }
    assert items[..i] == items;
    u := StateUpdate(processedStructuredData := Some(processed));
  }

  // ---------------------------------------------------------------- store_results

  const StoreBasePath: string := "research_dataset/phase1"

  /** The non-empty storage links of the items, in order. */
  function LinksOf(items: seq<ProcessedContent>): (r: seq<string>)
    ensures |r| <= |items|
    ensures forall l :: l in r ==> l != "" && exists k :: 0 <= k < |items| && items[k].gcsStorageLink == Some(l)
  {
    if items == [] then []
    else
      var front := LinksOf(items[..|items| - 1]);
      var last := items[|items| - 1];
      assert forall l :: l in front ==> exists k :: 0 <= k < |items| - 1 && items[k].gcsStorageLink == Some(l);
      if Truthy(last.gcsStorageLink) then front + [last.gcsStorageLink.value] else front
  }

  /** The number of items that carry a link. */
  function CountLinked(items: seq<ProcessedContent>): nat {
    if items == [] then 0
    else CountLinked(items[..|items| - 1]) + (if Truthy(items[|items| - 1].gcsStorageLink) then 1 else 0)
  }

  /** An item with a link is counted: every longer prefix has more linked items than the shorter one. */
  lemma {:induction false} CountLinkedGrows(items: seq<ProcessedContent>, j: int, k: int)
    requires 0 <= j < k <= |items| && Truthy(items[j].gcsStorageLink)
    ensures CountLinked(items[..j]) < CountLinked(items[..k])
    decreases k
  {
    var p := items[..k];
    assert p[..k - 1] == items[..k - 1] && p[k - 1] == items[k - 1];
    if k - 1 == j {
      assert items[..k - 1] == items[..j];
    } else {
      CountLinkedGrows(items, j, k - 1);
    }
  }

  /**
   * Every link is reported: one link per linked item, and the link of the `k`-th item sits after
   * those of the linked items before it. With `CountLinkedGrows`, the links keep the items' order.
   */
  lemma {:induction false} LinksOfKeepsEveryLink(items: seq<ProcessedContent>)
    ensures |LinksOf(items)| == CountLinked(items)
    ensures forall k :: 0 <= k < |items| && Truthy(items[k].gcsStorageLink) ==>
      CountLinked(items[..k]) < |LinksOf(items)| && LinksOf(items)[CountLinked(items[..k])] == items[k].gcsStorageLink.value
  {
    if items != [] {
      var n := |items| - 1;
      var front := items[..n];
      LinksOfKeepsEveryLink(front);
      var all, before := LinksOf(items), LinksOf(front);
      assert all == if Truthy(items[n].gcsStorageLink) then before + [items[n].gcsStorageLink.value] else before;
      forall k | 0 <= k < |items| && Truthy(items[k].gcsStorageLink)
        ensures CountLinked(items[..k]) < |all| && all[CountLinked(items[..k])] == items[k].gcsStorageLink.value
      {
        if k < n {
          assert items[..k] == front[..k] && front[k] == items[k];
          assert all[CountLinked(front[..k])] == before[CountLinked(front[..k])];
        } else {
          assert items[..k] == front;
        }
      }
    }
  }

  /**
   * Items that carry no link yet: every link the store reports is the public URL of one item's
   * key, and every upload that yields a link is reported, after those of the items before it.
   */
  lemma StoreReportsExactlyItsUploads(items: seq<ProcessedContent>, stored: seq<ProcessedContent>, env: StorageEnv)
    requires forall k :: 0 <= k < |items| ==> items[k].gcsStorageLink.None?
    requires |stored| == |items| && forall k :: 0 <= k < |items| ==> stored[k] == StoredItem(items[k], k, StoreBasePath, env)
    ensures forall l :: l in LinksOf(stored) ==>
      Truthy(env.bucket) && exists k :: 0 <= k < |items| && l == PublicUrl(env.bucket.value, KeyOf(items[k], StoreBasePath, env))
    ensures forall k :: 0 <= k < |items| && UploadLink(items[k], k, StoreBasePath, env).Some? ==>
      Truthy(env.bucket) && CountLinked(stored[..k]) < |LinksOf(stored)| &&
      LinksOf(stored)[CountLinked(stored[..k])] == PublicUrl(env.bucket.value, KeyOf(items[k], StoreBasePath, env))
  {
    forall l | l in LinksOf(stored)
      ensures Truthy(env.bucket) && exists k :: 0 <= k < |items| && l == PublicUrl(env.bucket.value, KeyOf(items[k], StoreBasePath, env))
    {
      var k :| 0 <= k < |stored| && stored[k].gcsStorageLink == Some(l);
      StoredLinkNamesItsKey(items[k], k, StoreBasePath, env);
    }
    LinksOfKeepsEveryLink(stored);
    forall k | 0 <= k < |items| && UploadLink(items[k], k, StoreBasePath, env).Some?
      ensures Truthy(env.bucket) && CountLinked(stored[..k]) < |LinksOf(stored)| &&
        LinksOf(stored)[CountLinked(stored[..k])] == PublicUrl(env.bucket.value, KeyOf(items[k], StoreBasePath, env))
    {
      StoredLinkNamesItsKey(items[k], k, StoreBasePath, env);
      assert Truthy(stored[k].gcsStorageLink);
    }
  }

  /** As written, storing items that carry no link leaves them all without one, and the node reports no link. */
  lemma AsWrittenStoreReportsNoLinks(items: seq<ProcessedContent>, stored: seq<ProcessedContent>, env: StorageEnv)
    requires forall k :: 0 <= k < |items| ==> items[k].gcsStorageLink.None?
    requires |stored| == |items| && forall k :: 0 <= k < |items| ==> stored[k] == StoredItemAsWritten(items[k], k, StoreBasePath, env)
    ensures LinksOf(stored) == []
  {
    assert forall k :: 0 <= k < |stored| ==> stored[k].gcsStorageLink.None?;
    NoLinkedItemsNoLinks(stored);
  }

  /** Items none of which carries a link report no link. */
  lemma {:induction false} NoLinkedItemsNoLinks(items: seq<ProcessedContent>)
    requires forall k :: 0 <= k < |items| ==> items[k].gcsStorageLink.None?
    ensures LinksOf(items) == []
  {
    if items != [] {
      var front := items[..|items| - 1];
      assert forall k :: 0 <= k < |front| ==> front[k] == items[k];
      NoLinkedItemsNoLinks(front);
    }
  }

  /**
   * Stores the processed documents. The store sets links on the very objects the state holds,
   * so the update also carries the stored documents; `after` is the temporary upload directory.
   */
  method NodeStoreResults(state: GraphState, env: PipelineEnv, scratch: ScratchDir)
    returns (u: StateUpdate, after: ScratchDir)
    ensures !NonEmpty(state.processedStructuredData) ==> u == StateUpdate(gcsStorageLinks := Some([])) && after == scratch
    ensures NonEmpty(state.processedStructuredData) ==>
      var items := state.processedStructuredData.value;
      u == StateUpdate(processedStructuredData := u.processedStructuredData, gcsStorageLinks := u.gcsStorageLinks) &&
      u.processedStructuredData.Some? && |u.processedStructuredData.value| == |items| &&
      (forall k :: 0 <= k < |items| ==> u.processedStructuredData.value[k] == StoredItem(items[k], k, StoreBasePath, env.storage)) &&
      u.gcsStorageLinks == Some(LinksOf(u.processedStructuredData.value)) &&
      after == Cleaned(scratch.files + CreatedUpTo(items, env.storage, |items|), env.storage.unlinkSucceeds)
  {
    if !NonEmpty(state.processedStructuredData) {
      return StateUpdate(gcsStorageLinks := Some([])), scratch;
    }
    var stored;
    stored, after := StoreProcessedContent(state.processedStructuredData.value, StoreBasePath, env.storage, scratch);
    u := StateUpdate(processedStructuredData := Some(stored), gcsStorageLinks := Some(LinksOf(stored)));
  }

  // ---------------------------------------------------------------- the graph

  datatype Node = FetchInitial | RankInitial | FetchFull | ProcessFull | StoreResults

  const EntryPoint: Node := FetchInitial

  /** The edges: each node's successor, `None` standing for the end of the graph. */
  function NextNode(n: Node): Option<Node> {
    match n
    case FetchInitial => Some(RankInitial)
    case RankInitial => Some(FetchFull)
    case FetchFull => Some(ProcessFull)
    case ProcessFull => Some(StoreResults)
    case StoreResults => None
  }

  /** The nodes visited from `n` to the end, following the edges. */
  function RouteFrom(n: Node): (r: seq<Node>)
    ensures r != [] && r[0] == n && NextNode(r[|r| - 1]).None?
    ensures forall i :: 0 <= i < |r| - 1 ==> NextNode(r[i]) == Some(r[i + 1])
    decreases match n case FetchInitial => 4 case RankInitial => 3 case FetchFull => 2 case ProcessFull => 1 case StoreResults => 0
  {
    match NextNode(n)
    case None => [n]
    case Some(m) => [n] + RouteFrom(m)
  }

  /** The order in which the nodes run. */
  const Route: seq<Node> := RouteFrom(EntryPoint)

  lemma RouteVisitsEveryNodeOnce()
    ensures Route == [FetchInitial, RankInitial, FetchFull, ProcessFull, StoreResults]
  {
  }

  /** The first two nodes: search, then rank. */
  method RunSearchAndRank(initial: GraphState, env: PipelineEnv) returns (s: GraphState)
    ensures s.researchTopic == initial.researchTopic && s.currentRetryCount == initial.currentRetryCount
    ensures !Truthy(initial.researchTopic) ==> s.errorMessages == Some([TopicMissing])
    ensures Truthy(initial.researchTopic) ==> s.errorMessages == initial.errorMessages
    ensures s.rankedInitialResults.Some? && s.rankedInitialResults == s.topNSelectedForFullFetch
    ensures env.topN >= 0 ==> |s.rankedInitialResults.value| <= env.topN
    ensures s.fetchedFullContent == initial.fetchedFullContent
    ensures s.processedStructuredData == initial.processedStructuredData
    ensures s.gcsStorageLinks == initial.gcsStorageLinks
  {
    var u := NodeFetchInitialResults(initial, env);
    var s1 := Merge(initial, u);
    assert s1.errorMessages == (if Truthy(initial.researchTopic) then initial.errorMessages else Some([TopicMissing]));
    u := NodeRankInitialResults(s1, env);
    s := Merge(s1, u);
  }

  /** The third and fourth nodes: fetch the full content, then convert it. */
  method RunFetchAndProcess(s0: GraphState, env: PipelineEnv) returns (s: GraphState)
    requires s0.topNSelectedForFullFetch.Some?
    ensures s == s0.(fetchedFullContent := s.fetchedFullContent, processedStructuredData := s.processedStructuredData)
    ensures s.fetchedFullContent.Some? && FetchedFrom(s.fetchedFullContent.value, s0.topNSelectedForFullFetch.value, env)
    ensures s.processedStructuredData.Some? && |s.processedStructuredData.value| <= |s.fetchedFullContent.value|
    ensures |s.processedStructuredData.value| == CountSuccessful(s.fetchedFullContent.value)
  {
    var u := NodeFetchFullContent(s0, env);
    var s1 := Merge(s0, u);
    assert s1 == s0.(fetchedFullContent := u.fetchedFullContent);
    u := NodeProcessFullContent(s1);
    s := Merge(s1, u);
    assert s == s1.(processedStructuredData := u.processedStructuredData);
    OneDocumentPerSuccessfulFetch(s1.fetchedFullContent.value, s0.topNSelectedForFullFetch.value, env);
  }

  /** The last node: store the documents. */
  method RunStore(s0: GraphState, env: PipelineEnv, scratch: ScratchDir) returns (s: GraphState, after: ScratchDir)
    requires s0.processedStructuredData.Some?
    ensures s == s0.(processedStructuredData := s.processedStructuredData, gcsStorageLinks := s.gcsStorageLinks)
    ensures s.processedStructuredData.Some? && |s.processedStructuredData.value| == |s0.processedStructuredData.value|
    ensures s.gcsStorageLinks == Some(LinksOf(s.processedStructuredData.value))
  {
    var u;
    u, after := NodeStoreResults(s0, env, scratch);
    s := Merge(s0, u);
    assert s == s0.(processedStructuredData := Pick(u.processedStructuredData, s0.processedStructuredData),
                    gcsStorageLinks := u.gcsStorageLinks);
    if !NonEmpty(s0.processedStructuredData) {
      assert s.processedStructuredData == s0.processedStructuredData == Some([]);
    }
  }

  /**
   * One run of the graph from `initial`: the nodes in `Route` order, each update merged into
   * the state before the next node reads it. `after` is the temporary upload directory.
   */
  method InvokeGraph(initial: GraphState, env: PipelineEnv, scratch: ScratchDir)
    returns (final: GraphState, after: ScratchDir)
    ensures final.researchTopic == initial.researchTopic && final.currentRetryCount == initial.currentRetryCount
    ensures !Truthy(initial.researchTopic) ==> final.errorMessages == Some([TopicMissing])
    ensures Truthy(initial.researchTopic) ==> final.errorMessages == initial.errorMessages
    ensures final.rankedInitialResults.Some? && final.rankedInitialResults == final.topNSelectedForFullFetch
    ensures env.topN >= 0 ==> |final.rankedInitialResults.value| <= env.topN
    ensures final.fetchedFullContent.Some? &&
            FetchedFrom(final.fetchedFullContent.value, final.topNSelectedForFullFetch.value, env)
    ensures final.processedStructuredData.Some? &&
            |final.processedStructuredData.value| <= |final.fetchedFullContent.value|
    ensures |final.processedStructuredData.value| == CountSuccessful(final.fetchedFullContent.value)
    ensures final.gcsStorageLinks == Some(LinksOf(final.processedStructuredData.value))
  {
    var ranked := RunSearchAndRank(initial, env);
    var processed := RunFetchAndProcess(ranked, env);
    final, after := RunStore(processed, env, scratch);
  }
}
