/**
 * The decisions the pipeline's collaborators make around their network calls: the academic
 * search guard and result handling, the PDF file name and content-type gate of the download,
 * and the interpretation of the scraping server's reply. Each network call is a function
 * parameter from the request to the reply it produces.
 */
module Tools {
  import opened Wrappers
  import opened Text
  import opened Schemas

  // ---------------------------------------------------------------- academic search

  /** The query parameters sent to the search provider. */
  datatype SearchParams = SearchParams(engine: string, q: string, apiKey: string, num: string)

  /**
   * What fetching the search result dictionary yields: an exception (the client library
   * missing, or any error in the call), or a dictionary with or without "organic_results".
   */
  datatype SearchReply =
    | SearchRaised
    | SearchDict(organicResults: Option<seq<RawHit>>, error: Option<string>)

  function ScholarParams(query: string, numResults: int, apiKey: string): (p: SearchParams)
    ensures p.engine == "google_scholar" && p.q == query && p.apiKey == apiKey
    ensures p.num == IntToString(numResults)
  {
    SearchParams("google_scholar", query, apiKey, IntToString(numResults))
  }

  /** The `num` parameter names the requested count: distinct counts give distinct requests. */
  lemma ScholarParamsDetermineCount(query: string, a: int, b: int, apiKey: string)
    requires ScholarParams(query, a, apiKey) == ScholarParams(query, b, apiKey)
    ensures a == b
  {
    IntToStringInjective(a, b);
  }

  /**
   * The organic results of one search, or `[]` when the key is unset, the call raises, or the
   * dictionary holds no (or no non-empty) "organic_results".
   */
  function SearchAcademicPapers(query: string, numResults: int, apiKey: Option<string>,
                                api: SearchParams -> SearchReply): (r: seq<RawHit>)
    ensures !Truthy(apiKey) ==> r == []
    ensures r != [] ==>
              Truthy(apiKey) &&
              api(ScholarParams(query, numResults, apiKey.value)).SearchDict? &&
              api(ScholarParams(query, numResults, apiKey.value)).organicResults == Some(r)
    ensures Truthy(apiKey) && api(ScholarParams(query, numResults, apiKey.value)).SearchDict? &&
            api(ScholarParams(query, numResults, apiKey.value)).organicResults.Some? ==>
              r == api(ScholarParams(query, numResults, apiKey.value)).organicResults.value
  {
    if !Truthy(apiKey) then []
    else match api(ScholarParams(query, numResults, apiKey.value))
      case SearchRaised => []
      case SearchDict(organic, _) => organic.GetOr([])
  }

  /** Without a key the provider is never consulted: the result is the same whatever it would answer. */
  lemma SearchWithoutKeyIgnoresProvider(query: string, numResults: int, apiKey: Option<string>,
                                        api1: SearchParams -> SearchReply, api2: SearchParams -> SearchReply)
    requires !Truthy(apiKey)
    ensures SearchAcademicPapers(query, numResults, apiKey, api1) == SearchAcademicPapers(query, numResults, apiKey, api2)
  {
  }

  /** Only the one request the search builds matters: providers that agree on it give the same result. */
  lemma SearchDependsOnlyOnItsRequest(query: string, numResults: int, apiKey: string,
                                      api1: SearchParams -> SearchReply, api2: SearchParams -> SearchReply)
    requires apiKey != ""
    requires api1(ScholarParams(query, numResults, apiKey)) == api2(ScholarParams(query, numResults, apiKey))
    ensures SearchAcademicPapers(query, numResults, Some(apiKey), api1) == SearchAcademicPapers(query, numResults, Some(apiKey), api2)
  {
  }

  // ---------------------------------------------------------------- PDF file name

  /** The text after the last '/' (all of `s` when it has none). */
  function LastSegment(s: string): (r: string)
    ensures '/' !in r
    ensures EndsWith(s, r)
    ensures |r| < |s| ==> s[|s| - |r| - 1] == '/'
  {
    if s == [] || s[|s| - 1] == '/' then []
    else
      var r := LastSegment(s[..|s| - 1]) + [s[|s| - 1]];
      assert s[|s| - |r|..] == s[..|s| - 1][|s| - |r|..] + [s[|s| - 1]];
      r
  }

  /**
   * The final component of a path as `pathlib` reads a `/`-separated string: empty and "."
   * components are skipped, and a path with no other component has the empty name.
   */
  function PathName(s: string): (r: string)
    ensures '/' !in r && r != "."
    decreases |s|
  {
    var seg := LastSegment(s);
    if seg != "" && seg != "." then seg
    else if |seg| == |s| then ""
    else PathName(s[..|s| - |seg| - 1])
  }

  /** The name `download_pdf_async` derives from the URL when the caller gives none. */
  function DerivedFileName(url: string): (r: string)
    ensures EndsWith(Lower(r), ".pdf")
    ensures '/' !in r
    ensures r == PathName(url) || r == PathName(url) + ".pdf"
  {
    var name := PathName(url);
    if EndsWith(Lower(name), ".pdf") then name
    else
      PdfSuffixAppended(name);
      name + ".pdf"
  }

  /** Appending ".pdf" gives a name that ends in ".pdf" after lower-casing. */
  lemma PdfSuffixAppended(name: string)
    ensures EndsWith(Lower(name + ".pdf"), ".pdf")
  {
    LowerAppend(name, ".pdf");
    assert Lower(".pdf") == ".pdf";
    EndsWithAppended(Lower(name), ".pdf");
  }

  /** A final component already ending in ".pdf", in any case, is kept as it is. */
  lemma PdfNameKept(url: string)
    requires EndsWith(Lower(PathName(url)), ".pdf")
    ensures DerivedFileName(url) == PathName(url)
  {
  }

  /** The last segment of a path ending in `/` and a slash-free name is that name. */
  lemma {:induction false} LastSegmentAfterSlash(dir: string, name: string)
    requires '/' !in name
    ensures LastSegment(dir + "/" + name) == name
    decreases |name|
  {
    var s := dir + "/" + name;
    if name == [] {
      assert s[|s| - 1] == '/';
    } else {
      var init := name[..|name| - 1];
      assert s[..|s| - 1] == dir + "/" + init;
      assert s[|s| - 1] == name[|name| - 1];
      assert forall c :: c in init ==> c in name;
      LastSegmentAfterSlash(dir, init);
      assert init + [name[|name| - 1]] == name;
    }
  }

  /** The name derived from a link ending in a slash-free file name: that name, with ".pdf" if it lacks one. */
  lemma DerivedFileNameAfterSlash(dir: string, name: string)
    requires '/' !in name && name != "" && name != "."
    ensures DerivedFileName(dir + "/" + name) == if EndsWith(Lower(name), ".pdf") then name else name + ".pdf"
  {
    LastSegmentAfterSlash(dir, name);
  }

  lemma ArxivLinkParts(url: string)
    requires url == "https://arxiv.org/pdf/1706.03762.pdf"
    ensures url == "https://arxiv.org/pdf" + "/" + "1706.03762.pdf"
  {
  }

  lemma ArxivNameEndsInPdf()
    ensures EndsWith(Lower("1706.03762.pdf"), ".pdf")
  {
    var name := "1706.03762.pdf";
    assert Lower(name) == name;
    assert Lower(name)[|name| - 4..] == ".pdf";
  }

  lemma ArxivNameDerived(url: string)
    requires url == "https://arxiv.org/pdf" + "/" + "1706.03762.pdf"
    ensures DerivedFileName(url) == "1706.03762.pdf"
  {
    DerivedFileNameAfterSlash("https://arxiv.org/pdf", "1706.03762.pdf");
    ArxivNameEndsInPdf();
  }

  /** An arXiv PDF link keeps its file name. */
  lemma ArxivPdfLinkName(url: string)
    requires url == "https://arxiv.org/pdf/1706.03762.pdf"
    ensures DerivedFileName(url) == "1706.03762.pdf"
  {
    ArxivLinkParts(url);
    ArxivNameDerived(url);
  }

  lemma ExtensionlessLinkParts(url: string)
    requires url == "https://example.com/paper"
    ensures url == "https://example.com" + "/" + "paper"
  {
  }

  lemma ExtensionlessNameLacksPdf()
    ensures !EndsWith(Lower("paper"), ".pdf")
  {
    var name := "paper";
    assert Lower(name) == name;
    assert Lower(name)[|name| - 4..] != ".pdf";
  }

  lemma ExtensionlessNameDerived(url: string)
    requires url == "https://example.com" + "/" + "paper"
    ensures DerivedFileName(url) == "paper" + ".pdf"
  {
    DerivedFileNameAfterSlash("https://example.com", "paper");
    ExtensionlessNameLacksPdf();
  }

  /** A link whose last component has no extension gets ".pdf" appended. */
  lemma ExtensionlessLinkName(url: string)
    requires url == "https://example.com/paper"
    ensures DerivedFileName(url) == "paper.pdf"
  {
    ExtensionlessLinkParts(url);
    ExtensionlessNameDerived(url);
    assert "paper" + ".pdf" == "paper.pdf";
  }

  /** A caller's non-empty file name is used as given; otherwise the name is derived from the URL. */
  function PdfFileName(url: string, fileName: Option<string>): (r: string)
    ensures Truthy(fileName) ==> r == fileName.value
    ensures !Truthy(fileName) ==> EndsWith(Lower(r), ".pdf") && '/' !in r
  {
    if Truthy(fileName) then fileName.value else DerivedFileName(url)
  }

  // ---------------------------------------------------------------- PDF download

  /** A file location: a directory and a name inside it. */
  datatype FilePath = FilePath(dir: string, name: string)

  /** The outcome of the GET request: a transport error, or a response with its content-type header. */
  datatype HttpReply =
    | RequestFailed
    | HttpResponse(status: int, contentType: Option<string>)

  /** `raise_for_status` lets exactly the 2xx statuses through. */
  predicate IsSuccessStatus(status: int) {
    200 <= status < 300
  }

  /** The content-type gate: the lower-cased header (empty when absent) mentions "application/pdf". */
  function IsPdfContentType(contentType: Option<string>): (b: bool)
    ensures contentType.None? ==> !b
    ensures b ==> |contentType.value| >= |"application/pdf"|
  {
    Contains(Lower(contentType.GetOr("")), "application/pdf")
  }

  /** The content-type test ignores case: a type and its lower-cased form are judged alike. */
  lemma PdfContentTypeIgnoresCase(t: string)
    ensures IsPdfContentType(Some(t)) == IsPdfContentType(Some(Lower(t)))
  {
    LowerIdempotent(t);
  }

  /**
   * The saved file, or `None` for a transport error, a non-2xx status, a response that is not a
   * PDF, or a failed write (`written` is whether writing the body to the file succeeds).
   */
  function DownloadPdf(url: string, outputDir: string, fileName: Option<string>,
                       get: string -> HttpReply, written: bool): (r: Option<FilePath>)
    ensures r.Some? <==> get(url).HttpResponse? && IsSuccessStatus(get(url).status) &&
                         IsPdfContentType(get(url).contentType) && written
    ensures r.Some? ==> r.value == FilePath(outputDir, PdfFileName(url, fileName))
  {
    match get(url)
    case RequestFailed => None
    case HttpResponse(status, contentType) =>
      if !IsSuccessStatus(status) then None
      else if !IsPdfContentType(contentType) then None
      else if !written then None
      else Some(FilePath(outputDir, PdfFileName(url, fileName)))
  }

  /** A successful HTML response is refused however the rest goes. */
  lemma HtmlResponseIsNotSaved(url: string, outputDir: string, fileName: Option<string>, get: string -> HttpReply, written: bool)
    requires get(url) == HttpResponse(200, Some("text/html"))
    ensures DownloadPdf(url, outputDir, fileName, get, written).None?
  {
    assert Lower("text/html") == "text/html";
    MissingCharNotContained("text/html", "application/pdf", 'a');
  }

  /** A header naming the PDF type in any case, with parameters after it, passes the gate. */
  lemma UpperCasePdfTypeAccepted()
    ensures IsPdfContentType(Some("Application/PDF; charset=binary"))
  {
    var l := Lower("Application/PDF; charset=binary");
    assert l[0..15] == "application/pdf";
    ContainsAt(l, "application/pdf", 0);
  }

  // ---------------------------------------------------------------- web page through the scraping server

  /** The JSON body of the server's reply, as far as it is read. */
  datatype McpBody =
    | NotAnObject
    | JsonObject(status: Option<string>, content: Option<string>, error: Option<string>)

  /** The outcome of POSTing `{"url": url}` to the server: a transport error or a response. */
  datatype McpReply =
    | McpRequestFailed
    | McpResponse(status: int, body: McpBody)

  /** The reply reports success and carries content. */
  function McpSucceeded(reply: McpReply): (b: bool)
    ensures b ==> reply.McpResponse? && IsSuccessStatus(reply.status)
    ensures b ==> reply.body.JsonObject? && reply.body.content.Some?
  {
    reply.McpResponse? && IsSuccessStatus(reply.status) &&
    reply.body.JsonObject? && reply.body.status == Some("success") && reply.body.content.Some?
  }

  /**
   * Success is decided by the HTTP status, the "status" field and whether a "content" key is
   * present: neither the error message nor the content itself plays a part.
   */
  lemma McpSuccessIgnoresErrorAndContentValue(status: int, state: Option<string>, c1: Option<string>, c2: Option<string>,
                                              e1: Option<string>, e2: Option<string>)
    requires c1.Some? == c2.Some?
    ensures McpSucceeded(McpResponse(status, JsonObject(state, c1, e1))) ==
            McpSucceeded(McpResponse(status, JsonObject(state, c2, e2)))
  {
  }

  /** An empty "content" still counts as success; the caller's truthiness test is what rejects it. */
  lemma McpEmptyContentIsSuccess(endpoint: string, url: string, post: (string, string) -> McpReply)
    requires endpoint != ""
    requires post(endpoint, url) == McpResponse(200, JsonObject(Some("success"), Some(""), None))
    ensures FetchWebpageContent(url, Some(endpoint), post) == Some("")
  {
  }

  /** The page content, or `None` without a configured endpoint or when the reply is not a success. */
  function FetchWebpageContent(url: string, endpoint: Option<string>,
                               post: (string, string) -> McpReply): (r: Option<string>)
    ensures !Truthy(endpoint) ==> r.None?
    ensures r.Some? <==> Truthy(endpoint) && McpSucceeded(post(endpoint.value, url))
    ensures r.Some? ==> r == post(endpoint.value, url).body.content
  {
    if !Truthy(endpoint) then None
    else
      var reply := post(endpoint.value, url);
      if McpSucceeded(reply) then reply.body.content else None
  }

  /** A failure report from the server is never mistaken for content, whatever else it carries. */
  lemma McpErrorStatusGivesNothing(url: string, endpoint: string, post: (string, string) -> McpReply,
                                   content: Option<string>, error: Option<string>)
    requires endpoint != ""
    requires post(endpoint, url) == McpResponse(200, JsonObject(Some("error"), content, error))
    ensures FetchWebpageContent(url, Some(endpoint), post).None?
  {
  }
}
