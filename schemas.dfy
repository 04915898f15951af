/**
 * The record shapes of the dataset builder: a search hit as the provider returns it,
 * a ranked candidate, the fetched content of one candidate, and the processed document.
 * Each optional field defaults to `None` exactly where the pydantic model gives it a default.
 */
module Schemas {
  import opened Wrappers
  import opened Text

  /** One organic result as the search provider's JSON object carries it (the keys the pipeline reads). */
  datatype RawHit = RawHit(
    title: Option<string> := None,
    link: Option<string> := None,
    snippet: Option<string> := None,
    source: Option<string> := None,
    publicationDate: Option<string> := None)

  /** A candidate found by the initial search. Only `link` is required. */
  datatype InitialSearchResult = InitialSearchResult(
    link: string,
    title: Option<string> := None,
    snippet: Option<string> := None,
    sourceName: Option<string> := None,
    publicationDateStr: Option<string> := None,
    citationCount: Option<int> := None,
    rawSerpapiData: Option<RawHit> := None,
    qualityScore: Option<real> := None)

  /** The outcome of fetching one candidate's full content. */
  datatype FullContentData = FullContentData(
    sourceUrl: string,
    originalMetadata: InitialSearchResult,
    contentType: string,
    filePath: Option<string> := None,
    rawContent: Option<string> := None,
    downloadSuccessful: bool := true,
    errorMessage: Option<string> := None)

  /** A document ready for storage. */
  datatype ProcessedContent = ProcessedContent(
    sourceUrl: string,
    originalMetadata: InitialSearchResult,
    fullTextMarkdown: string,
    title: Option<string> := None,
    authors: Option<seq<string>> := None,
    publicationDate: Option<string> := None,
    abstractText: Option<string> := None,
    keywords: Option<seq<string>> := None,
    gcsStorageLink: Option<string> := None)

  /**
   * What validation as an `HttpUrl` accepts, simplified: an `http://` or `https://`
   * scheme (in lower case) followed by a host part, at most 2083 characters in all.
   */
  predicate IsHttpUrl(s: string) {
    |s| <= 2083 &&
    ((StartsWith(s, "http://") && |s| > 7 && s[7] != '/') ||
     (StartsWith(s, "https://") && |s| > 8 && s[8] != '/'))
  }

  /** Building each record from only its required fields leaves every other field at its default. */
  lemma RecordDefaults(link: string, md: InitialSearchResult, contentType: string, text: string)
    ensures var r := InitialSearchResult(link);
      r.title.None? && r.snippet.None? && r.sourceName.None? && r.publicationDateStr.None? &&
      r.citationCount.None? && r.rawSerpapiData.None? && r.qualityScore.None?
    ensures var f := FullContentData(link, md, contentType);
      f.downloadSuccessful && f.filePath.None? && f.rawContent.None? && f.errorMessage.None?
    ensures var p := ProcessedContent(link, md, text);
      p.title.None? && p.authors.None? && p.publicationDate.None? && p.abstractText.None? &&
      p.keywords.None? && p.gcsStorageLink.None?
  {
  }
}
