# Research dataset builder and metric recommender, modelled in Dafny

This project models two parts of a RAG-evaluation service.

**The data-collection pipeline** (`app/build_dataset/`) builds a research dataset for a topic in five steps:
1. It searches an academic search provider.
2. It parses the hits into candidate records and scores every candidate on four weighted components: relevance, recency, source authority and citations.
3. It keeps the top N candidates, ordered by a stable descending sort.
4. It fetches each candidate's full content, downloading a PDF for a PDF link and scraping the page through a scraping server otherwise.
5. It converts the content to placeholder Markdown, writes each document to a scratch file, uploads it to an object store, and cleans the scratch directory.

**The metric recommender** (`app/services/metric_recommendation.py`) maps a natural-language query to evaluation metrics.
- A keyword rule table does the mapping.
- A language model is consulted when the rules are unsure.
- A cache sits in front of the computation.
- A fixed fallback is returned on any error.

One Dafny module models each source file:

| module | file | models |
|---|---|---|
| `Wrappers` | `wrappers.dfy` | `Option` (Python's `None` and missing keys) |
| `Text` | `text.dfy` | `str.lower`, `in` on strings, `endswith`, slicing `s[:n]`, `str(int)` |
| `Schemas` | `schemas.dfy` | the pydantic records, with their defaults |
| `Processors` | `processors.dfy` | scoring, ranking and Markdown conversion |
| `Tools` | `tools.dfy` | search, PDF download and page scraping |
| `Storage` | `storage.dfy` | blob naming, upload, the store loop and cleanup |
| `Graph` | `graph.dfy` | the graph state, the five nodes and the run order |
| `MetricRecommendation` | `metric_recommendation.dfy` | the rules, the recommendation flow and its cache |

The code is imperative where the source is:
- The loops are methods with invariants: the hit-parsing loop, the scoring loop and the fetch loop in the nodes, the store loop, the cleanup loop and the rule loop.
- Each loop method is proved against a specification function.
- The metric cache is a field of a class, updated by `GetMetricRecommendations`.

Every collaborator the code calls over the network or the filesystem is a function parameter. This covers:
- the search provider;
- the HTTP GET of a PDF and the writing of its file;
- the existence check of a downloaded file;
- the scraping server;
- the object store's upload;
- scratch-file writes and unlinks;
- the cache server;
- the language model;
- Python's `hash`;
- `log10` citation scaling;
- the current year.

Where these descriptions and the code differ, the model follows the code:
- **Recency** is `max(0, 1 - age/10)`. The age is not clamped, so a publication year after the current year scores above 1, and the total score can then pass 1. A date string with no four-digit year scores 0, not 0.1; the 0.1 is only on an exception path that the regular-expression search cannot reach.
- **Citations:** a negative citation count takes the code's `else` branch and scores 0.1, like an unknown count.
- **Storage:** `store_processed_content` keeps every item, whether its upload succeeded or not.
- **Uploads:** as written, every upload to a configured bucket fails (see "## Findings"). The store loop and the run of the graph use the corrected upload, where a link comes back whenever the upload goes through; `UploadRawArtifactAsWritten` and `AsWrittenStoreReportsNoLinks` keep the behaviour as written.

Several names in `graph.py` do not resolve as written, and the model reads them as the existing functions they evidently mean:
- it imports `fetch_webpage_content_playwright_mcp` and `process_raw_content_with_markitdown`, which do not exist; the model uses `fetch_webpage_content` and `convert_content_to_markdown`;
- it uses `Path` without importing it; the model uses the path type as `tools.py` and `storage.py` do.

Two places where the graph and the processors share objects are modelled by returning the updated records:
- the ranking step writes `quality_score` onto the very objects held in `initial_search_results`;
- the storage step writes `gcs_storage_link` onto the objects held in `processed_structured_data`.

In both cases the node's update carries the changed records back into the state field that aliases them.

## Model

| member | source | states |
|---|---|---|
| Schemas.RecordDefaults | app/build_dataset/schemas.py:7-50 | Building each record from its required fields leaves every optional field `None` and `download_successful` true. |
| Processors.Relevance | app/build_dataset/processors.py:42-48 | Relevance is 0, 0.5 or 1. It is 1 exactly when title and snippet both mention the lower-cased topic, 0 exactly when neither does, and 0 without a topic. |
| Processors.RelevanceAsWritten | app/build_dataset/processors.py:43-46 | As written, scoring any candidate with a non-empty title or snippet raises. Otherwise relevance is 0. |
| Processors.AsWrittenScoringRaises | app/build_dataset/processors.py:43-46 | The scorer as written raises exactly when the title or the snippet is non-empty. |
| Processors.AsWrittenScoringCounterexample | app/build_dataset/processors.py:43-44 | A candidate titled "RAG" makes the scorer as written raise, while the corrected relevance for topic "rag" is 0.5. |
| Processors.FindYearFrom | app/build_dataset/processors.py:57 | The search returns the leftmost position at or after `i` where a four-digit word-bounded year starts, and no earlier position matches. |
| Processors.PublicationYear | app/build_dataset/processors.py:57-59 | There is no year exactly when nothing matches. Otherwise the year is the value of the four digits at the leftmost match. |
| Processors.YearScore | app/build_dataset/processors.py:59-63 | The recency of a year is never negative. It is at most 1 for a year not in the future, above 1 for a future year, and 0 from ten years of age on. |
| Processors.OlderYearScoresNoHigher | app/build_dataset/processors.py:61-63 | Recency is monotone in the publication year. |
| Processors.Recency | app/build_dataset/processors.py:50-70 | Recency is non-negative. It is 0 for a missing or empty date and for a date containing no year. |
| Processors.Authority | app/build_dataset/processors.py:72-81 | Authority is 0 exactly without a source name, 1 exactly for a name naming arXiv, ACM or IEEE, and 0.7 exactly for a ResearchGate or Academia.edu name that is not 1. Any other name gets 0.3. |
| Processors.ArxivSourceIsTopTier | app/build_dataset/processors.py:76-77 | "arxiv.org" is a top-tier source. |
| Processors.ResearchGateSourceIsSecondTier | app/build_dataset/processors.py:78-79 | "ResearchGate", in any case, is second-tier. |
| Processors.PersonalBlogSourceIsBaseTier | app/build_dataset/processors.py:80-81 | An unknown source such as "Personal Blog" gets the base tier 0.3. |
| Processors.Citation | app/build_dataset/processors.py:83-93 | The citation score lies in [0, 1]. It is 0 for a confirmed zero, 0.1 for an unknown or negative count, and positive for a positive count. |
| Processors.QualityScore | app/build_dataset/processors.py:30-99 | The weighted score is never negative, and is at most 1 when the publication year is not in the future. |
| Processors.FutureYearExceedsUnitRecency | app/build_dataset/processors.py:61-63 | A year after the current one gives recency above 1, because the age is not clamped. |
| Processors.RelevanceWeighsPointFour | app/build_dataset/processors.py:33-99 | Between candidates differing only in title and snippet, the score differs by 0.4 times the relevance difference. |
| Processors.NewerPublicationScoresNoLower | app/build_dataset/processors.py:57-99 | Between candidates differing only in date, the one with the newer year never scores lower. |
| Processors.AuthorityWeighsPointOne | app/build_dataset/processors.py:35-99 | Between candidates differing only in source name, the score differs by 0.1 times the authority difference. |
| Processors.InsertByScore | app/build_dataset/processors.py:131 | Insertion adds exactly the new candidate: the multiset grows by it and the length by one. |
| Processors.InsertKeepsOrder | app/build_dataset/processors.py:131 | Inserting into a descending sequence keeps it descending by score, with -1 for a missing score. |
| Processors.SortByScoreDesc | app/build_dataset/processors.py:131 | The sort is a permutation of its input and is descending by key. |
| Processors.SortIsStable | app/build_dataset/processors.py:131 | For every key, the candidates with that key keep their input order, as Python's stable `sorted(..., reverse=True)` keeps them. |
| Processors.PrefixHoldsTopKeys | app/build_dataset/processors.py:136 | In a descending sequence, no candidate left out of the first `n` outranks one kept. |
| Processors.SortedPrefixIsStableTopN | app/build_dataset/processors.py:130-136 | The first `n` of the sorted candidates are descending, come from the input, outrank everything left out, and for every key hold a prefix of the input's candidates with that key. |
| Processors.StampedScoresAreNonNegative | app/build_dataset/processors.py:127-128 | Every candidate drawn from the stamped list carries a score, and the score is non-negative. |
| Processors.RankInitialResults | app/build_dataset/processors.py:108-136 | Every candidate is stamped with its score, in order. The result is the first `top_n` of the stable descending sort: empty for empty input, of length `min(top_n, len)`, and a stable top-N, with every score present and non-negative. |
| Processors.ConvertContentToMarkdown | app/build_dataset/processors.py:138-188 | The result is `None` exactly when the raw content is absent or empty. Otherwise the document copies the URL, the metadata, the title, the date and the snippet (as the abstract). It has no authors and no keywords, and its Markdown is the header, the first 2000 characters and the trailer. |
| Processors.ShortContentKeptWhole | app/build_dataset/processors.py:162 | Raw content of at most 2000 characters appears whole in the Markdown. |
| Processors.PlaceholderLengthBound | app/build_dataset/processors.py:162 | The Markdown is longer than the URL and no longer than the URL, the 2000-character excerpt and the fixed text together. |
| Tools.ScholarParams | app/build_dataset/tools.py:38-45 | The request names the "google_scholar" engine, the query, the key, and the count as its decimal string. |
| Tools.ScholarParamsDetermineCount | app/build_dataset/tools.py:42 | Distinct counts give distinct requests. |
| Tools.SearchAcademicPapers | app/build_dataset/tools.py:17-65 | Without a key the result is empty. A non-empty result is exactly the "organic_results" of the one request made, and present "organic_results" are returned as they are. |
| Tools.SearchWithoutKeyIgnoresProvider | app/build_dataset/tools.py:32-34 | Without a key the provider is never consulted. |
| Tools.SearchDependsOnlyOnItsRequest | app/build_dataset/tools.py:36-58 | Providers that agree on the one request built give the same result. |
| Tools.PathName | app/build_dataset/tools.py:84 | The final path component contains no '/' and is never ".". |
| Tools.DerivedFileName | app/build_dataset/tools.py:83-86 | The derived name ends in ".pdf" in any case and contains no '/'. It is the URL's final component, or that component with ".pdf" appended. |
| Tools.PdfNameKept | app/build_dataset/tools.py:85 | A final component already ending in ".pdf", in any case, is kept unchanged. |
| Tools.ArxivPdfLinkName | app/build_dataset/tools.py:84-86 | "https://arxiv.org/pdf/1706.03762.pdf" is saved as "1706.03762.pdf". |
| Tools.ExtensionlessLinkName | app/build_dataset/tools.py:84-86 | "https://example.com/paper" is saved as "paper.pdf". |
| Tools.PdfFileName | app/build_dataset/tools.py:83-86 | A non-empty caller name is used as given. Otherwise the name is derived, ends in ".pdf" and has no '/'. |
| Tools.DownloadPdf | app/build_dataset/tools.py:67-116 | A file is saved exactly when the request succeeds with a 2xx status, the lower-cased content type contains "application/pdf", and the write succeeds. The file is then the output directory joined with the file name. |
| Tools.IsPdfContentType | app/build_dataset/tools.py:97-98 | A missing content-type header is never a PDF, and a PDF type is at least as long as "application/pdf". |
| Tools.PdfContentTypeIgnoresCase | app/build_dataset/tools.py:97-98 | The content type is judged the same in any case, because it is lower-cased first. |
| Tools.HtmlResponseIsNotSaved | app/build_dataset/tools.py:97-102 | A 200 response of type "text/html" is never saved. |
| Tools.UpperCasePdfTypeAccepted | app/build_dataset/tools.py:97-98 | "Application/PDF; charset=binary" passes the content-type gate. |
| Tools.FetchWebpageContent | app/build_dataset/tools.py:118-154 | Without an endpoint there is no content. Content exists exactly when the reply has a 2xx status and is an object with status "success" and a "content" key, and it is that content. |
| Tools.McpSucceeded | app/build_dataset/tools.py:136-141 | A successful reply has a 2xx status, because the status is checked before the body is read, and is a JSON object with a "content" key. |
| Tools.McpSuccessIgnoresErrorAndContentValue | app/build_dataset/tools.py:139-145 | Success depends only on the HTTP status, the "status" field and whether "content" is present. Neither the error message nor the content's value matters. |
| Tools.McpEmptyContentIsSuccess | app/build_dataset/tools.py:139-141 | An empty "content" is still returned as content; only the caller's truthiness test rejects it. |
| Tools.McpErrorStatusGivesNothing | app/build_dataset/tools.py:139-145 | A reply with status "error" yields no content, whatever else it carries. |
| Storage.Sanitize | app/build_dataset/storage.py:105 | The sanitised key has the input's length. It keeps every character of `[a-zA-Z0-9_.-]` and turns every other character into '_'. |
| Storage.SanitizeIdempotent | app/build_dataset/storage.py:105 | Sanitising twice is sanitising once. |
| Storage.SanitizeKeepsKeys | app/build_dataset/storage.py:105 | A string made only of key characters is left unchanged. |
| Storage.BlobName | app/build_dataset/storage.py:107 | The blob name starts with the base path and '/', ends with '_', the hash and ".md", and its length is bounded by a 100-character key. |
| Storage.BlobNameDeterminesHash | app/build_dataset/storage.py:107 | Equal blob names have equal hashes and equal 100-character sanitised prefixes. |
| Storage.UploadRawArtifact | app/build_dataset/storage.py:16-73 | Without a configured bucket there is no link. A link exists exactly when a bucket is configured and the upload succeeds; it starts with the storage host and the bucket and ends with the blob name. |
| Storage.UploadRawArtifactAsWritten | app/build_dataset/storage.py:32-73 | As written, a read of the undeclared service-account setting ends every configured upload in the handler's `None`. With the setting declared, the result is the corrected upload's. |
| Storage.AsWrittenUploadNeverLinks | app/build_dataset/storage.py:36-73 | For a configured bucket with the upload going through, the corrected upload yields a link and the upload as written yields none. |
| Storage.PublicUrl | app/build_dataset/storage.py:66 | The public URL starts with the storage host, the bucket and '/', and the rest of it is the blob name unchanged. |
| Storage.PublicUrlDeterminesBlob | app/build_dataset/storage.py:66 | Within one bucket, equal public URLs name equal blobs. |
| Storage.StoredItem | app/build_dataset/storage.py:111-131 | Storing changes at most the item's link, and sets it exactly when the upload yields one. |
| Storage.StoredItemAsWritten | app/build_dataset/storage.py:111-131 | As written, storing leaves every item unchanged. |
| Storage.Cleaned | app/build_dataset/storage.py:133-143 | After cleanup, only the files whose unlink fails remain, and the directory survives exactly when some file remains. |
| Storage.CleanupRemovesEverything | app/build_dataset/storage.py:135-141 | When every unlink succeeds, the directory is gone. |
| Storage.CleanUpScratch | app/build_dataset/storage.py:133-143 | The unlink loop, visiting the files in any order, leaves the scratch directory as `Cleaned` describes. |
| Storage.StoreOne | app/build_dataset/storage.py:101-131 | One iteration yields the stored item and the scratch file it created. Opening the file creates it, so a write that raises afterwards still leaves the file, and the item keeps no link. |
| Storage.StoreProcessedContent | app/build_dataset/storage.py:75-146 | Empty input gives an empty result and an untouched scratch directory. Otherwise every item is kept, in order, each updated as `StoredItem` says, and afterwards the scratch directory holds exactly the earlier and created files whose unlink failed, including the partial files of failed writes. |
| Storage.NoBucketNoLinks | app/build_dataset/storage.py:32-34 | Without a bucket, storing leaves every item unchanged. |
| Storage.StoredLinkNamesItsKey | app/build_dataset/storage.py:107-123 | A link set by storing means the bucket, the open, the write and the upload all succeeded, and the link is the public URL of the item's blob name. |
| Storage.CreatedFileRemovedUnlessUnlinkFails | app/build_dataset/storage.py:109-139 | A scratch file created by the loop is gone afterwards unless its unlink fails. |
| Storage.CreatedFileIsKept | app/build_dataset/storage.py:109-112 | The file of every item whose open succeeds is among the created files, whether or not its write then succeeds. |
| Storage.FailedWriteLeavesItsFile | app/build_dataset/storage.py:109-143 | A write that raises after `open` keeps the item without a link, and its partial file is still in the scratch directory when its unlink fails. |
| Graph.ParseHit | app/build_dataset/graph.py:54-62 | A hit becomes a candidate exactly when its link is a valid URL. The candidate copies link, title, snippet, source and date, keeps the raw hit, and has no score and no citation count. |
| Graph.ParsedHits | app/build_dataset/graph.py:49-65 | The parsed list is no longer than the hits. Every element has a valid link, no score, and raw data among the hits. |
| Graph.ParsedHitsKeepsEveryValidHit | app/build_dataset/graph.py:49-65 | There is one candidate per hit that parses. Each is that hit's parse, placed after the candidates of the parsing hits before it. |
| Graph.CountParsingGrows | app/build_dataset/graph.py:49-65 | A parsing hit raises the count of parsing hits before any later position, so the candidates keep the order of their hits. |
| Graph.ParsedHitsOneToOne | app/build_dataset/graph.py:49-65 | When every hit parses, the list has one candidate per hit, in order. |
| Graph.NodeFetchInitialResults | app/build_dataset/graph.py:35-68 | Without a topic, the update is only the error message. Otherwise it is the parsed results of searching the topic for twice the top-N count. |
| Graph.NodeRankInitialResults | app/build_dataset/graph.py:70-97 | Without results, both ranked and selected are empty. Otherwise the update carries the stamped results, and ranked and selected are both the top N of their stable descending sort. |
| Graph.FetchedItem | app/build_dataset/graph.py:117-168 | The URL and metadata are copied, and no file path is set. Success means type "pdf" (a PDF link) or "html" (any other link), with non-empty content and no error. Failure means type "unknown", empty content and an error message. |
| Graph.IsPdfLink | app/build_dataset/graph.py:127 | A link is a PDF link exactly when its last four characters, lower-cased, are ".pdf". |
| Graph.PdfLinkOutcome | app/build_dataset/graph.py:127-147 | For a PDF link, success means the download yields a file that exists, and the content names that file. |
| Graph.WebLinkOutcome | app/build_dataset/graph.py:148-159 | For any other link, success means the scraping server returns non-empty content, and that is the content. |
| Graph.NoEndpointNoWebContent | app/build_dataset/graph.py:148-159 | Without a scraping endpoint, no web link is fetched successfully. |
| Graph.FetchContentFor | app/build_dataset/graph.py:117-168 | One iteration of the fetch loop gives the outcome `FetchedItem` describes. |
| Graph.NodeFetchFullContent | app/build_dataset/graph.py:99-182 | Without a selection, the fetched list is empty. Otherwise it holds one outcome per selected candidate, in order. |
| Graph.ProcessAll | app/build_dataset/graph.py:196-209 | The processed list is no longer than the fetched list; completeness and order are in the rows below. |
| Graph.ProcessAllConvertsEveryProcessable | app/build_dataset/graph.py:197-201 | There is one document per successful item with content, and each document is the conversion of such an item. |
| Graph.ProcessAllKeepsEveryProcessable | app/build_dataset/graph.py:196-209 | Every processable item converts, and its document sits at the index counting the processable items before it. |
| Graph.CountProcessableGrows | app/build_dataset/graph.py:196-209 | That index strictly increases along the items, so the documents keep the items' order. |
| Graph.EverySuccessfulFetchIsProcessed | app/build_dataset/graph.py:161-168 | For fetched outcomes, "processable" coincides with "successful". |
| Graph.CountsAgree | app/build_dataset/graph.py:198 | When processable means successful, the two counts agree. |
| Graph.OneDocumentPerSuccessfulFetch | app/build_dataset/graph.py:181-209 | The processing node yields exactly as many documents as the fetch node counted successes. |
| Graph.NodeProcessFullContent | app/build_dataset/graph.py:184-210 | Without fetched content, the processed list is empty. Otherwise it is the conversions of the processable items, in order. |
| Graph.LinksOf | app/build_dataset/graph.py:227 | Only non-empty links are reported, each belonging to some item. |
| Graph.LinksOfKeepsEveryLink | app/build_dataset/graph.py:227 | There is one reported link per item with a link. Each item's link is placed after the links of the linked items before it. |
| Graph.CountLinkedGrows | app/build_dataset/graph.py:227 | A linked item raises the count of linked items before any later position, so the links keep the items' order. |
| Graph.StoreReportsExactlyItsUploads | app/build_dataset/graph.py:225-227 | Every reported link is the public URL of some item's blob in the configured bucket. Every upload that yields a link is reported as that URL, in item order. |
| Graph.AsWrittenStoreReportsNoLinks | app/build_dataset/graph.py:225-227 | As written, storing items without links reports no link at all. |
| Graph.NoLinkedItemsNoLinks | app/build_dataset/graph.py:225-227 | Documents none of which carries a link yield an empty link list. |
| Graph.NodeStoreResults | app/build_dataset/graph.py:212-230 | Without documents, the links are empty and the scratch directory is untouched. Otherwise the update carries the stored documents and the links of those stored. |
| Graph.RouteFrom | app/build_dataset/graph.py:248-253 | The route from a node follows the edges until the node with no successor. |
| Graph.RouteVisitsEveryNodeOnce | app/build_dataset/graph.py:241-253 | From the entry point, the graph visits fetch_initial, rank_initial, fetch_full, process_full and store_results, once each, in that order. |
| Graph.RunSearchAndRank | app/build_dataset/graph.py:241-250 | After the first two nodes: the topic and retry count are unchanged; a missing topic leaves exactly its error message; ranked equals selected and holds at most N; the later fields are untouched. |
| Graph.RunFetchAndProcess | app/build_dataset/graph.py:243-251 | The middle nodes change only the fetched and processed fields. The fetched list has one outcome per selected candidate, and there is one document per successful fetch. |
| Graph.RunStore | app/build_dataset/graph.py:245-253 | The last node changes only the documents and the links. It keeps every document, and the links are those of the stored documents. |
| Graph.InvokeGraph | app/build_dataset/graph.py:234-258 | A whole run keeps the topic and retry count and records a missing topic. It selects at most N results, equal to the ranked ones, and fetches one outcome per selection. It processes one document per success, and reports the links of the stored documents. |
| MetricRecommendation.Lookup | app/services/metric_recommendation.py:21-22 | A key is found exactly when some rule has it, and the value found is that rule's metrics. |
| MetricRecommendation.RuleConfidence | app/services/metric_recommendation.py:23 | Confidence lies in [0, 1]. It is 0 exactly for no metrics, 1 exactly from four metrics, and below 0.7 exactly up to two metrics. |
| MetricRecommendation.GetRuleBasedMetrics | app/services/metric_recommendation.py:16-24 | The rule loop returns the distinct metrics of the collected list and the confidence of its length before de-duplication. |
| MetricRecommendation.KeywordMetricsMembership | app/services/metric_recommendation.py:18-20 | A metric is collected exactly when a rule whose keyword the lower-cased query contains lists it. |
| MetricRecommendation.KeywordMetricsCount | app/services/metric_recommendation.py:10-20 | With two metrics per rule, two metrics are collected per matching keyword. |
| MetricRecommendation.RuleMetricsMembership | app/services/metric_recommendation.py:16-24 | A metric is recommended exactly when a matching keyword's rule lists it, or when the non-empty use case is itself a key whose rule lists it. |
| MetricRecommendation.UnsureIffAtMostOneRule | app/services/metric_recommendation.py:23-38 | The rules are unsure (below 0.7) exactly when at most one rule applies, and confidence is 0 exactly when none does. |
| MetricRecommendation.NothingMatchedSelectsNothing | app/services/metric_recommendation.py:16-24 | With no keyword in the query and no key as use case, nothing is recommended and confidence is 0. |
| MetricRecommendation.KeywordMetricsOfTable | app/services/metric_recommendation.py:10-20 | Over the rule table, the list holds factual, speed and diversity metrics in table order, each when its keyword matches. |
| MetricRecommendation.UpperCaseKeywordMatches | app/services/metric_recommendation.py:19 | "check FACTUAL data" selects the factual metrics with confidence 0.66. |
| MetricRecommendation.RepeatedKeywordCountsOnce | app/services/metric_recommendation.py:18-24 | "speed speed speed" selects the two speed metrics once, with confidence 0.66. |
| MetricRecommendation.TwoKeywordsGiveFullConfidence | app/services/metric_recommendation.py:18-23 | "factual speed check" selects four metrics with confidence 1. |
| MetricRecommendation.UseCaseIsCaseSensitive | app/services/metric_recommendation.py:21 | Use case "Factual" is not the key "factual" and selects nothing. |
| MetricRecommendation.UseCaseRepeatingKeywordCountsTwice | app/services/metric_recommendation.py:18-24 | Query "factual" with use case "factual" recommends two distinct metrics, yet counts four, giving confidence 1. |
| MetricRecommendation.Recommend | app/services/metric_recommendation.py:36-48 | A computed response has the fixed reasoning prefix and the fixed fallback list. Its confidence lies in [0.7, 1]. Its metrics include every rule metric and only rule or model metrics, and it is never the error fallback. |
| MetricRecommendation.ConfidentRulesIgnoreTheModel | app/services/metric_recommendation.py:38-41 | When two or more rules apply, the model is not consulted, and the metrics and the confidence are the rules' own. |
| MetricRecommendation.UnsureRulesTakeTheModelsMetrics | app/services/metric_recommendation.py:38-41 | When at most one rule applies, the model's metrics are joined in and confidence is 0.8. |
| MetricRecommendation.PlaceholderModelAddsNothing | app/services/metric_recommendation.py:26-41 | With the placeholder model, the metrics are the rule metrics alone. |
| MetricRecommendation.CacheKey | app/services/metric_recommendation.py:32 | The key is "metric_rec:" followed by the hash in decimal. |
| MetricRecommendation.CacheKeyInjective | app/services/metric_recommendation.py:32 | Distinct hashes never share a cache entry. |
| MetricRecommendation.Serve | app/services/metric_recommendation.py:30-59 | A call never changes or drops an existing cache entry. Its response is the fallback or a response the cache now holds. An object payload or an unreachable cache gives the fallback with the cache untouched. |
| MetricRecommendation.MetricRecommender.constructor | app/services/metric_recommendation.py:8 | A new recommender starts with an empty cache. |
| MetricRecommendation.MetricRecommender.GetMetricRecommendations | app/services/metric_recommendation.py:30-59 | The response and the new cache are those `Serve` gives for the request and the old cache. |
| MetricRecommendation.CacheHitIsReturnedAsStored | app/services/metric_recommendation.py:32-34 | A cache hit returns the stored response unchanged and writes nothing. |
| MetricRecommendation.MissStoresTheResponse | app/services/metric_recommendation.py:36-51 | A miss stores the computed response under the request's key and returns it, with the fixed reasoning, the fixed fallback list and confidence in [0.7, 1]. |
| MetricRecommendation.CacheOnlyGainsTheReturnedResponse | app/services/metric_recommendation.py:30-59 | The cache only ever gains the returned response, under the request's key. A fallback response never comes with a write. |
| MetricRecommendation.RepeatedRequestIsAnsweredFromCache | app/services/metric_recommendation.py:32-50 | After a stored response, the same request is answered from the cache with that response. |
| MetricRecommendation.FallbackResponse | app/services/metric_recommendation.py:53-59 | The error response is `["answer_relevance"]`, "Default fallback metrics", 0.1, with no fallback list. |
| MetricRecommendation.EndpointPayloadAsWritten | app/routers/metrics.py:8-11 | As written, the endpoint hands the service the validated request object. |
| MetricRecommendation.EndpointAlwaysFallsBack | app/routers/metrics.py:8-11 | As written, every request through the endpoint gets the fallback, and the cache is untouched. |
| MetricRecommendation.EndpointPayload | app/routers/metrics.py:8-11 | Corrected, the endpoint hands over the request as a dictionary carrying its query and use case. |
| MetricRecommendation.EndpointRequestsReachTheRules | app/routers/metrics.py:8-11 | Corrected, a cache miss through the endpoint reaches the rules and the model, and is not the fallback. |

## Left out

- **Outside the model:**
  - routers other than the metric endpoint, the Celery tasks, application start-up, settings loading, retries and the multi-topic driver in `main.py`;
  - logging and the `async` scheduling, since each `await` is a sequential call.
- **Environment values as parameters:**
  - The top-N count, the search key, the scraping endpoint and the bucket name are parameters of the run.
  - The PDF scratch directory is the fixed name "./temp_pdfs", not normalised.
  - The upload scratch directory ("./temp_gcs_uploads") is modelled as a set of file names, not as a path.
- Processors.Citation: `log10(count + 1) / log10(1001)` is an oracle ratio bounded in (0, ∞). The model takes its minimum with 1, and states only the bounds and the zero, unknown and negative cases, not the logarithm's values.
- Processors.QualityScore: computes over exact reals, not floating point. Comparisons between scores that differ only by rounding are not modelled.
- Processors.Recency: the exception path that gives 0.1 is not modelled, because `re.search` and `int` on four ASCII digits cannot raise.
- Processors.PublicationYear: `\b`, `\w` and `\d` are read over ASCII only. Unicode digits and word characters are not modelled.
- Text.Lower: lower-cases ASCII letters only. Python's full Unicode case mapping is not modelled.
- Schemas.IsHttpUrl: pydantic's `HttpUrl` validation is simplified to "an `http://` or `https://` scheme followed by a host". The model does not capture the normalisation `str(HttpUrl)` applies, such as a trailing slash after a bare host.
- Tools.DownloadPdf:
  - a failing `mkdir` of the output directory is not modelled;
  - a partial write counts as a failed write;
  - an absolute caller file name replaces the directory when joined, which is not modelled.
- Tools.FetchWebpageContent: a "content" value that is not a string is not modelled.
- Storage.StoreProcessedContent:
  - a failing `mkdir` of the scratch directory is not modelled;
  - the loop is modelled on values; the in-place update of each item is returned as a new item.
- Storage.CleanUpScratch:
  - `rmdir` succeeds exactly when no file remains;
  - files created in the scratch directory by other processes meanwhile are not modelled.
- Graph.InvokeGraph: the graph framework's own behaviour is reduced to the linear route and the merge of each node's update. Checkpointing, streaming and concurrency are not modelled. The convert collaborator is the modelled `ConvertContentToMarkdown`.
- **Cache details:**
  - The cache does not model Redis expiry (86400 seconds); an entry stays until it is overwritten.
  - The cache does not model a stored value that is empty or not valid JSON.
  - The hash of the serialised request is an oracle. Python salts string hashes per process, so keys do not persist across processes, and the model does not capture this.
- MetricRecommendation.GetMetricRecommendations:
  - exceptions raised by the rule function or the model are not modelled, since these are only injected by mocks;
  - a "query" value that is not a string is not modelled.
- MetricRecommendation.RuleConfidence: `0.33 · n` is exact here. In float arithmetic, `3 · 0.33` is 0.99 up to rounding, and no rule count gives a result near the 0.7 threshold.

## Findings

| source | as written | input that shows it | evidently intended | confidence | as-written member | corrected member |
|---|---|---|---|---|---|---|
| app/build_dataset/processors.py:43-46 | Relevance reads `result.original_metadata.research_topic`, but a search result has no such field, so scoring raises `AttributeError` and ranking fails. | Any candidate with a non-empty title, e.g. title "RAG"; the topic "rag" would score 0.5. | The topic is passed to the scorer, as graph.py:76-93 says it should be. | not executed; high | Processors.AsWrittenScoringCounterexample | Processors.Relevance |
| app/build_dataset/storage.py:39 | The upload reads `settings.GCS_SERVICE_ACCOUNT_FILE`, which the settings class does not declare (config.py:21 is commented out). The read raises `AttributeError`, the handler at storage.py:71 returns `None`, and no item ever gets a link. | Any configured bucket, e.g. "b", with every write and upload going through: the store node reports `[]`. | The setting is declared, with `None` as default, as tests/test_build_dataset.py:348 mocks it. | not executed; high | Graph.AsWrittenStoreReportsNoLinks | Storage.UploadRawArtifact |
| app/routers/metrics.py:8-11 | The endpoint passes the pydantic request object to the service. The service calls `json.dumps` on it, which raises, so the fallback is always returned. | Any request, e.g. `{"query": "factual speed check"}`, gets "Default fallback metrics", where the rules give confidence 1. | The request is passed as a dictionary (`request.model_dump()`). | not executed; high | MetricRecommendation.EndpointAlwaysFallsBack | MetricRecommendation.EndpointRequestsReachTheRules |
