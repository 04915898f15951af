/**
 * Candidate scoring, ranking and conversion to a document.
 *
 * A candidate's quality score combines four components, each a function of one or two
 * fields: relevance (title and snippet against the research topic), recency (a four-digit
 * year in the publication date), source authority (the source name) and citations.
 * Ranking stamps the score onto every candidate, sorts stably by descending score and keeps
 * a prefix. Conversion turns fetched raw content into the placeholder markdown document.
 */
module Processors {
  import opened Wrappers
  import opened Text
  import opened Schemas

  const RelevanceWeight: real := 0.4
  const RecencyWeight: real := 0.2
  const AuthorityWeight: real := 0.1
  const CitationWeight: real := 0.3

  type PositiveReal = r: real | r > 0.0 witness 1.0

  /**
   * What scoring takes from outside the candidate: the current calendar year and the
   * log-scaled citation ratio `log10(count + 1) / log10(1001)` for a positive count,
   * of which the model only knows that it is positive.
   */
  datatype ScoringEnv = ScoringEnv(currentYear: int, citationRatio: int -> PositiveReal)

  // ---------------------------------------------------------------- relevance

  /** The field is present, non-empty, and contains the topic, ignoring case. */
  predicate Mentions(field: Option<string>, topic: Option<string>) {
    Truthy(field) && topic.Some? && Contains(Lower(field.value), Lower(topic.value))
  }

  /** Half a point for a title that mentions the topic, half for a snippet that does. */
  function Relevance(topic: Option<string>, title: Option<string>, snippet: Option<string>): (r: real)
    ensures r == 0.0 || r == 0.5 || r == 1.0
    ensures r == 1.0 <==> Mentions(title, topic) && Mentions(snippet, topic)
    ensures r == 0.0 <==> !Mentions(title, topic) && !Mentions(snippet, topic)
    ensures topic.None? ==> r == 0.0
  {
    var fromTitle := if Mentions(title, topic) then 0.5 else 0.0;
    var fromSnippet := if Mentions(snippet, topic) then 0.5 else 0.0;
    MinReal(fromTitle + fromSnippet, 1.0)
  }

  /**
   * Relevance as the scorer computes it: it reads the topic from the candidate's
   * `original_metadata` attribute, which `InitialSearchResult` does not declare, so the
   * read raises (`None` here) as soon as a title or, failing that, a snippet is present.
   */
  function RelevanceAsWritten(title: Option<string>, snippet: Option<string>): (r: Option<real>)
    ensures r.Some? ==> r.value == 0.0
  {
    if Truthy(title) then None
    else if Truthy(snippet) then None
    else Some(0.0)
  }

  /** Every candidate with a title or a snippet makes the scorer as written raise. */
  lemma AsWrittenScoringRaises(title: Option<string>, snippet: Option<string>)
    ensures RelevanceAsWritten(title, snippet).None? <==> Truthy(title) || Truthy(snippet)
  {
  }

  /** A concrete candidate: the scorer as written raises where the corrected one gives 0.5. */
  lemma AsWrittenScoringCounterexample()
    ensures RelevanceAsWritten(Some("RAG"), None).None?
    ensures Relevance(Some("rag"), Some("RAG"), None) == 0.5
  {
    assert Lower("RAG") == "rag";
    assert Lower("rag") == "rag";
    ContainsAt("rag", "rag", 0);
  }

  // ---------------------------------------------------------------- recency

  /** `\w` over ASCII: letters, digits and the underscore. */
  predicate IsWordChar(c: char) {
    'a' <= c <= 'z' || 'A' <= c <= 'Z' || IsDigit(c) || c == '_'
  }

  /** A match of the pattern `\b(\d{4})\b` starts at index `i` of `s`. */
  predicate YearAt(s: string, i: int) {
    0 <= i && i + 4 <= |s| &&
    IsDigit(s[i]) && IsDigit(s[i + 1]) && IsDigit(s[i + 2]) && IsDigit(s[i + 3]) &&
    (i == 0 || !IsWordChar(s[i - 1])) &&
    (i + 4 == |s| || !IsWordChar(s[i + 4]))
  }

  /** The leftmost match at or after index `i`, as a left-to-right regular-expression search finds it. */
  function FindYearFrom(s: string, i: nat): (r: Option<nat>)
    requires i <= |s|
    ensures r.Some? ==> i <= r.value && YearAt(s, r.value)
    ensures forall j :: i <= j && (r.None? || j < r.value) ==> !YearAt(s, j)
    decreases |s| - i
  {
    if i + 4 > |s| then None
    else if YearAt(s, i) then Some(i)
    else FindYearFrom(s, i + 1)
  }

  /** The year that `re.search(r'\b(\d{4})\b', s)` finds, if any. */
  function PublicationYear(s: string): (y: Option<int>)
    ensures y.None? <==> forall j :: !YearAt(s, j)
    ensures y.Some? ==> exists i :: YearAt(s, i) && (forall j :: j < i ==> !YearAt(s, j)) &&
                                     y.value == DigitsValue(s[i..i + 4])
  {
    match FindYearFrom(s, 0)
    case None => None
    case Some(i) => Some(DigitsValue(s[i..i + 4]))
  }

  /** The year of a candidate: found in a non-empty publication date string. */
  function YearOf(r: InitialSearchResult): Option<int> {
    if Truthy(r.publicationDateStr) then PublicationYear(r.publicationDateStr.value) else None
  }

  /** `max(0, 1 - age / 10)` with `age = currentYear - year`; the age is not clamped at zero. */
  function YearScore(year: int, currentYear: int): (r: real)
    ensures r >= 0.0
    ensures year <= currentYear ==> r <= 1.0
    ensures year > currentYear ==> r > 1.0
    ensures currentYear - year >= 10 ==> r == 0.0
  {
    MaxReal(0.0, 1.0 - (currentYear - year) as real / 10.0)
  }

  /** An older publication never scores higher on recency. */
  lemma OlderYearScoresNoHigher(older: int, newer: int, currentYear: int)
    requires older <= newer
    ensures YearScore(older, currentYear) <= YearScore(newer, currentYear)
  {
  }

  function Recency(date: Option<string>, currentYear: int): (r: real)
    ensures r >= 0.0
    ensures !Truthy(date) ==> r == 0.0
    ensures Truthy(date) && PublicationYear(date.value).None? ==> r == 0.0
  {
    if !Truthy(date) then 0.0
    else match PublicationYear(date.value)
      case None => 0.0
      case Some(y) => YearScore(y, currentYear)
  }

  // ---------------------------------------------------------------- authority

  predicate TopVenue(l: string) {
    Contains(l, "arxiv") || Contains(l, "acm") || Contains(l, "ieee")
  }

  predicate KnownRepository(l: string) {
    Contains(l, "researchgate") || Contains(l, "academia.edu")
  }

  /** The tiers are tested in order on the lower-cased source name. */
  function Authority(source: Option<string>): (r: real)
    ensures r == 0.0 || r == 0.3 || r == 0.7 || r == 1.0
    ensures r == 0.0 <==> !Truthy(source)
    ensures r == 1.0 <==> Truthy(source) && TopVenue(Lower(source.value))
    ensures r == 0.7 <==> Truthy(source) && !TopVenue(Lower(source.value)) && KnownRepository(Lower(source.value))
  {
    if !Truthy(source) then 0.0
    else
      var l := Lower(source.value);
      if TopVenue(l) then 1.0
      else if KnownRepository(l) then 0.7
      else 0.3
  }

  /** The sources of the authority test: an arXiv source is a top venue. */
  lemma ArxivSourceIsTopTier()
    ensures Authority(Some("arxiv.org")) == 1.0
  {
    assert Lower("arxiv.org") == "arxiv.org";
    ContainsAt("arxiv.org", "arxiv", 0);
  }

  lemma ResearchGateNameLowered()
    ensures Lower("ResearchGate") == "researchgate"
  {
  }

  /** A lower-cased name lacking one letter of each of "arxiv", "acm" and "ieee" is no top venue. */
  lemma NotTopVenueWithout(l: string, x: char, y: char, z: char)
    requires x in "arxiv" && y in "acm" && z in "ieee"
    requires x !in l && y !in l && z !in l
    ensures !TopVenue(l)
  {
    MissingCharNotContained(l, "arxiv", x);
    MissingCharNotContained(l, "acm", y);
    MissingCharNotContained(l, "ieee", z);
  }

  /** ResearchGate is a known repository, not a top venue. */
  lemma ResearchGateSourceIsSecondTier()
    ensures Authority(Some("ResearchGate")) == 0.7
  {
    ResearchGateNameLowered();
    NotTopVenueWithout("researchgate", 'x', 'm', 'i');
    ContainsAt("researchgate", "researchgate", 0);
  }

  lemma PersonalBlogNameLowered()
    ensures Lower("Personal Blog") == "personal blog"
  {
  }

  lemma PersonalBlogNameNotRepository()
    ensures !KnownRepository("personal blog")
  {
    MissingCharNotContained("personal blog", "researchgate", 'c');
    MissingCharNotContained("personal blog", "academia.edu", 'c');
  }

  /** Any other named source, such as a personal blog, gets the base tier. */
  lemma PersonalBlogSourceIsBaseTier()
    ensures Authority(Some("Personal Blog")) == 0.3
  {
    PersonalBlogNameLowered();
    NotTopVenueWithout("personal blog", 'x', 'c', 'i');
    PersonalBlogNameNotRepository();
  }

  // ---------------------------------------------------------------- citations

  /** A confirmed zero scores 0; an unknown (or negative) count scores 0.1; a positive count its capped ratio. */
  function Citation(count: Option<int>, ratio: int -> PositiveReal): (r: real)
    ensures 0.0 <= r <= 1.0
    ensures count == Some(0) ==> r == 0.0
    ensures count.None? || count.value < 0 ==> r == 0.1
    ensures count.Some? && count.value > 0 ==> r > 0.0
  {
    if count.Some? && count.value > 0 then MinReal(1.0, ratio(count.value))
    else if count == Some(0) then 0.0
    else 0.1
  }

  // ---------------------------------------------------------------- total score

  /** The candidate's publication year, if one is found, is not after the current year. */
  predicate NotFromTheFuture(r: InitialSearchResult, currentYear: int) {
    YearOf(r).None? || YearOf(r).value <= currentYear
  }

  /** The weighted sum of the four components. */
  function QualityScore(r: InitialSearchResult, topic: Option<string>, env: ScoringEnv): (s: real)
    ensures s >= 0.0
    ensures NotFromTheFuture(r, env.currentYear) ==> s <= 1.0
  {
    RelevanceWeight * Relevance(topic, r.title, r.snippet) +
    RecencyWeight * Recency(r.publicationDateStr, env.currentYear) +
    AuthorityWeight * Authority(r.sourceName) +
    CitationWeight * Citation(r.citationCount, env.citationRatio)
  }

  /** A year after the current one lifts recency above 1, and with it the score can pass 1. */
  lemma FutureYearExceedsUnitRecency(r: InitialSearchResult, currentYear: int)
    requires YearOf(r).Some? && YearOf(r).value > currentYear
    ensures Recency(r.publicationDateStr, currentYear) > 1.0
  {
  }

  /** Candidates that differ only in title and snippet: the score moves by 0.4 per relevance point. */
  lemma RelevanceWeighsPointFour(a: InitialSearchResult, b: InitialSearchResult, topic: Option<string>, env: ScoringEnv)
    requires a.(title := b.title, snippet := b.snippet) == b
    ensures QualityScore(a, topic, env) - QualityScore(b, topic, env) ==
            RelevanceWeight * (Relevance(topic, a.title, a.snippet) - Relevance(topic, b.title, b.snippet))
  {
  }

  /** Candidates that differ only in publication date: a newer year never scores lower. */
  lemma NewerPublicationScoresNoLower(older: InitialSearchResult, newer: InitialSearchResult, topic: Option<string>, env: ScoringEnv)
    requires older.(publicationDateStr := newer.publicationDateStr) == newer
    requires YearOf(older).Some? && YearOf(newer).Some? && YearOf(older).value <= YearOf(newer).value
    ensures QualityScore(older, topic, env) <= QualityScore(newer, topic, env)
  {
    OlderYearScoresNoHigher(YearOf(older).value, YearOf(newer).value, env.currentYear);
  }

  /** Candidates that differ only in source name: the score moves by 0.1 per authority point. */
  lemma AuthorityWeighsPointOne(a: InitialSearchResult, b: InitialSearchResult, topic: Option<string>, env: ScoringEnv)
    requires a.(sourceName := b.sourceName) == b
    ensures QualityScore(a, topic, env) - QualityScore(b, topic, env) ==
            AuthorityWeight * (Authority(a.sourceName) - Authority(b.sourceName))
  {
  }

  // ---------------------------------------------------------------- ranking

  /** The sort key: the stamped score, or -1 for a candidate without one. */
  function SortKey(r: InitialSearchResult): real {
    r.qualityScore.GetOr(-1.0)
  }

  predicate NonIncreasing(s: seq<InitialSearchResult>) {
    forall i, j :: 0 <= i < j < |s| ==> SortKey(s[i]) >= SortKey(s[j])
  }

  predicate KeysAtMost(s: seq<InitialSearchResult>, k: real) {
    forall i :: 0 <= i < |s| ==> SortKey(s[i]) <= k
  }

  /** Insert `x` in front of the first element whose key does not exceed its own. */
  function InsertByScore(x: InitialSearchResult, t: seq<InitialSearchResult>): (r: seq<InitialSearchResult>)
    ensures multiset(r) == multiset(t) + multiset{x}
    ensures |r| == |t| + 1
  {
    if t == [] || SortKey(t[0]) <= SortKey(x) then [x] + t
    else
      assert t == [t[0]] + t[1..];
      [t[0]] + InsertByScore(x, t[1..])
  }

  lemma {:induction false} InsertKeepsBound(x: InitialSearchResult, t: seq<InitialSearchResult>, k: real)
    requires KeysAtMost(t, k) && SortKey(x) <= k
    ensures KeysAtMost(InsertByScore(x, t), k)
  {
    if t != [] && SortKey(t[0]) > SortKey(x) {
      InsertKeepsBound(x, t[1..], k);
    }
  }

  lemma {:induction false} InsertKeepsOrder(x: InitialSearchResult, t: seq<InitialSearchResult>)
    requires NonIncreasing(t)
    ensures NonIncreasing(InsertByScore(x, t))
  {
    if t != [] && SortKey(t[0]) > SortKey(x) {
      InsertKeepsOrder(x, t[1..]);
      InsertKeepsBound(x, t[1..], SortKey(t[0]));
    }
  }

  /** `sorted(s, key=SortKey, reverse=True)`: Python's stable sort in descending order. */
  function SortByScoreDesc(s: seq<InitialSearchResult>): (r: seq<InitialSearchResult>)
    ensures multiset(r) == multiset(s)
    ensures |r| == |s|
    ensures NonIncreasing(r)
  {
    if s == [] then []
    else
      assert s == [s[0]] + s[1..];
      InsertKeepsOrder(s[0], SortByScoreDesc(s[1..]));
      InsertByScore(s[0], SortByScoreDesc(s[1..]))
  }

  /** The candidates whose key is `k`, in order. */
  function WithKey(s: seq<InitialSearchResult>, k: real): seq<InitialSearchResult> {
    if s == [] then [] else (if SortKey(s[0]) == k then [s[0]] else []) + WithKey(s[1..], k)
  }

  lemma {:induction false} WithKeyOfPrefix(a: seq<InitialSearchResult>, b: seq<InitialSearchResult>, k: real)
    requires a <= b
    ensures WithKey(a, k) <= WithKey(b, k)
  {
    if a != [] {
      assert a[1..] <= b[1..];
      WithKeyOfPrefix(a[1..], b[1..], k);
    }
  }

  lemma {:induction false} InsertKeepsEqualKeysInOrder(x: InitialSearchResult, t: seq<InitialSearchResult>, k: real)
    ensures WithKey(InsertByScore(x, t), k) == (if SortKey(x) == k then [x] else []) + WithKey(t, k)
  {
    var r := InsertByScore(x, t);
    if t == [] || SortKey(t[0]) <= SortKey(x) {
      assert r == [x] + t;
      assert r[0] == x && r[1..] == t;
    } else {
      var tail := InsertByScore(x, t[1..]);
      assert r == [t[0]] + tail;
      assert r[0] == t[0] && r[1..] == tail;
      InsertKeepsEqualKeysInOrder(x, t[1..], k);
      assert WithKey(r, k) == (if SortKey(t[0]) == k then [t[0]] else []) + WithKey(tail, k);
      assert WithKey(t, k) == (if SortKey(t[0]) == k then [t[0]] else []) + WithKey(t[1..], k);
    }
  }

  /** Stability: for every score, the candidates with that score keep their input order. */
  lemma {:induction false} SortIsStable(s: seq<InitialSearchResult>, k: real)
    ensures WithKey(SortByScoreDesc(s), k) == WithKey(s, k)
  {
    if s != [] {
      SortIsStable(s[1..], k);
      InsertKeepsEqualKeysInOrder(s[0], SortByScoreDesc(s[1..]), k);
    }
  }

  /** A prefix of a descending sequence holds its highest keys: nothing left out outranks anything kept. */
  lemma PrefixHoldsTopKeys(s: seq<InitialSearchResult>, n: int)
    requires NonIncreasing(s)
    ensures forall x, y :: x in PyPrefix(s, n) && y in multiset(s) - multiset(PyPrefix(s, n)) ==> SortKey(y) <= SortKey(x)
  {
    var p := PyPrefix(s, n);
    var rest := s[|p|..];
    assert s == p + rest;
    assert multiset(s) - multiset(p) == multiset(rest);
    forall x, y | x in p && y in multiset(rest) ensures SortKey(y) <= SortKey(x) {
      assert y in rest;
      var a :| 0 <= a < |p| && p[a] == x;
      var b :| 0 <= b < |rest| && rest[b] == y;
      assert s[a] == x && s[|p| + b] == y;
    }
  }

  /** The candidate with its quality score filled in. */
  function Stamp(r: InitialSearchResult, topic: Option<string>, env: ScoringEnv): InitialSearchResult {
    r.(qualityScore := Some(QualityScore(r, topic, env)))
  }

  /** Every candidate stamped from `results`, in order. */
  predicate StampedFrom(scored: seq<InitialSearchResult>, results: seq<InitialSearchResult>, topic: Option<string>, env: ScoringEnv) {
    |scored| == |results| && forall i :: 0 <= i < |results| ==> scored[i] == Stamp(results[i], topic, env)
  }

  lemma StampedFromExtend(scored: seq<InitialSearchResult>, done: seq<InitialSearchResult>, next: InitialSearchResult,
                          topic: Option<string>, env: ScoringEnv)
    requires StampedFrom(scored, done, topic, env)
    ensures StampedFrom(scored + [Stamp(next, topic, env)], done + [next], topic, env)
  {
    var f, s := scored + [Stamp(next, topic, env)], done + [next];
    forall i | 0 <= i < |s| ensures f[i] == Stamp(s[i], topic, env) {
      if i < |done| {
        assert f[i] == scored[i] && s[i] == done[i];
      }
    }
  }

  /** What the top-N prefix of the sorted, stamped candidates satisfies. */
  ghost predicate IsStableTopN(ranked: seq<InitialSearchResult>, scored: seq<InitialSearchResult>) {
    NonIncreasing(ranked) &&
    multiset(ranked) <= multiset(scored) &&
    (forall x, y :: x in ranked && y in multiset(scored) - multiset(ranked) ==> SortKey(y) <= SortKey(x)) &&
    (forall k :: WithKey(ranked, k) <= WithKey(scored, k))
  }

  /** A prefix of a descending sequence is descending and draws on its elements. */
  lemma DescendingPrefix(s: seq<InitialSearchResult>, n: int)
    requires NonIncreasing(s)
    ensures NonIncreasing(PyPrefix(s, n))
    ensures multiset(PyPrefix(s, n)) <= multiset(s)
  {
    var p := PyPrefix(s, n);
    assert s == p + s[|p|..];
    assert multiset(s) == multiset(p) + multiset(s[|p|..]);
    forall i, j | 0 <= i < j < |p| ensures SortKey(p[i]) >= SortKey(p[j]) {
      assert p[i] == s[i] && p[j] == s[j];
    }
  }

  lemma SortedPrefixIsStableTopN(scored: seq<InitialSearchResult>, n: int)
    ensures IsStableTopN(PyPrefix(SortByScoreDesc(scored), n), scored)
  {
    var sorted := SortByScoreDesc(scored);
    var ranked := PyPrefix(sorted, n);
    DescendingPrefix(sorted, n);
    PrefixHoldsTopKeys(sorted, n);
    assert multiset(sorted) == multiset(scored);
    forall k ensures WithKey(ranked, k) <= WithKey(scored, k) {
      WithKeyOfPrefix(ranked, sorted, k);
      SortIsStable(scored, k);
    }
  }

  lemma StampedScoresAreNonNegative(scored: seq<InitialSearchResult>, results: seq<InitialSearchResult>, topic: Option<string>, env: ScoringEnv, ranked: seq<InitialSearchResult>)
    requires StampedFrom(scored, results, topic, env)
    requires multiset(ranked) <= multiset(scored)
    ensures forall r :: r in ranked ==> r.qualityScore.Some? && r.qualityScore.value >= 0.0
  {
    forall r | r in ranked ensures r.qualityScore.Some? && r.qualityScore.value >= 0.0 {
      assert r in multiset(ranked);
      assert r in multiset(scored);
      var j :| 0 <= j < |scored| && scored[j] == r;
    }
  }

  /**
   * Scores every candidate (the source stamps `quality_score` onto each input object; `scored`
   * is the input list after that update), then returns `sorted(...)[:topN]`.
   */
  method RankInitialResults(results: seq<InitialSearchResult>, topN: int, topic: Option<string>, env: ScoringEnv)
    returns (scored: seq<InitialSearchResult>, ranked: seq<InitialSearchResult>)
    ensures StampedFrom(scored, results, topic, env)
    ensures ranked == PyPrefix(SortByScoreDesc(scored), topN)
    ensures results == [] ==> ranked == []
    ensures topN >= 0 ==> |ranked| == MinInt(topN, |results|)
    ensures IsStableTopN(ranked, scored)
    ensures forall r :: r in ranked ==> r.qualityScore.Some? && r.qualityScore.value >= 0.0
  {
    if results == [] {
      return [], [];
    }
    scored := [];
    var i := 0;
    while i < |results|
      invariant 0 <= i <= |results|
      invariant StampedFrom(scored, results[..i], topic, env)
    {
      StampedFromExtend(scored, results[..i], results[i], topic, env);
      assert results[..i + 1] == results[..i] + [results[i]];
      scored := scored + [Stamp(results[i], topic, env)];
      i := i + 1;
    }
    assert results[..i] == results;
    ranked := PyPrefix(SortByScoreDesc(scored), topN);
    SortedPrefixIsStableTopN(scored, topN);
    StampedScoresAreNonNegative(scored, results, topic, env, ranked);
  }

  // ---------------------------------------------------------------- conversion

  const MarkdownHeader: string := "# Content from "
  const MarkdownTrailer: string := "...\n\n[Full content truncated for example]"
  const ExcerptLength: int := 2000

  /** The placeholder layout: header and URL, a blank line, the first 2000 characters, the trailer. */
  predicate IsPlaceholderMarkdown(m: string, url: string, raw: string) {
    var head := MarkdownHeader + url + "\n\n";
    var excerpt := PyPrefix(raw, ExcerptLength);
    |m| == |head| + |excerpt| + |MarkdownTrailer| &&
    StartsWith(m, head) &&
    m[|head|..|head| + |excerpt|] == excerpt &&
    EndsWith(m, MarkdownTrailer)
  }

  /** `None` for absent or empty raw content; otherwise the document, its metadata copied from the candidate. */
  function ConvertContentToMarkdown(d: FullContentData): (r: Option<ProcessedContent>)
    ensures r.None? <==> !Truthy(d.rawContent)
    ensures r.Some? ==>
      r.value.sourceUrl == d.sourceUrl && r.value.originalMetadata == d.originalMetadata &&
      r.value.title == d.originalMetadata.title &&
      r.value.publicationDate == d.originalMetadata.publicationDateStr &&
      r.value.abstractText == d.originalMetadata.snippet &&
      r.value.authors.None? && r.value.keywords.None? && r.value.gcsStorageLink.None?
    ensures r.Some? ==> IsPlaceholderMarkdown(r.value.fullTextMarkdown, d.sourceUrl, d.rawContent.value)
  {
    if !Truthy(d.rawContent) then None
    else
      var md := MarkdownHeader + d.sourceUrl + "\n\n" + PyPrefix(d.rawContent.value, ExcerptLength) + MarkdownTrailer;
      assert md[|md| - |MarkdownTrailer|..] == MarkdownTrailer;
      Some(ProcessedContent(
        sourceUrl := d.sourceUrl,
        originalMetadata := d.originalMetadata,
        fullTextMarkdown := md,
        title := d.originalMetadata.title,
        publicationDate := d.originalMetadata.publicationDateStr,
        abstractText := d.originalMetadata.snippet))
  }

  /** Raw content of at most 2000 characters appears whole in the document. */
  lemma ShortContentKeptWhole(m: string, url: string, raw: string)
    requires IsPlaceholderMarkdown(m, url, raw) && |raw| <= ExcerptLength
    ensures Contains(m, raw)
  {
    var head := MarkdownHeader + url + "\n\n";
    ContainsAt(m, raw, |head|);
  }

  /** The document never exceeds the URL plus 2000 characters of content plus the fixed text. */
  lemma PlaceholderLengthBound(m: string, url: string, raw: string)
    requires IsPlaceholderMarkdown(m, url, raw)
    ensures |m| <= |MarkdownHeader| + |url| + 2 + ExcerptLength + |MarkdownTrailer|
    ensures |m| > |url|
  {
  }
}
