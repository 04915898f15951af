/**
 * The metric recommender: keyword rules that map a natural-language query (and an optional
 * use case) to evaluation metrics with a confidence, a language-model fallback when the rules
 * are unsure, and a cache in front of the whole computation. The cache is the state of a
 * `MetricRecommender` object; the hash of the request, the reachability of the cache server,
 * the success of the cache write and the language model are parameters.
 */
module MetricRecommendation {
  import opened Wrappers
  import opened Text

  // ---------------------------------------------------------------- the rules

  /** A rule: a keyword and the metrics it selects. */
  type Rule = (string, seq<string>)

  /** The rule table, in the order the dictionary iterates it. */
  const Rules: seq<Rule> := [
    ("factual", ["faithfulness", "answer_correctness"]),
    ("speed", ["latency@k", "tokens_per_second"]),
    ("diversity", ["diversity@k", "semantic_variety"])
  ]

  /** The metrics of every rule whose keyword occurs in the lower-cased query, rule by rule. */
  function KeywordMetrics(query: string, rules: seq<Rule>): seq<string>
  {
    if rules == [] then []
    else
      var last := rules[|rules| - 1];
      KeywordMetrics(query, rules[..|rules| - 1]) + (if Contains(Lower(query), last.0) then last.1 else [])
  }

  /** The number of rules whose keyword occurs in the lower-cased query. */
  function MatchedRules(query: string, rules: seq<Rule>): nat
  {
    if rules == [] then 0
    else MatchedRules(query, rules[..|rules| - 1]) + (if Contains(Lower(query), rules[|rules| - 1].0) then 1 else 0)
  }

  /** Dictionary lookup: the metrics of the first rule with key `k`. */
  function Lookup(k: string, rules: seq<Rule>): (r: Option<seq<string>>)
    ensures r.Some? <==> exists j :: 0 <= j < |rules| && rules[j].0 == k
    ensures r.Some? ==> exists j :: 0 <= j < |rules| && rules[j].0 == k && r.value == rules[j].1
  {
    if rules == [] then None
    else if rules[0].0 == k then Some(rules[0].1)
    else
      var r := Lookup(k, rules[1..]);
      assert forall j :: 0 <= j < |rules[1..]| ==> rules[1..][j] == rules[j + 1];
      assert forall j :: 1 <= j < |rules| ==> rules[j] == rules[1..][j - 1];
      r
  }

  /** The use case selects the metrics of its rule when it is non-empty and is, exactly, a key. */
  function UseCaseMetrics(useCase: Option<string>): seq<string>
  {
    if Truthy(useCase) && Lookup(useCase.value, Rules).Some? then Lookup(useCase.value, Rules).value else []
  }

  /** The metric list before de-duplication: keyword matches first, then the use case's rule. */
  function RuleMetricList(query: string, useCase: Option<string>): seq<string>
  {
    KeywordMetrics(query, Rules) + UseCaseMetrics(useCase)
  }

  /** The distinct elements of a list, as `set(...)` keeps them. */
  function Elements(s: seq<string>): set<string>
  {
    set x | x in s
  }

  /** `min(1.0, n * 0.33)` for a count of `n` metrics. */
  function RuleConfidence(n: nat): (c: real)
    ensures 0.0 <= c <= 1.0
    ensures n == 0 <==> c == 0.0
    ensures c == 1.0 <==> n >= 4
    ensures c < 0.7 <==> n <= 2
  {
    MinReal(1.0, n as real * 0.33)
  }

  /**
   * `get_rule_based_metrics`: one pass over the rules collecting the metrics of every keyword
   * the lower-cased query contains, then the use case's rule; the confidence counts the
   * metrics before the duplicates are dropped.
   */
  method GetRuleBasedMetrics(query: string, useCase: Option<string>) returns (metrics: set<string>, confidence: real)
    ensures metrics == Elements(RuleMetricList(query, useCase))
    ensures confidence == RuleConfidence(|RuleMetricList(query, useCase)|)
  {
    var found: seq<string> := [];
    var lowered := Lower(query);
    var i := 0;
    while i < |Rules|
      invariant 0 <= i <= |Rules|
      invariant found == KeywordMetrics(query, Rules[..i])
    {
      var rule := Rules[i];
      assert Rules[..i + 1][..i] == Rules[..i];
      if Contains(lowered, rule.0) {
        found := found + rule.1;
      }
      i := i + 1;
    }
    assert Rules[..i] == Rules;
    if Truthy(useCase) && Lookup(useCase.value, Rules).Some? {
      found := found + Lookup(useCase.value, Rules).value;
    }
    confidence := MinReal(1.0, |found| as real * 0.33);
    metrics := set x | x in found;
  }

  /** A metric is collected exactly when some rule whose keyword the query contains lists it. */
  lemma {:induction false} KeywordMetricsMembership(query: string, rules: seq<Rule>, m: string)
    ensures m in KeywordMetrics(query, rules) <==>
              exists j :: 0 <= j < |rules| && Contains(Lower(query), rules[j].0) && m in rules[j].1
  {
    if rules != [] {
      var init := rules[..|rules| - 1];
      KeywordMetricsMembership(query, init, m);
      assert forall j :: 0 <= j < |init| ==> init[j] == rules[j];
    }
  }

  /** When every rule lists two metrics, two metrics are collected per matching keyword. */
  lemma {:induction false} KeywordMetricsCount(query: string, rules: seq<Rule>)
    requires forall j :: 0 <= j < |rules| ==> |rules[j].1| == 2
    ensures |KeywordMetrics(query, rules)| == 2 * MatchedRules(query, rules)
  {
    if rules != [] {
      KeywordMetricsCount(query, rules[..|rules| - 1]);
    }
  }

  /**
   * The rule metrics are exactly those of the rules whose keyword occurs in the lower-cased
   * query, together with those of the rule keyed by the (non-empty) use case itself.
   */
  lemma RuleMetricsMembership(query: string, useCase: Option<string>, m: string)
    ensures m in Elements(RuleMetricList(query, useCase)) <==>
              (exists j :: 0 <= j < |Rules| && Contains(Lower(query), Rules[j].0) && m in Rules[j].1) ||
              (Truthy(useCase) && exists j :: 0 <= j < |Rules| && Rules[j].0 == useCase.value && m in Rules[j].1)
  {
    KeywordMetricsMembership(query, Rules, m);
    if Truthy(useCase) {
      var k := useCase.value;
      assert forall j :: 0 <= j < |Rules| && Rules[j].0 == k ==> Lookup(k, Rules) == Some(Rules[j].1);
    }
  }

  /** The number of rules that apply: matching keywords, and the use case when it is a key. */
  function RulesApplied(query: string, useCase: Option<string>): nat
  {
    MatchedRules(query, Rules) + (if UseCaseMetrics(useCase) != [] then 1 else 0)
  }

  /** The rules are unsure (and the language model is asked) exactly when at most one rule applies. */
  lemma UnsureIffAtMostOneRule(query: string, useCase: Option<string>)
    ensures RuleConfidence(|RuleMetricList(query, useCase)|) < 0.7 <==> RulesApplied(query, useCase) <= 1
    ensures RuleConfidence(|RuleMetricList(query, useCase)|) == 0.0 <==> RulesApplied(query, useCase) == 0
  {
    KeywordMetricsCount(query, Rules);
    var u := UseCaseMetrics(useCase);
    assert u != [] ==> |u| == 2;
  }

  /** A query naming no keyword, with no use case that is a key, selects nothing with confidence 0. */
  lemma NothingMatchedSelectsNothing(query: string, useCase: Option<string>)
    requires forall j :: 0 <= j < |Rules| ==> !Contains(Lower(query), Rules[j].0)
    requires !Truthy(useCase) || Lookup(useCase.value, Rules).None?
    ensures Elements(RuleMetricList(query, useCase)) == {}
    ensures RuleConfidence(|RuleMetricList(query, useCase)|) == 0.0
  {
    forall m ensures m !in Elements(RuleMetricList(query, useCase)) {
      RuleMetricsMembership(query, useCase, m);
    }
    UnsureIffAtMostOneRule(query, useCase);
    MatchedNone(query, Rules);
  }

  lemma {:induction false} MatchedNone(query: string, rules: seq<Rule>)
    requires forall j :: 0 <= j < |rules| ==> !Contains(Lower(query), rules[j].0)
    ensures MatchedRules(query, rules) == 0
  {
    if rules != [] {
      MatchedNone(query, rules[..|rules| - 1]);
    }
  }

  /** The collected list over the rule table, rule by rule in table order. */
  lemma KeywordMetricsOfTable(query: string)
    ensures KeywordMetrics(query, Rules) ==
              (if Contains(Lower(query), "factual") then ["faithfulness", "answer_correctness"] else []) +
              (if Contains(Lower(query), "speed") then ["latency@k", "tokens_per_second"] else []) +
              (if Contains(Lower(query), "diversity") then ["diversity@k", "semantic_variety"] else [])
  {
    var l := Lower(query);
    var one, two := Rules[..1], Rules[..2];
    assert one[..0] == [] && two[..1] == one && Rules[..2] == two;
    assert KeywordMetrics(query, one) == (if Contains(l, "factual") then ["faithfulness", "answer_correctness"] else []);
    assert KeywordMetrics(query, two) == KeywordMetrics(query, one) +
             (if Contains(l, "speed") then ["latency@k", "tokens_per_second"] else []);
  }

  lemma CheckFactualDataKeywords(l: string)
    requires l == "check factual data"
    ensures Contains(l, "factual") && !Contains(l, "speed") && !Contains(l, "diversity")
  {
    assert l[6..13] == "factual";
    ContainsAt(l, "factual", 6);
    MissingCharNotContained(l, "speed", 'p');
    MissingCharNotContained(l, "diversity", 'v');
  }

  lemma CheckFactualDataMatches()
    ensures var l := Lower("check FACTUAL data");
      Contains(l, "factual") && !Contains(l, "speed") && !Contains(l, "diversity")
  {
    var l := Lower("check FACTUAL data");
    assert l == "check factual data";
    CheckFactualDataKeywords(l);
  }

  /** A keyword the query names in capitals still selects its metrics. */
  lemma UpperCaseKeywordMatches()
    ensures Elements(RuleMetricList("check FACTUAL data", None)) == {"faithfulness", "answer_correctness"}
    ensures RuleConfidence(|RuleMetricList("check FACTUAL data", None)|) == 0.66
  {
    CheckFactualDataMatches();
    KeywordMetricsOfTable("check FACTUAL data");
    assert RuleMetricList("check FACTUAL data", None) == ["faithfulness", "answer_correctness"];
  }

  lemma SpeedSpeedSpeedKeywords(l: string)
    requires l == "speed speed speed"
    ensures Contains(l, "speed") && !Contains(l, "factual") && !Contains(l, "diversity")
  {
    assert l[0..5] == "speed";
    ContainsAt(l, "speed", 0);
    MissingCharNotContained(l, "factual", 'f');
    MissingCharNotContained(l, "diversity", 'v');
  }

  lemma SpeedSpeedSpeedMatches()
    ensures var l := Lower("speed speed speed");
      Contains(l, "speed") && !Contains(l, "factual") && !Contains(l, "diversity")
  {
    var l := Lower("speed speed speed");
    assert l == "speed speed speed";
    SpeedSpeedSpeedKeywords(l);
  }

  /** A repeated keyword selects its metrics once, and counts once. */
  lemma RepeatedKeywordCountsOnce()
    ensures Elements(RuleMetricList("speed speed speed", None)) == {"latency@k", "tokens_per_second"}
    ensures RuleConfidence(|RuleMetricList("speed speed speed", None)|) == 0.66
  {
    SpeedSpeedSpeedMatches();
    KeywordMetricsOfTable("speed speed speed");
    assert RuleMetricList("speed speed speed", None) == ["latency@k", "tokens_per_second"];
  }

  lemma FactualSpeedCheckKeywords(l: string)
    requires l == "factual speed check"
    ensures Contains(l, "factual") && Contains(l, "speed") && !Contains(l, "diversity")
  {
    assert l[0..7] == "factual";
    assert l[8..13] == "speed";
    ContainsAt(l, "factual", 0);
    ContainsAt(l, "speed", 8);
    MissingCharNotContained(l, "diversity", 'v');
  }

  lemma FactualSpeedCheckMatches()
    ensures var l := Lower("factual speed check");
      Contains(l, "factual") && Contains(l, "speed") && !Contains(l, "diversity")
  {
    var l := Lower("factual speed check");
    assert l == "factual speed check";
    FactualSpeedCheckKeywords(l);
  }

  /** Two keywords select four metrics and full confidence. */
  lemma TwoKeywordsGiveFullConfidence()
    ensures Elements(RuleMetricList("factual speed check", None)) ==
              {"faithfulness", "answer_correctness", "latency@k", "tokens_per_second"}
    ensures RuleConfidence(|RuleMetricList("factual speed check", None)|) == 1.0
  {
    FactualSpeedCheckMatches();
    KeywordMetricsOfTable("factual speed check");
    assert RuleMetricList("factual speed check", None) ==
             ["faithfulness", "answer_correctness", "latency@k", "tokens_per_second"];
  }

  /** The use case is compared as given: "Factual" is not the key "factual". */
  lemma UseCaseIsCaseSensitive()
    ensures Elements(RuleMetricList("a query", Some("Factual"))) == {}
  {
    var l := Lower("a query");
    assert l == "a query";
    MissingCharNotContained(l, "factual", 'f');
    MissingCharNotContained(l, "speed", 'p');
    MissingCharNotContained(l, "diversity", 'v');
    NothingMatchedSelectsNothing("a query", Some("Factual"));
  }

  /**
   * A use case repeating a keyword of the query adds no new metric, yet its metrics are counted
   * again: two distinct metrics with full confidence.
   */
  lemma UseCaseRepeatingKeywordCountsTwice()
    ensures Elements(RuleMetricList("factual", Some("factual"))) == {"faithfulness", "answer_correctness"}
    ensures RuleConfidence(|RuleMetricList("factual", Some("factual"))|) == 1.0
  {
    var l := Lower("factual");
    assert l == "factual";
    assert l[0..7] == "factual";
    ContainsAt(l, "factual", 0);
    MissingCharNotContained(l, "speed", 'p');
    MissingCharNotContained(l, "diversity", 'v');
    KeywordMetricsOfTable("factual");
    assert UseCaseMetrics(Some("factual")) == ["faithfulness", "answer_correctness"];
    assert RuleMetricList("factual", Some("factual")) ==
             ["faithfulness", "answer_correctness", "faithfulness", "answer_correctness"];
  }

  // ---------------------------------------------------------------- the recommendation

  /** A response as the service returns it; `fallbackMetrics` is absent from the error fallback. */
  datatype Recommendation = Recommendation(
    recommendedMetrics: set<string>,
    reasoning: string,
    confidence: real,
    fallbackMetrics: Option<seq<string>> := None)

  const ReasoningPrefix := "Recommended metrics for: "
  const FallbackMetrics: seq<string> := ["answer_relevance", "retrieval_recall"]

  /** The response to any failure. */
  const Fallback := Recommendation({"answer_relevance"}, "Default fallback metrics", 0.1)

  /** The confidence below which the language model is consulted, and the one it yields. */
  const UnsureBelow := 0.7
  const LlmConfidence := 0.8

  /**
   * The computed response: the rule metrics, joined by the model's metrics with confidence 0.8
   * when the rules' confidence is below 0.7.
   */
  function Recommend(query: string, useCase: Option<string>, llm: string -> seq<string>): (r: Recommendation)
    ensures r.reasoning == ReasoningPrefix + query && r.fallbackMetrics == Some(FallbackMetrics)
    ensures UnsureBelow <= r.confidence <= 1.0
    ensures Elements(RuleMetricList(query, useCase)) <= r.recommendedMetrics
    ensures r.recommendedMetrics <= Elements(RuleMetricList(query, useCase)) + Elements(llm(query))
    ensures r != Fallback
  {
    var rules := RuleMetricList(query, useCase);
    var c := RuleConfidence(|rules|);
    if c < UnsureBelow then
      Recommendation(Elements(rules) + Elements(llm(query)), ReasoningPrefix + query, LlmConfidence, Some(FallbackMetrics))
    else
      Recommendation(Elements(rules), ReasoningPrefix + query, c, Some(FallbackMetrics))
  }

  /** Confident rules never consult the model: any two models give the same response. */
  lemma ConfidentRulesIgnoreTheModel(query: string, useCase: Option<string>,
                                     llm1: string -> seq<string>, llm2: string -> seq<string>)
    requires RulesApplied(query, useCase) >= 2
    ensures Recommend(query, useCase, llm1) == Recommend(query, useCase, llm2)
    ensures Recommend(query, useCase, llm1).recommendedMetrics == Elements(RuleMetricList(query, useCase))
    ensures Recommend(query, useCase, llm1).confidence == RuleConfidence(|RuleMetricList(query, useCase)|)
  {
    UnsureIffAtMostOneRule(query, useCase);
  }

  /** Unsure rules take in every metric the model names, with confidence 0.8. */
  lemma UnsureRulesTakeTheModelsMetrics(query: string, useCase: Option<string>, llm: string -> seq<string>)
    requires RulesApplied(query, useCase) <= 1
    ensures Recommend(query, useCase, llm).recommendedMetrics ==
              Elements(RuleMetricList(query, useCase)) + Elements(llm(query))
    ensures Recommend(query, useCase, llm).confidence == LlmConfidence
  {
    UnsureIffAtMostOneRule(query, useCase);
  }

  /** The placeholder model names nothing, so an unsure response holds the rule metrics alone. */
  lemma PlaceholderModelAddsNothing(query: string, useCase: Option<string>)
    ensures Recommend(query, useCase, _ => []).recommendedMetrics == Elements(RuleMetricList(query, useCase))
  {
    var r := Recommend(query, useCase, _ => []);
    assert Elements([]) == {};
  }

  // ---------------------------------------------------------------- requests and the cache

  /** The request body the schema validates. */
  datatype MetricRequest = MetricRequest(
    query: string,
    useCase: Option<string> := None,
    constraints: Option<seq<string>> := None)

  /**
   * What the service is handed: a JSON dictionary (where "query" may be missing), or the
   * validated request object itself, which JSON serialisation rejects.
   */
  datatype Payload =
    | JsonDict(query: Option<string>, useCase: Option<string>, constraints: Option<seq<string>>)
    | RequestObject(request: MetricRequest)

  /**
   * What one call depends on besides the request and the cache: the hash of the serialised
   * request, whether the cache server answers the read, whether the write succeeds, and the model.
   */
  datatype ServiceEnv = ServiceEnv(
    hashOf: Payload -> int,
    cacheReachable: bool,
    writeSucceeds: bool,
    llm: string -> seq<string>)

  const CacheKeyPrefix := "metric_rec:"

  /** The cache key of a request hash. */
  function CacheKey(hash: int): (k: string)
    ensures StartsWith(k, CacheKeyPrefix)
    ensures k[|CacheKeyPrefix|..] == IntToString(hash)
  {
    CacheKeyPrefix + IntToString(hash)
  }

  /** Distinct hashes never share a cache entry. */
  lemma CacheKeyInjective(a: int, b: int)
    requires CacheKey(a) == CacheKey(b)
    ensures a == b
  {
    assert CacheKey(a)[|CacheKeyPrefix|..] == CacheKey(b)[|CacheKeyPrefix|..];
    IntToStringInjective(a, b);
  }

  /** The response of one call and the cache after it. */
  datatype Outcome = Outcome(response: Recommendation, cache: map<string, Recommendation>)

  /**
   * `get_metric_recommendations`: serialise and hash the request (an object fails), read the
   * cache (an unreachable server fails; a hit is returned as stored), compute the response
   * (a missing "query" fails), and write it (a failed write fails). Every failure gives
   * `Fallback` and leaves the cache as it was.
   */
  function Serve(request: Payload, cache: map<string, Recommendation>, env: ServiceEnv): (o: Outcome)
    ensures forall k :: k in cache ==> k in o.cache && o.cache[k] == cache[k]
    ensures o.response == Fallback || o.response in o.cache.Values
    ensures request.RequestObject? || !env.cacheReachable ==> o == Outcome(Fallback, cache)
  {
    if request.RequestObject? || !env.cacheReachable then Outcome(Fallback, cache)
    else
      var key := CacheKey(env.hashOf(request));
      if key in cache then Outcome(cache[key], cache)
      else if request.query.None? || !env.writeSucceeds then Outcome(Fallback, cache)
      else
        var response := Recommend(request.query.value, request.useCase, env.llm);
        assert cache[key := response][key] == response;
        Outcome(response, cache[key := response])
  }

  /** The cache in front of the recommender, as a map from key to stored response. */
  class MetricRecommender {
    var cache: map<string, Recommendation>

    constructor()
      ensures cache == map[]
    {
      cache := map[];
    }

    method GetMetricRecommendations(request: Payload, env: ServiceEnv) returns (r: Recommendation)
      modifies this
      ensures r == Serve(request, old(cache), env).response
      ensures cache == Serve(request, old(cache), env).cache
    {
      if request.RequestObject? {
        return Fallback;
      }
      var key := CacheKey(env.hashOf(request));
      if !env.cacheReachable {
        return Fallback;
      }
      if key in cache {
        return cache[key];
      }
      if request.query.None? {
        return Fallback;
      }
      var query := request.query.value;
      var metrics, confidence := GetRuleBasedMetrics(query, request.useCase);
      if confidence < UnsureBelow {
        var llmMetrics := env.llm(query);
        metrics := metrics + (set m | m in llmMetrics);
        confidence := LlmConfidence;
      }
      var response := Recommendation(metrics, ReasoningPrefix + query, confidence, Some(FallbackMetrics));
      if !env.writeSucceeds {
        return Fallback;
      }
      cache := cache[CacheKey(env.hashOf(request)) := response];
      return response;
    }
  }

  /** A cache hit is returned as stored, whatever the model would say, and nothing is written. */
  lemma CacheHitIsReturnedAsStored(request: Payload, cache: map<string, Recommendation>, env: ServiceEnv)
    requires request.JsonDict? && env.cacheReachable
    requires CacheKey(env.hashOf(request)) in cache
    ensures Serve(request, cache, env) == Outcome(cache[CacheKey(env.hashOf(request))], cache)
  {
  }

  /** A miss stores the computed response under the request's key, and returns it. */
  lemma MissStoresTheResponse(request: Payload, cache: map<string, Recommendation>, env: ServiceEnv)
    requires request.JsonDict? && request.query.Some? && env.cacheReachable && env.writeSucceeds
    requires CacheKey(env.hashOf(request)) !in cache
    ensures var out := Serve(request, cache, env);
      out.cache == cache[CacheKey(env.hashOf(request)) := out.response] &&
      out.response.reasoning == ReasoningPrefix + request.query.value &&
      out.response.fallbackMetrics == Some(FallbackMetrics) &&
      UnsureBelow <= out.response.confidence <= 1.0
  {
  }

  /**
   * The cache only ever gains the response being returned, under the request's key, and a
   * fallback response never comes with a write.
   */
  lemma CacheOnlyGainsTheReturnedResponse(request: Payload, cache: map<string, Recommendation>, env: ServiceEnv)
    ensures var out := Serve(request, cache, env);
      (out.response == Fallback ==> out.cache == cache) &&
      (out.cache == cache || out.cache == cache[CacheKey(env.hashOf(request)) := out.response])
  {
  }

  /** Asking again after a stored response is answered from the cache with the same response. */
  lemma RepeatedRequestIsAnsweredFromCache(request: Payload, cache: map<string, Recommendation>,
                                           env1: ServiceEnv, env2: ServiceEnv)
    requires Serve(request, cache, env1).cache != cache
    requires env2.cacheReachable && env2.hashOf(request) == env1.hashOf(request)
    ensures Serve(request, Serve(request, cache, env1).cache, env2) ==
              Outcome(Serve(request, cache, env1).response, Serve(request, cache, env1).cache)
  {
  }

  /** The error response in full. */
  lemma FallbackResponse()
    ensures Fallback.recommendedMetrics == {"answer_relevance"}
    ensures Fallback.reasoning == "Default fallback metrics"
    ensures Fallback.confidence == 0.1 && Fallback.fallbackMetrics.None?
  {
  }

  // ---------------------------------------------------------------- the HTTP endpoint

  /** What the endpoint hands the service as written: the validated request object. */
  function EndpointPayloadAsWritten(request: MetricRequest): (p: Payload)
    ensures p.RequestObject?
  {
    RequestObject(request)
  }

  /** As written, every request through the endpoint fails serialisation and gets the fallback. */
  lemma EndpointAlwaysFallsBack(request: MetricRequest, cache: map<string, Recommendation>, env: ServiceEnv)
    ensures Serve(EndpointPayloadAsWritten(request), cache, env) == Outcome(Fallback, cache)
  {
  }

  /** The request as a dictionary, every field present, as the model's dump gives it. */
  function EndpointPayload(request: MetricRequest): (p: Payload)
    ensures p.JsonDict? && p.query == Some(request.query) && p.useCase == request.useCase
  {
    JsonDict(Some(request.query), request.useCase, request.constraints)
  }

  /** With the request passed as a dictionary, a miss reaches the rules and the model. */
  lemma EndpointRequestsReachTheRules(request: MetricRequest, cache: map<string, Recommendation>, env: ServiceEnv)
    requires env.cacheReachable && env.writeSucceeds
    requires CacheKey(env.hashOf(EndpointPayload(request))) !in cache
    ensures Serve(EndpointPayload(request), cache, env).response == Recommend(request.query, request.useCase, env.llm)
    ensures Serve(EndpointPayload(request), cache, env).response != Fallback
  {
  }
}
