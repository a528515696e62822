/**
 * The fetch layer of the paper pipeline (src/fetch.py): the relevance filter on excluded keywords,
 * the arXiv query URL, the citation threshold filter, the day count used for citations per day,
 * and the "sort descending, keep the first k" selections of the top-cited and trending fetchers.
 * The HTTP and feed calls are not modelled: what they return is passed in as data.
 */
module ArxivFetch {
  import opened Wrappers
  import opened Strings
  import opened Ranking

  const Topics: seq<string> := [
    "large language model", "transformer", "rlhf", "multimodal LLM", "LLM reasoning",
    "LLM alignment", "retrieval augmented generation"
  ]

  const BaseUrl: string := "http://export.arxiv.org/api/query?"

  const ArxivCategories: seq<string> := ["cs.CL", "cs.LG", "cs.AI", "stat.ML"]

  const ExcludeKeywords: seq<string> := ["3d", "point cloud", "rgb-d", "reconstruction", "scene", "geometry"]

  /** Papers kept per topic by the top-cited fetcher, and overall. */
  const TopPerTopic: nat := 2
  const TopCitedOverall: nat := 10

  /** Papers enriched with citation data per topic, and trending papers returned overall. */
  const EnrichedPerTopic: nat := 10
  const TrendingOverall: nat := 15

  /** Microseconds in a day: `timedelta.days` counts whole days. */
  const MicrosPerDay: int := 86_400_000_000

  /**
   * A paper record (a Python dict). Keys the code sets only on some paths are optional:
   * `citation_count`, `trend_score` and `days_since_publication`.
   */
  datatype Paper = Paper(
    title: string,
    summary: string,
    link: string,
    pdfUrl: Option<string>,
    published: string,
    authors: seq<string>,
    topic: string,
    citationCount: Option<int>,
    trendScore: Option<real>,
    daysSincePublication: Option<int>)

  // ------------------------------------------------------------------ relevance

  /** Some keyword of `keywords` occurs in `title` or in `summary`. */
  predicate AnyExcluded(title: string, summary: string, keywords: seq<string>)
  {
    keywords != [] && (Contains(title, keywords[0]) || Contains(summary, keywords[0])
                       || AnyExcluded(title, summary, keywords[1..]))
  }

  /**
   * `is_relevant`: no excluded keyword occurs in the lower-cased title or the lower-cased summary.
   */
  function IsRelevant(p: Paper): (r: bool)
    ensures r <==> forall k :: 0 <= k < |ExcludeKeywords| ==>
      !Contains(Lower(p.title), ExcludeKeywords[k]) && !Contains(Lower(p.summary), ExcludeKeywords[k])
  {
    AnyExcludedSpec(Lower(p.title), Lower(p.summary), ExcludeKeywords);
    !AnyExcluded(Lower(p.title), Lower(p.summary), ExcludeKeywords)
  }

  lemma {:induction false} AnyExcludedSpec(title: string, summary: string, keywords: seq<string>)
    ensures AnyExcluded(title, summary, keywords) <==>
      exists k :: 0 <= k < |keywords| && (Contains(title, keywords[k]) || Contains(summary, keywords[k]))
    decreases |keywords|
  {
    if keywords != [] {
      AnyExcludedSpec(title, summary, keywords[1..]);
      if !(Contains(title, keywords[0]) || Contains(summary, keywords[0])) {
        if exists k :: 0 <= k < |keywords| && (Contains(title, keywords[k]) || Contains(summary, keywords[k])) {
          var k :| 0 <= k < |keywords| && (Contains(title, keywords[k]) || Contains(summary, keywords[k]));
          assert keywords[1..][k - 1] == keywords[k];
        }
      }
    }
  }

  /**
   * The match ignores ASCII letter case: a title holding any spelling of an excluded keyword
   * (say "3D" or "Point Cloud") makes the paper irrelevant.
   */
  lemma IsRelevantCaseInsensitive(p: Paper, k: nat, spelling: string, i: nat)
    requires k < |ExcludeKeywords| && Lower(spelling) == ExcludeKeywords[k]
    requires ContainsAt(p.title, spelling, i)
    ensures !IsRelevant(p)
  {
    LowerSlice(p.title, i, i + |spelling|);
    assert ContainsAt(Lower(p.title), ExcludeKeywords[k], i);
  }

  /** Lower-casing the fields first does not change the verdict. */
  lemma IsRelevantOfLowered(p: Paper)
    ensures IsRelevant(p.(title := Lower(p.title), summary := Lower(p.summary))) == IsRelevant(p)
  {
    LowerIdempotent(p.title);
    LowerIdempotent(p.summary);
  }

  // ------------------------------------------------------------------ query

  /** `f"ti:{kw.replace(' ', '+')}"`. */
  function TitleTerm(kw: string): string
  {
    "ti:" + Replace(kw, " ", "+")
  }

  /** `f"cat:{cat}"`. */
  function CategoryTerm(cat: string): string
  {
    "cat:" + cat
  }

  function TitleTerms(kws: seq<string>): (r: seq<string>)
    ensures |r| == |kws| && forall i :: 0 <= i < |kws| ==> r[i] == TitleTerm(kws[i])
  {
    seq(|kws|, i requires 0 <= i < |kws| => TitleTerm(kws[i]))
  }

  function CategoryTerms(cats: seq<string>): (r: seq<string>)
    ensures |r| == |cats| && forall i :: 0 <= i < |cats| ==> r[i] == CategoryTerm(cats[i])
  {
    seq(|cats|, i requires 0 <= i < |cats| => CategoryTerm(cats[i]))
  }

  const OrSep: string := "+OR+"
  const SearchOpen: string := "search_query=("
  const AndSep: string := ")+AND+("
  const SortParams: string := ")&sortBy=submittedDate&sortOrder=descending"
  const MaxResultsParam: string := "&max_results="

  /** `build_query(title_keywords, categories, max_results)`. */
  function BuildQuery(kws: seq<string>, cats: seq<string>, maxResults: int): (r: string)
    ensures StartsWith(r, BaseUrl + SearchOpen)
    ensures EndsWith(r, MaxResultsParam + IntString(maxResults))
  {
    var topicPart := Join(TitleTerms(kws), OrSep);
    var categoryPart := Join(CategoryTerms(cats), OrSep);
    var head := BaseUrl + SearchOpen;
    var middle := topicPart + AndSep + categoryPart + SortParams;
    var tail := MaxResultsParam + IntString(maxResults);
    FramedBy(head, middle, tail);
    head + middle + tail
  }

  /** A title term holds no space, and no `'O'` or `')'` unless the keyword has one. */
  lemma TitleTermChars(kw: string)
    ensures ' ' !in TitleTerm(kw)
    ensures 'O' !in kw ==> 'O' !in TitleTerm(kw)
    ensures ')' !in kw ==> ')' !in TitleTerm(kw)
  {
    ReplaceChar(kw, ' ', '+');
  }

  /** The keyword is recovered from its title term by turning `+` back into spaces. */
  lemma KeywordOfTitleTerm(kw: string)
    requires '+' !in kw
    ensures TitleTerm(kw)[..3] == "ti:"
    ensures Replace(TitleTerm(kw)[3..], "+", " ") == kw
  {
    var m := Replace(kw, " ", "+");
    ReplaceChar(kw, ' ', '+');
    ReplaceChar(m, '+', ' ');
    assert TitleTerm(kw)[3..] == m;
  }

  /**
   * The topic part of the query splits on `+OR+` back into one `ti:` term per keyword, in order,
   * as long as the keywords hold no capital `O`.
   */
  lemma TopicPartTerms(kws: seq<string>)
    requires |kws| >= 1
    requires forall i :: 0 <= i < |kws| ==> 'O' !in kws[i]
    ensures Split(Join(TitleTerms(kws), OrSep), OrSep) == TitleTerms(kws)
    ensures ' ' !in Join(TitleTerms(kws), OrSep)
  {
    var ts := TitleTerms(kws);
    forall i | 0 <= i < |ts| ensures !Contains(ts[i], OrSep) && NoStraddle(ts[i], OrSep) && ' ' !in ts[i] {
      TitleTermChars(kws[i]);
      if Contains(ts[i], OrSep) {
        ContainsChars(ts[i], OrSep, 1);
      }
      NoStraddleSecondChar(ts[i], OrSep);
    }
    SplitOfJoin(ts, OrSep);
    JoinCharAbsent(ts, OrSep, ' ');
  }

  /** The same for the category part: one `cat:` term per category. */
  lemma CategoryPartTerms(cats: seq<string>)
    requires |cats| >= 1
    requires forall i :: 0 <= i < |cats| ==> 'O' !in cats[i]
    ensures Split(Join(CategoryTerms(cats), OrSep), OrSep) == CategoryTerms(cats)
  {
    var ts := CategoryTerms(cats);
    forall i | 0 <= i < |ts| ensures !Contains(ts[i], OrSep) && NoStraddle(ts[i], OrSep) {
      assert 'O' !in ts[i];
      if Contains(ts[i], OrSep) {
        ContainsChars(ts[i], OrSep, 1);
      }
      NoStraddleSecondChar(ts[i], OrSep);
    }
    SplitOfJoin(ts, OrSep);
  }

  /** The query text after `search_query=(`, cut at every `)`. */
  function QueryGroups(q: string): (r: seq<string>)
    ensures |r| >= 1
  {
    if StartsWith(q, BaseUrl + SearchOpen) then Split(q[|BaseUrl + SearchOpen|..], ")") else [q]
  }

  /** `t` without its first `n` characters (nothing when it is shorter). */
  function DropFirst(t: string, n: nat): (r: string)
    ensures n <= |t| ==> t == t[..n] + r
  {
    if n <= |t| then t[n..] else []
  }

  /** The keywords read back out of a query: the `ti:` terms of the first group, `+` made a space again. */
  function QueryKeywords(q: string): (r: seq<string>)
  {
    var terms := Split(QueryGroups(q)[0], OrSep);
    seq(|terms|, i requires 0 <= i < |terms| => Replace(DropFirst(terms[i], 3), "+", " "))
  }

  /** The categories read back out of a query: the `cat:` terms of the second group, after `+AND+(`. */
  function QueryCategories(q: string): (r: seq<string>)
  {
    var groups := QueryGroups(q);
    if |groups| < 2 then []
    else
      var terms := Split(DropFirst(groups[1], |AndSep| - 1), OrSep);
      seq(|terms|, i requires 0 <= i < |terms| => DropFirst(terms[i], 4))
  }

  /**
   * The query is `search_query=(<topic part>)+AND+(<category part>)` followed by the sort and
   * count parameters: cut at each `)`, its first group is the topic part and its second is
   * `+AND+(` and the category part, as long as no keyword or category holds a `)`.
   */
  lemma QueryParts(kws: seq<string>, cats: seq<string>, maxResults: int)
    requires forall i :: 0 <= i < |kws| ==> ')' !in kws[i]
    requires forall i :: 0 <= i < |cats| ==> ')' !in cats[i]
    ensures var groups := QueryGroups(BuildQuery(kws, cats, maxResults));
      |groups| >= 2 && groups[0] == Join(TitleTerms(kws), OrSep)
      && groups[1] == AndSep[1..] + Join(CategoryTerms(cats), OrSep)
  {
    var topicPart := Join(TitleTerms(kws), OrSep);
    var categoryPart := Join(CategoryTerms(cats), OrSep);
    var head := BaseUrl + SearchOpen;
    var tail := MaxResultsParam + IntString(maxResults);
    var q := BuildQuery(kws, cats, maxResults);
    forall i | 0 <= i < |kws| ensures ')' !in TitleTerms(kws)[i] {
      TitleTermChars(kws[i]);
    }
    JoinCharAbsent(TitleTerms(kws), OrSep, ')');
    JoinCharAbsent(CategoryTerms(cats), OrSep, ')');
    var body := AndSep[1..] + categoryPart;
    var post := SortParams[1..] + tail;
    assert q == head + (topicPart + AndSep + categoryPart + SortParams) + tail;
    RegroupQuery(head, topicPart, AndSep, categoryPart, SortParams, tail);
    SplitTwoGroups(topicPart, ')', body, post);
  }

  /** Cutting the opening `)` off the separator and the sort parameters. */
  lemma RegroupQuery(head: string, topicPart: string, andSep: string, categoryPart: string, sortParams: string, tail: string)
    requires |andSep| >= 1 && andSep[0] == ')' && |sortParams| >= 1 && sortParams[0] == ')'
    ensures (head + (topicPart + andSep + categoryPart + sortParams) + tail)[|head|..]
      == topicPart + [')'] + (andSep[1..] + categoryPart) + [')'] + (sortParams[1..] + tail)
  {
    assert andSep == [')'] + andSep[1..];
    assert sortParams == [')'] + sortParams[1..];
    calc {
      (head + (topicPart + andSep + categoryPart + sortParams) + tail)[|head|..];
      topicPart + andSep + categoryPart + sortParams + tail;
      topicPart + ([')'] + andSep[1..]) + categoryPart + ([')'] + sortParams[1..]) + tail;
      topicPart + [')'] + (andSep[1..] + categoryPart) + [')'] + (sortParams[1..] + tail);
    }
  }

  /**
   * Reading a query back gives the keywords and categories it was built from, for keywords
   * without `O`, `+` or `)` and categories without `O` or `)` (every topic and category the
   * fetcher uses is such).
   */
  lemma BuildQueryRoundTrip(kws: seq<string>, cats: seq<string>, maxResults: int)
    requires |kws| >= 1 && |cats| >= 1
    requires forall i :: 0 <= i < |kws| ==> 'O' !in kws[i] && '+' !in kws[i] && ')' !in kws[i]
    requires forall i :: 0 <= i < |cats| ==> 'O' !in cats[i] && ')' !in cats[i]
    ensures QueryKeywords(BuildQuery(kws, cats, maxResults)) == kws
    ensures QueryCategories(BuildQuery(kws, cats, maxResults)) == cats
  {
    var q := BuildQuery(kws, cats, maxResults);
    QueryParts(kws, cats, maxResults);
    var groups := QueryGroups(q);
    TopicPartTerms(kws);
    var ts := Split(groups[0], OrSep);
    assert ts == TitleTerms(kws);
    forall i | 0 <= i < |kws| ensures Replace(DropFirst(ts[i], 3), "+", " ") == kws[i] {
      KeywordOfTitleTerm(kws[i]);
    }
    CategoryPartTerms(cats);
    assert DropFirst(groups[1], |AndSep| - 1) == Join(CategoryTerms(cats), OrSep);
    var cs := Split(DropFirst(groups[1], |AndSep| - 1), OrSep);
    assert cs == CategoryTerms(cats);
    forall i | 0 <= i < |cats| ensures DropFirst(cs[i], 4) == cats[i] {
      assert cs[i] == "cat:" + cats[i];
    }
  }

  // ------------------------------------------------------------------ citation filter

  /** `paper.get('citation_count', 0)`. */
  function Citations(p: Paper): int
  {
    p.citationCount.GetOr(0)
  }

  /** `a` is `b` with some records left out, the rest in their order. */
  predicate IsSubsequence<T(==)>(a: seq<T>, b: seq<T>)
    decreases |b|
  {
    if a == [] then true
    else if b == [] then false
    else (a[0] == b[0] && IsSubsequence(a[1..], b[1..])) || IsSubsequence(a, b[1..])
  }

  /**
   * `filter_high_impact_papers`: in their order, exactly the papers whose citation count
   * (0 when absent) is at least `minCitations`.
   */
  function FilterHighImpact(papers: seq<Paper>, minCitations: int): (r: seq<Paper>)
    ensures |r| <= |papers|
  {
    if papers == [] then []
    else
      var rest := FilterHighImpact(papers[1..], minCitations);
      if Citations(papers[0]) >= minCitations then [papers[0]] + rest else rest
  }

  /**
   * The filter keeps the input order, keeps every paper that reaches the threshold and no
   * other, and invents nothing.
   */
  lemma {:induction false} FilterHighImpactSpec(papers: seq<Paper>, m: int)
    ensures var r := FilterHighImpact(papers, m);
      IsSubsequence(r, papers)
      && (forall i :: 0 <= i < |r| ==> Citations(r[i]) >= m)
      && (forall i :: 0 <= i < |papers| && Citations(papers[i]) >= m ==> papers[i] in r)
      && multiset(r) <= multiset(papers)
    decreases |papers|
  {
    if papers != [] {
      var p0, tail := papers[0], papers[1..];
      var r, rest := FilterHighImpact(papers, m), FilterHighImpact(tail, m);
      FilterHighImpactSpec(tail, m);
      assert papers == [p0] + tail;
      if Citations(p0) >= m {
        assert r == [p0] + rest;
        assert r[0] == p0 && r[1..] == rest;
        forall i | 0 <= i < |r| ensures Citations(r[i]) >= m {
          if i > 0 {
            assert r[i] == rest[i - 1];
          }
        }
      } else {
        assert r == rest;
        assert IsSubsequence(r, papers) by {
          if r != [] {
            assert IsSubsequence(r, papers[1..]);
          }
        }
      }
      forall i | 0 <= i < |papers| && Citations(papers[i]) >= m ensures papers[i] in r {
        if i > 0 {
          assert papers[i] == tail[i - 1];
        }
      }
    }
  }

  /** A paper that reaches the threshold is kept as often as it occurs; any other paper never. */
  lemma {:induction false} FilterHighImpactCounts(papers: seq<Paper>, m: int)
    ensures forall q :: multiset(FilterHighImpact(papers, m))[q] == if Citations(q) >= m then multiset(papers)[q] else 0
    decreases |papers|
  {
    if papers != [] {
      var p0, tail := papers[0], papers[1..];
      FilterHighImpactCounts(tail, m);
      assert papers == [p0] + tail;
      FilterCons(p0, tail, m);
      assert multiset(papers) == multiset{p0} + multiset(tail);
    }
  }

  /** Filtering twice with the same threshold is filtering once. */
  lemma {:induction false} FilterHighImpactIdempotent(papers: seq<Paper>, m: int)
    ensures FilterHighImpact(FilterHighImpact(papers, m), m) == FilterHighImpact(papers, m)
    decreases |papers|
  {
    if papers != [] {
      var p0, tail := papers[0], papers[1..];
      var rest := FilterHighImpact(tail, m);
      FilterHighImpactIdempotent(tail, m);
      assert papers == [p0] + tail;
      FilterCons(p0, tail, m);
      if Citations(p0) >= m {
        FilterCons(p0, rest, m);
      }
    }
  }

  /** Two thresholds in a row act as the larger one. */
  lemma {:induction false} FilterHighImpactCompose(papers: seq<Paper>, a: int, b: int)
    ensures FilterHighImpact(FilterHighImpact(papers, a), b) == FilterHighImpact(papers, if a >= b then a else b)
    decreases |papers|
  {
    if papers != [] {
      var p0, tail := papers[0], papers[1..];
      var m := if a >= b then a else b;
      var rest := FilterHighImpact(tail, a);
      FilterHighImpactCompose(tail, a, b);
      assert papers == [p0] + tail;
      FilterCons(p0, tail, a);
      FilterCons(p0, tail, m);
      if Citations(p0) >= a {
        FilterCons(p0, rest, b);
      }
    }
  }

  /** Filtering a list with a paper in front. */
  lemma FilterCons(x: Paper, s: seq<Paper>, m: int)
    ensures FilterHighImpact([x] + s, m) == (if Citations(x) >= m then [x] else []) + FilterHighImpact(s, m)
  {
    assert ([x] + s)[0] == x && ([x] + s)[1..] == s;
  }

  // ------------------------------------------------------------------ top-cited selection

  /** The sort key `x['citation_count']` (set on every record the top-cited fetcher builds). */
  function CitationKey(p: Paper): Key
  {
    Num(Citations(p) as real)
  }

  /** All papers of the first topics' batches, in order. */
  function Flatten(batches: seq<seq<Paper>>): seq<Paper>
  {
    if batches == [] then [] else Flatten(batches[..|batches| - 1]) + batches[|batches| - 1]
  }

  /** `all_top_papers` after the topic loop: the best `TopPerTopic` of each batch, topic by topic. */
  function PerTopicTop(batches: seq<seq<Paper>>): (r: seq<Paper>)
    ensures |r| <= TopPerTopic * |batches|
    ensures multiset(r) <= multiset(Flatten(batches))
  {
    if batches == [] then []
    else
      var init := batches[..|batches| - 1];
      var last := batches[|batches| - 1];
      PerTopicTop(init) + TopK(last, TopPerTopic, CitationKey)
  }

  /** One more topic adds its best `TopPerTopic` papers at the end. */
  lemma PerTopicTopSnoc(batches: seq<seq<Paper>>, i: nat)
    requires i < |batches|
    ensures PerTopicTop(batches[..i + 1]) == PerTopicTop(batches[..i]) + TopK(batches[i], TopPerTopic, CitationKey)
  {
    assert batches[..i + 1][..i] == batches[..i];
  }

  /**
   * The topic loop of `fetch_top_papers_semantic_scholar`: each topic's papers sorted by citation
   * count (descending, stable) and the first two of them appended, topic by topic. `batches[i]`
   * holds the search results of the i-th topic that carry an arXiv id in their `externalIds`,
   * as records (a topic whose search failed contributes an empty batch).
   */
  method CollectTopPerTopic(batches: seq<seq<Paper>>) returns (all: seq<Paper>)
    ensures all == PerTopicTop(batches)
  {
    all := [];
    var i := 0;
    while i < |batches|
      invariant 0 <= i <= |batches|
      invariant all == PerTopicTop(batches[..i])
    {
      var topicPapers := SortDesc(batches[i], CitationKey);
      var n := if TopPerTopic <= |topicPapers| then TopPerTopic else |topicPapers|;
      PerTopicTopSnoc(batches, i);
      all := all + topicPapers[..n];
      i := i + 1;
    }
    assert batches[..i] == batches;
  }

  /**
   * The selection of `fetch_top_papers_semantic_scholar`: the per-topic winners sorted the same
   * way and the first ten returned.
   */
  method SelectTopCited(batches: seq<seq<Paper>>) returns (top: seq<Paper>)
    ensures top == TopK(PerTopicTop(batches), TopCitedOverall, CitationKey)
    ensures |top| <= TopCitedOverall && SortedDesc(top, CitationKey)
    ensures multiset(top) <= multiset(Flatten(batches))
  {
    var all := CollectTopPerTopic(batches);
    var sorted := SortDesc(all, CitationKey);
    var n := if TopCitedOverall <= |sorted| then TopCitedOverall else |sorted|;
    top := sorted[..n];
  }

  // ------------------------------------------------------------------ trending selection

  /**
   * `max(1, (now - pub_date).days)` with both instants in microseconds: whole days elapsed,
   * rounded down, and never less than one.
   */
  function DaysSincePublication(nowMicros: int, pubMicros: int): (d: int)
    ensures d >= 1
    ensures nowMicros - pubMicros >= MicrosPerDay ==> d * MicrosPerDay <= nowMicros - pubMicros < (d + 1) * MicrosPerDay
    ensures nowMicros - pubMicros < 2 * MicrosPerDay ==> d == 1
  {
    var days := (nowMicros - pubMicros) / MicrosPerDay;
    if days >= 1 then days else 1
  }

  /** A later "now" never gives fewer days. */
  lemma DaysSincePublicationMonotone(now1: int, now2: int, pub: int)
    requires now1 <= now2
    ensures DaysSincePublication(now1, pub) <= DaysSincePublication(now2, pub)
  {
    var a, b := now1 - pub, now2 - pub;
    assert a / MicrosPerDay <= b / MicrosPerDay by {
      var q1, q2 := a / MicrosPerDay, b / MicrosPerDay;
      assert q1 * MicrosPerDay <= a < (q1 + 1) * MicrosPerDay;
      assert q2 * MicrosPerDay <= b < (q2 + 1) * MicrosPerDay;
    }
  }

  /** The record built for a feed entry of the trending fetcher. */
  function FeedRecord(title: string, summary: string, link: string, pdfUrl: Option<string>, published: string,
                      authors: seq<string>, topic: string, nowMicros: int, pubMicros: int): (p: Paper)
    ensures p.daysSincePublication.Some? && p.daysSincePublication.value >= 1
    ensures p.citationCount.None? && p.trendScore.None?
  {
    Paper(title, summary, link, pdfUrl, published, authors, topic, None, None,
          Some(DaysSincePublication(nowMicros, pubMicros)))
  }

  /** Every record carries a day count of at least one, as `FeedRecord` builds them. */
  predicate HasDays(papers: seq<Paper>)
  {
    forall i :: 0 <= i < |papers| ==> papers[i].daysSincePublication.Some? && papers[i].daysSincePublication.value >= 1
  }

  /**
   * The citation data for one record: `Some(c)` when the Semantic Scholar lookup answered with
   * status 200 and citation count `c`, `None` when it failed. Citations per day is `c / days`.
   */
  function WithCitations(p: Paper, lookup: Option<int>): (q: Paper)
    requires p.daysSincePublication.Some? && p.daysSincePublication.value >= 1
  {
    match lookup
    case Some(c) => p.(citationCount := Some(c), trendScore := Some(c as real / p.daysSincePublication.value as real))
    case None => p.(citationCount := Some(0), trendScore := Some(0.0))
  }

  /** A topic's records after enrichment: the first ten get citation data, the rest are untouched. */
  function Enriched(papers: seq<Paper>, lookups: seq<Option<int>>): (r: seq<Paper>)
    requires HasDays(papers) && |lookups| == |papers|
    ensures |r| == |papers|
  {
    seq(|papers|, i requires 0 <= i < |papers| =>
      if i < EnrichedPerTopic then WithCitations(papers[i], lookups[i]) else papers[i])
  }

  /**
   * The enrichment loop of `fetch_trending_papers_fortnight`, which updates the first ten records
   * of a topic in place; `lookups[i]` is the answer for the i-th record.
   */
  method EnrichTopic(papers: seq<Paper>, lookups: seq<Option<int>>) returns (r: seq<Paper>)
    requires HasDays(papers) && |lookups| == |papers|
    ensures r == Enriched(papers, lookups)
    ensures forall i :: 0 <= i < |r| ==> (r[i].trendScore.Some? <==> i < EnrichedPerTopic || papers[i].trendScore.Some?)
  {
    r := papers;
    var n := if EnrichedPerTopic <= |papers| then EnrichedPerTopic else |papers|;
    var i := 0;
    while i < n
      invariant 0 <= i <= n && |r| == |papers|
      invariant forall j :: 0 <= j < i ==> r[j] == WithCitations(papers[j], lookups[j])
      invariant forall j :: i <= j < |r| ==> r[j] == papers[j]
    {
      r := r[i := WithCitations(r[i], lookups[i])];
      i := i + 1;
    }
  }

  /** `all_trending_papers` after the topic loop. */
  function AllTrending(batches: seq<seq<Paper>>, lookups: seq<seq<Option<int>>>): (r: seq<Paper>)
    requires |lookups| == |batches|
    requires forall t :: 0 <= t < |batches| ==> HasDays(batches[t]) && |lookups[t]| == |batches[t]|
  {
    if batches == [] then []
    else
      var n := |batches| - 1;
      AllTrending(batches[..n], lookups[..n]) + Enriched(batches[n], lookups[n])
  }

  /** The sort key `x['trend_score']`. */
  function TrendKey(p: Paper): Key
    requires p.trendScore.Some?
  {
    Num(p.trendScore.value)
  }

  /** The same key with a missing score read as 0, as `x.get('trend_score', 0)` would. */
  function TrendKeyOrZero(p: Paper): Key
  {
    Num(p.trendScore.GetOr(0.0))
  }

  /**
   * The selection at the end of `fetch_trending_papers_fortnight` as written: sorting by
   * `x['trend_score']` raises `KeyError` (here `None`) as soon as one record has no score,
   * which is every record after the tenth of a topic.
   */
  function TrendingAsWritten(all: seq<Paper>): (r: Option<seq<Paper>>)
    ensures r.None? <==> exists i :: 0 <= i < |all| && all[i].trendScore.None?
  {
    if forall i :: 0 <= i < |all| ==> all[i].trendScore.Some? then Some(TopK(all, TrendingOverall, TrendKeyOrZero))
    else None
  }

  /** The intended selection: the fifteen records with the most citations per day, a missing score counting as 0. */
  function TrendSelection(all: seq<Paper>): (r: seq<Paper>)
    ensures |r| == if TrendingOverall <= |all| then TrendingOverall else |all|
    ensures SortedDesc(r, TrendKeyOrZero) && multiset(r) <= multiset(all)
  {
    TopK(all, TrendingOverall, TrendKeyOrZero)
  }

  /** Where the written selection does not fail, the intended one agrees with it. */
  lemma TrendSelectionAgrees(all: seq<Paper>)
    requires TrendingAsWritten(all).Some?
    ensures TrendingAsWritten(all).value == TrendSelection(all)
    ensures forall i :: 0 <= i < |all| ==> TrendKeyOrZero(all[i]) == TrendKey(all[i])
  {
  }

  /** A topic batch of eleven records makes the written selection fail, whatever the lookups say. */
  lemma TrendingAsWrittenFailsOnEleven(batch: seq<Paper>, lookups: seq<Option<int>>)
    requires |batch| == 11 && |lookups| == 11 && HasDays(batch)
    requires forall i :: 0 <= i < |batch| ==> batch[i].trendScore.None?
    ensures TrendingAsWritten(AllTrending([batch], [lookups])).None?
  {
    var all := AllTrending([batch], [lookups]);
    assert [batch][..0] == [] && [lookups][..0] == [];
    assert [batch][0] == batch && [lookups][0] == lookups;
    assert AllTrending([], []) == [];
    assert all == [] + Enriched(batch, lookups);
    assert all[10] == batch[10];
  }

  /**
   * The trending fetcher after the feed and lookup calls, with the corrected selection: every
   * topic's records enriched, all of them concatenated, then the fifteen with most citations per
   * day (missing scores counting as 0). As written, the final sort fails instead as soon as one
   * topic has more than ten records (`TrendingAsWritten`, `TrendingAsWrittenFailsOnEleven`).
   */
  method FetchTrending(batches: seq<seq<Paper>>, lookups: seq<seq<Option<int>>>) returns (top: seq<Paper>)
    requires |lookups| == |batches|
    requires forall t :: 0 <= t < |batches| ==> HasDays(batches[t]) && |lookups[t]| == |batches[t]|
    ensures top == TrendSelection(AllTrending(batches, lookups))
    ensures |top| <= TrendingOverall && SortedDesc(top, TrendKeyOrZero)
  {
    var all: seq<Paper> := [];
    var t := 0;
    while t < |batches|
      invariant 0 <= t <= |batches|
      invariant all == AllTrending(batches[..t], lookups[..t])
    {
      var topicPapers := EnrichTopic(batches[t], lookups[t]);
      all := all + topicPapers;
      assert batches[..t + 1][..t] == batches[..t];
      assert lookups[..t + 1][..t] == lookups[..t];
      t := t + 1;
    }
    assert batches[..t] == batches && lookups[..t] == lookups;
    var sorted := SortDesc(all, TrendKeyOrZero);
    var n := if TrendingOverall <= |sorted| then TrendingOverall else |sorted|;
    top := sorted[..n];
  }
}
