/**
 * The pure parts of src/fetch_and_notion.py around the Notion upload: the author line
 * (`format_authors`), the arXiv id taken from a paper URL (`extract_arxiv_id`), the analysis text
 * cut out of the RAG tool's output (`analyze_paper_with_rag`), and the page properties that
 * `NotionDatabase.add_paper` sends.
 */
module NotionSync {
  import opened Wrappers
  import opened Strings
  import opened RichText

  // ------------------------------------------------------------------ format_authors

  const UnknownAuthor: string := "Unknown Author"
  const AuthorSep: string := ", "
  const EtAl: string := " et al."

  /** The `max_authors` default, which `NotionDatabase.format_authors` always uses. */
  const MaxAuthors: int := 3

  /**
   * `format_authors(authors, max_authors)`: `None` stands for an absent list. Up to
   * `maxAuthors` names are joined by ", "; a longer list keeps `authors[:maxAuthors]` and adds
   * " et al.".
   */
  function FormatAuthors(authors: Option<seq<string>>, maxAuthors: int): (r: string)
    ensures authors.None? || authors.value == [] ==> r == UnknownAuthor
    ensures authors.Some? && authors.value != [] && |authors.value| > maxAuthors ==> EndsWith(r, EtAl)
  {
    if authors.None? || authors.value == [] then UnknownAuthor
    else if |authors.value| <= maxAuthors then Join(authors.value, AuthorSep)
    else
      var shown := Join(Take(authors.value, maxAuthors), AuthorSep);
      EndsWithConcat(shown, EtAl);
      shown + EtAl
  }

  /** A name that can be told apart in the author line: it holds no comma. */
  predicate CommaFree(name: string)
  {
    ',' !in name
  }

  /** A name without a comma neither contains nor runs into the ", " separator. */
  lemma CommaFreeSeparates(name: string)
    requires CommaFree(name)
    ensures !Contains(name, AuthorSep) && NoStraddle(name, AuthorSep)
  {
    if Contains(name, AuthorSep) {
      ContainsFirstChar(name, AuthorSep);
    }
    NoStraddleFirstChar(name, AuthorSep);
  }

  /** A short list is written out whole: splitting the line on ", " gives back every author. */
  lemma FormatAuthorsListsAll(authors: seq<string>, maxAuthors: int)
    requires 1 <= |authors| <= maxAuthors
    requires forall i :: 0 <= i < |authors| ==> CommaFree(authors[i])
    ensures Split(FormatAuthors(Some(authors), maxAuthors), AuthorSep) == authors
  {
    forall i | 0 <= i < |authors| ensures !Contains(authors[i], AuthorSep) && NoStraddle(authors[i], AuthorSep) {
      CommaFreeSeparates(authors[i]);
    }
    SplitOfJoin(authors, AuthorSep);
  }

  /**
   * A long list is cut after `maxAuthors` names: splitting the line on ", " gives the first
   * `maxAuthors` authors, the last of them followed by " et al.".
   */
  lemma FormatAuthorsCutsAfterMax(authors: seq<string>, maxAuthors: int)
    requires 1 <= maxAuthors < |authors|
    requires forall i :: 0 <= i < |authors| ==> CommaFree(authors[i])
    ensures Split(FormatAuthors(Some(authors), maxAuthors), AuthorSep)
      == authors[..maxAuthors - 1] + [authors[maxAuthors - 1] + EtAl]
  {
    var shown := authors[..maxAuthors];
    var pieces := shown[..|shown| - 1] + [Last(shown) + EtAl];
    JoinAppendLast(shown, AuthorSep, EtAl);
    assert shown[..|shown| - 1] == authors[..maxAuthors - 1];
    forall i | 0 <= i < |pieces| ensures !Contains(pieces[i], AuthorSep) && NoStraddle(pieces[i], AuthorSep) {
      if i < |pieces| - 1 {
        assert pieces[i] == authors[i];
      } else {
        assert pieces[i] == authors[maxAuthors - 1] + EtAl;
      }
      CommaFreeSeparates(pieces[i]);
    }
    SplitOfJoin(pieces, AuthorSep);
  }

  // ------------------------------------------------------------------ extract_arxiv_id

  /**
   * The argument of `extract_arxiv_id`: a string, `None`, or a container without `split` (a list
   * or a dict), on which the `in` test succeeds and the `split` raises `AttributeError`.
   */
  datatype UrlArg = Url(text: string) | NoUrl | NotText

  /** How a Python call ends: with a value, or with an exception that escapes it. */
  datatype Outcome = Returned(id: Option<string>) | RaisedTypeError

  const AbsMarker: string := "/abs/"
  const PdfMarker: string := "/pdf/"
  const PdfSuffix: string := ".pdf"

  /**
   * The id read off a URL string: the last piece of `url.split('/abs/')`, which ends the URL
   * right after an occurrence of "/abs/" and holds none; or else the last piece of the split on
   * "/pdf/", then of the split on "/", with every ".pdf" removed. (When occurrences overlap, as
   * in "x/abs/abs/y", the last piece is "abs/y", not the text after the last occurrence.)
   */
  function IdOfUrl(url: string): (r: string)
    ensures Contains(url, AbsMarker) ==> EndsWith(url, AbsMarker + r) && !Contains(r, AbsMarker)
  {
    if Contains(url, AbsMarker) then
      SplitLast(url, AbsMarker);
      SplitLastAfterSep(url, AbsMarker);
      Last(Split(url, AbsMarker))
    else if Contains(url, PdfMarker) then Replace(Last(Split(url, PdfMarker)), PdfSuffix, "")
    else Replace(Last(Split(url, "/")), PdfSuffix, "")
  }

  /**
   * `extract_arxiv_id` as written. Its `except (IndexError, AttributeError)` catches the missing
   * `split` of a non-string object, but `'/abs/' in None` raises `TypeError`, which escapes.
   */
  function ExtractArxivIdAsWritten(arg: UrlArg): (r: Outcome)
    ensures r.RaisedTypeError? <==> arg == NoUrl
    ensures r.Returned? ==> (r.id.Some? <==> arg.Url?)
  {
    match arg
    case Url(u) => Returned(Some(IdOfUrl(u)))
    case NoUrl => RaisedTypeError
    case NotText => Returned(None)
  }

  /** `extract_arxiv_id` with every non-string argument, `None` included, mapped to `None`. */
  function ExtractArxivId(arg: UrlArg): (r: Option<string>)
    ensures r.Some? <==> arg.Url?
    ensures arg.Url? && Contains(arg.text, AbsMarker) ==>
      EndsWith(arg.text, AbsMarker + r.value) && !Contains(r.value, AbsMarker)
  {
    if arg.Url? then Some(IdOfUrl(arg.text)) else None
  }

  /** The two agree on every argument except `None`, where the code as written raises. */
  lemma ExtractArxivIdAgrees(arg: UrlArg)
    ensures arg != NoUrl ==> ExtractArxivIdAsWritten(arg) == Returned(ExtractArxivId(arg))
    ensures ExtractArxivIdAsWritten(NoUrl) == RaisedTypeError && ExtractArxivId(NoUrl) == None
  {
  }

  /** A paper dict whose "pdf_url" is `None` (no PDF link in the feed entry) makes the call raise. */
  lemma ExtractArxivIdRaisesOnNone()
    ensures ExtractArxivIdAsWritten(NoUrl) == RaisedTypeError
    ensures ExtractArxivId(NoUrl) == None
  {
  }

  /** A new-style arXiv identifier such as `2401.12345v2`: digits, dots and the version `v`. */
  predicate NewStyleId(id: string)
  {
    forall i :: 0 <= i < |id| ==> ('0' <= id[i] <= '9') || id[i] == '.' || id[i] == 'v'
  }

  /** The two sites the repository's URLs are written against. */
  predicate ArxivSite(site: string)
  {
    site == "http://arxiv.org" || site == "https://arxiv.org"
  }

  lemma ArxivSiteNoStraddle(site: string, marker: string)
    requires ArxivSite(site) && |marker| == 5 && marker[0] == '/'
    ensures NoStraddle(site, marker)
  {
    assert site[|site| - 4..] == ".org";
    forall j | |site| - 4 <= j < |site| ensures site[j] != '/' {
      assert site[j] == site[|site| - 4..][j - (|site| - 4)];
    }
    NoStraddleFirstChar(site, marker);
  }

  /** An abstract-page URL gives back its identifier. */
  lemma AbsUrlRoundTrip(site: string, id: string)
    requires ArxivSite(site) && NewStyleId(id)
    ensures ExtractArxivId(Url(site + AbsMarker + id)) == Some(id)
  {
    var u := site + AbsMarker + id;
    assert u[|site|..|site| + |AbsMarker|] == AbsMarker;
    assert ContainsAt(u, AbsMarker, |site|);
    if Contains(id, AbsMarker) {
      ContainsFirstChar(id, AbsMarker);
    }
    ArxivSiteNoStraddle(site, AbsMarker);
    SplitLastAfter(site, AbsMarker, id);
  }

  /** Removing ".pdf" from `id + ext`, where `ext` is ".pdf" or nothing, leaves `id`. */
  lemma DropPdfSuffix(id: string, ext: string)
    requires NewStyleId(id) && (ext == PdfSuffix || ext == [])
    ensures Replace(id + ext, PdfSuffix, "") == id
  {
    if Contains(id, PdfSuffix) {
      ContainsChars(id, PdfSuffix, 1);
    }
    ReplaceAbsent(id, PdfSuffix, "");
    if ext == PdfSuffix {
      NoStraddleSecondChar(id, PdfSuffix);
      ReplaceConcat(id, PdfSuffix, "", []);
      assert id + ext == id + PdfSuffix + [];
    } else {
      assert id + ext == id;
    }
  }

  /** A PDF URL, with or without the ".pdf" ending, gives back its identifier. */
  lemma PdfUrlRoundTrip(site: string, id: string, ext: string)
    requires ArxivSite(site) && NewStyleId(id) && (ext == PdfSuffix || ext == [])
    ensures ExtractArxivId(Url(site + PdfMarker + id + ext)) == Some(id)
  {
    var head, tail := site + PdfMarker, id + ext;
    var u := site + PdfMarker + id + ext;
    assert u == head + tail && u == site + PdfMarker + tail;
    assert '/' !in tail;
    assert !Contains(u, AbsMarker) by {
      if Contains(head, AbsMarker) {
        ContainsChars(head, AbsMarker, 2);
      }
      ContainsOnlyBefore(head, tail, AbsMarker);
    }
    assert Contains(u, PdfMarker) by {
      assert u[|site|..|site| + |PdfMarker|] == PdfMarker;
      assert ContainsAt(u, PdfMarker, |site|);
    }
    assert Last(Split(u, PdfMarker)) == tail by {
      if Contains(tail, PdfMarker) {
        ContainsFirstChar(tail, PdfMarker);
      }
      ArxivSiteNoStraddle(site, PdfMarker);
      SplitLastAfter(site, PdfMarker, tail);
    }
    DropPdfSuffix(id, ext);
    assert IdOfUrl(u) == id;
  }

  /** A bare identifier is its own id. */
  lemma BareIdRoundTrip(id: string)
    requires NewStyleId(id)
    ensures ExtractArxivId(Url(id)) == Some(id)
  {
    if Contains(id, AbsMarker) {
      ContainsFirstChar(id, AbsMarker);
    }
    if Contains(id, PdfMarker) {
      ContainsFirstChar(id, PdfMarker);
    }
    if Contains(id, "/") {
      ContainsFirstChar(id, "/");
    }
    SplitAbsent(id, "/");
    DropPdfSuffix(id, []);
    assert id + [] == id;
  }

  // ------------------------------------------------------------------ analysis extraction

  /** The separator line the RAG tool prints around its answer: sixty `=`. */
  const Marker: string := Rule(60)

  /** A line of `n` equals signs, `"=" * n`. */
  function Rule(n: nat): (r: string)
    ensures |r| == n && forall i :: 0 <= i < n ==> r[i] == '='
  {
    if n == 0 then [] else "=" + Rule(n - 1)
  }
  const Generating: string := "Generating response..."

  /**
   * The analysis cut out of the tool's output: the stripped text after the first separator
   * (up to the second one, if any); when that is empty, the stripped text after the last
   * "Generating response..."; when that is empty too, the whole output as it is.
   */
  function ExtractAnalysis(output: string): (r: string)
    ensures r == [] <==> output == []
    ensures r == output || (r != [] && IsStripped(r))
  {
    var between :=
      if Contains(output, Marker) then
        var parts := Split(output, Marker);
        if |parts| >= 2 then Strip(parts[1]) else []
      else [];
    var analysis :=
      if between == [] && Contains(output, Generating) then Strip(Last(Split(output, Generating)))
      else between;
    if analysis == [] then output else analysis
  }

  /** When the text after the first separator strips to something, that is the analysis. */
  lemma AnalysisOfSecondPart(output: string)
    requires |Split(output, Marker)| >= 2 && Strip(Split(output, Marker)[1]) != []
    ensures ExtractAnalysis(output) == Strip(Split(output, Marker)[1])
  {
    SplitSingle(output, Marker);
  }

  /** The answer between two separators is the analysis, whatever follows the second one. */
  lemma AnalysisBetweenMarkers(pre: string, body: string, post: string)
    requires !Contains(pre, Marker) && NoStraddle(pre, Marker)
    requires !Contains(body, Marker) && NoStraddle(body, Marker) && Strip(body) != []
    ensures ExtractAnalysis(pre + Marker + body + Marker + post) == Strip(body)
  {
    SplitBetween(pre, Marker, body, post);
    AnalysisOfSecondPart(pre + Marker + body + Marker + post);
  }

  /** The answer after the only separator is the analysis. */
  lemma AnalysisAfterOnlyMarker(pre: string, body: string)
    requires !Contains(pre, Marker) && NoStraddle(pre, Marker)
    requires !Contains(body, Marker) && Strip(body) != []
    ensures ExtractAnalysis(pre + Marker + body) == Strip(body)
  {
    SplitOnce(pre, Marker, body);
    AnalysisOfSecondPart(pre + Marker + body);
  }

  /**
   * When a separator occurs but the text after it strips to nothing, the stripped text after the
   * last "Generating response..." is the analysis if there is such a marker and the text is not
   * blank; otherwise the output is kept whole.
   */
  lemma AnalysisBlankAnswer(output: string)
    requires |Split(output, Marker)| >= 2 && Strip(Split(output, Marker)[1]) == []
    ensures Contains(output, Generating) && Strip(Last(Split(output, Generating))) != [] ==>
      ExtractAnalysis(output) == Strip(Last(Split(output, Generating)))
    ensures !Contains(output, Generating) || Strip(Last(Split(output, Generating))) == [] ==>
      ExtractAnalysis(output) == output
  {
    SplitSingle(output, Marker);
  }

  /** Without a separator, the text after the last "Generating response..." is the analysis. */
  lemma AnalysisAfterGenerating(x: string, t: string)
    requires !Contains(x + Generating + t, Marker)
    requires !Contains(t, Generating) && NoStraddle(x, Generating) && Strip(t) != []
    ensures ExtractAnalysis(x + Generating + t) == Strip(t)
  {
    var output := x + Generating + t;
    assert output[|x|..|x| + |Generating|] == Generating;
    assert ContainsAt(output, Generating, |x|);
    SplitLastAfter(x, Generating, t);
  }

  /** An output with neither a separator nor "Generating response..." is kept whole. */
  lemma AnalysisRawOutput(output: string)
    requires !Contains(output, Marker) && !Contains(output, Generating)
    ensures ExtractAnalysis(output) == output
  {
  }

  // ------------------------------------------------------------------ add_paper's properties

  /**
   * The dict `add_paper` receives; `None` is a missing key (for "authors", "pdf_url" and
   * "summary" a `None` value leads to the same page as a missing key).
   */
  datatype PaperData = PaperData(
    title: Option<string>,
    authors: Option<seq<string>>,
    topic: Option<string>,
    pdfUrl: Option<string>,
    arxivId: Option<string>,
    summary: Option<string>)

  /** The page properties `add_paper` sends; `pdfUrl` is `None` when "PDF Url" is left out. */
  datatype Properties = Properties(
    title: string,
    topic: string,
    arxivId: string,
    summary: seq<Segment>,
    status: string,
    created: string,
    authors: string,
    pdfUrl: Option<string>)

  const TitleLimit: int := 2000
  const TopicLimit: int := 100
  const DefaultTitle: string := "Untitled"
  const DefaultTopic: string := "General"
  const ToRead: string := "To Read"
  const HttpScheme: string := "http://"
  const HttpsScheme: string := "https://"

  /** The "PDF Url" property: only a non-empty URL with an http or https scheme is sent. */
  function CheckedPdfUrl(url: Option<string>): (r: Option<string>)
    ensures r.Some? <==> url.Some? && url.value != [] && (StartsWith(url.value, HttpScheme) || StartsWith(url.value, HttpsScheme))
    ensures r.Some? ==> r == url
  {
    var u := url.GetOr("");
    var kept := if u != [] && !(StartsWith(u, HttpScheme) || StartsWith(u, HttpsScheme)) then "" else u;
    if kept != [] then Some(kept) else None
  }

  /**
   * The properties of the new page, `now` standing for `datetime.now().isoformat()`. The title
   * and the topic are cut to Notion's limits; the summary is the markdown converted to rich
   * text; the status is always "To Read".
   */
  function BuildProperties(data: PaperData, now: string): (r: Properties)
    ensures StartsWith(data.title.GetOr(DefaultTitle), r.title) && |r.title| == Min(|data.title.GetOr(DefaultTitle)|, TitleLimit)
    ensures StartsWith(data.topic.GetOr(DefaultTopic), r.topic) && |r.topic| == Min(|data.topic.GetOr(DefaultTopic)|, TopicLimit)
    ensures r.status == ToRead && r.created == now
    ensures r.summary != [] && AllWellFormed(r.summary)
    ensures data.summary.Some? && data.summary.value != [] ==> Render(r.summary) == data.summary.value
    ensures r.pdfUrl.Some? ==> StartsWith(r.pdfUrl.value, HttpScheme) || StartsWith(r.pdfUrl.value, HttpsScheme)
  {
    var summary := MarkdownToRichText(data.summary.GetOr(Pending));
    MarkdownRoundTrip(data.summary.GetOr(Pending));
    MarkdownWellFormed(data.summary.GetOr(Pending));
    Properties(
      Take(data.title.GetOr(DefaultTitle), TitleLimit),
      Take(data.topic.GetOr(DefaultTopic), TopicLimit),
      data.arxivId.GetOr(""),
      summary,
      ToRead,
      now,
      FormatAuthors(Some(data.authors.GetOr([UnknownAuthor])), MaxAuthors),
      CheckedPdfUrl(data.pdfUrl))
  }

  function Min(a: int, b: int): int
  {
    if a <= b then a else b
  }

  /** A dict with none of the optional keys gets the defaults. */
  lemma BuildPropertiesDefaults(now: string)
    ensures var r := BuildProperties(PaperData(None, None, None, None, None, None), now);
      r.title == DefaultTitle && r.topic == DefaultTopic && r.arxivId == ""
      && r.authors == UnknownAuthor && r.summary == [Plain(Pending)] && r.pdfUrl.None?
  {
    PlainText(Pending);
  }
}
