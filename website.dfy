/**
 * src/notion_to_website.py: a Notion page read back into the paper record the website shows
 * (`NotionToWebsite.parse_paper`), and the feed written out by `generate_papers_json`: the
 * records newest first with a little metadata.
 */
module WebsiteFeed {
  import opened Wrappers
  import opened Strings
  import opened Ranking

  // ------------------------------------------------------------------ pages and records

  /**
   * The parts of a Notion page `parse_paper` reads. A rich-text property is the list of its
   * runs' `plain_text`; a select is its `name`, `None` when the select is absent, empty or has no
   * name; "PDF Url" and "Created" are `None` when absent. `id` is `None` when the page has none.
   */
  datatype Page = Page(
    id: Option<string>,
    url: Option<string>,
    title: seq<string>,
    arxivId: seq<string>,
    topic: Option<string>,
    status: Option<string>,
    summary: seq<string>,
    pdfUrl: Option<string>,
    created: Option<string>,
    authors: seq<string>)

  /** The dict `parse_paper` returns for one paper. */
  datatype PaperRecord = PaperRecord(
    id: string,
    title: string,
    authors: seq<string>,
    summary: string,
    topic: string,
    status: string,
    date: string,
    arxivId: string,
    pdfUrl: string,
    notionUrl: string)

  const UnknownAuthor: string := "Unknown Author"
  const DefaultTopic: string := "General"
  const DefaultStatus: string := "To Read"
  const NoSummary: string := "No summary available."
  const LineBreak: string := "\n"
  const ParagraphSep: string := "\n\n"
  const WordSep: string := " "

  /** `"".join(text.get("plain_text", "") for text in runs)`. */
  function PlainText(runs: seq<string>): string
  {
    Join(runs, "")
  }

  // ------------------------------------------------------------------ authors

  /** `[a.strip() for a in pieces if a.strip()]`. */
  function StrippedPieces(pieces: seq<string>): (r: seq<string>)
    ensures |r| <= |pieces|
  {
    if pieces == [] then []
    else
      var rest := StrippedPieces(pieces[1..]);
      if Strip(pieces[0]) != [] then [Strip(pieces[0])] + rest else rest
  }

  /** A non-empty stripped string. */
  predicate CleanPiece(s: string)
  {
    s != [] && IsStripped(s)
  }

  /** The kept pieces are non-empty and stripped. */
  lemma {:induction false} StrippedPiecesClean(pieces: seq<string>)
    ensures forall k :: 0 <= k < |StrippedPieces(pieces)| ==> CleanPiece(StrippedPieces(pieces)[k])
    decreases |pieces|
  {
    if pieces != [] {
      var r, rest := StrippedPieces(pieces), StrippedPieces(pieces[1..]);
      StrippedPiecesClean(pieces[1..]);
      if Strip(pieces[0]) != [] {
        assert r == [Strip(pieces[0])] + rest;
        forall k | 0 <= k < |r| ensures CleanPiece(r[k]) {
          if k > 0 {
            assert r[k] == rest[k - 1];
          }
        }
      } else {
        assert r == rest;
      }
    }
  }

  /** A character absent from `s` is absent from `s.strip()`. */
  lemma StripCharFree(s: string, c: char)
    requires c !in s
    ensures c !in Strip(s)
  {
    var t := StripStart(s);
    var r := Strip(s);
    assert t == s[|s| - |t|..];
    assert r == StripEnd(t) == t[..|r|];
    forall i | 0 <= i < |r| ensures r[i] != c {
      assert r[i] == s[|s| - |t| + i];
    }
  }

  /** A character absent from a string and from every string of a list is absent from every string of the longer list. */
  lemma PrependCharFree(x: string, xs: seq<string>, c: char)
    requires c !in x && forall k :: 0 <= k < |xs| ==> c !in xs[k]
    ensures forall k :: 0 <= k < |[x] + xs| ==> c !in ([x] + xs)[k]
  {
    forall k | 0 <= k < |[x] + xs| ensures c !in ([x] + xs)[k] {
      if k > 0 {
        assert ([x] + xs)[k] == xs[k - 1];
      }
    }
  }

  /** A character absent from every piece is absent from every kept piece. */
  lemma {:induction false} StrippedPiecesChars(pieces: seq<string>, c: char)
    requires forall k :: 0 <= k < |pieces| ==> c !in pieces[k]
    ensures forall k :: 0 <= k < |StrippedPieces(pieces)| ==> c !in StrippedPieces(pieces)[k]
    decreases |pieces|
  {
    if pieces != [] {
      StrippedPiecesChars(pieces[1..], c);
      StripCharFree(pieces[0], c);
      PrependCharFree(Strip(pieces[0]), StrippedPieces(pieces[1..]), c);
    }
  }

  /** Pieces that are already stripped and non-empty are all kept as they are. */
  lemma {:induction false} StrippedPiecesKeepsClean(pieces: seq<string>)
    requires forall k :: 0 <= k < |pieces| ==> pieces[k] != [] && IsStripped(pieces[k])
    ensures StrippedPieces(pieces) == pieces
    decreases |pieces|
  {
    if pieces != [] {
      StripOfStripped(pieces[0]);
      StrippedPiecesKeepsClean(pieces[1..]);
    }
  }

  /** The names cut out of a non-blank "Authors" text: ";" counts as ",". */
  function AuthorNames(text: string): (r: seq<string>)
    ensures forall k :: 0 <= k < |r| ==> r[k] != [] && IsStripped(r[k])
  {
    if Strip(text) != [] then
      var pieces := Split(Replace(text, ";", ","), ",");
      StrippedPiecesClean(pieces);
      StrippedPieces(pieces)
    else []
  }

  /** No name holds a separator. */
  lemma AuthorNamesChars(text: string)
    ensures forall k :: 0 <= k < |AuthorNames(text)| ==> ',' !in AuthorNames(text)[k] && ';' !in AuthorNames(text)[k]
  {
    var unified := Replace(text, ";", ",");
    var pieces := Split(unified, ",");
    ReplaceCharRemoves(text, ';', ',');
    SplitPieceChars(unified, ",", ';');
    StrippedPiecesChars(pieces, ';');
    SplitCharFree(unified, ',');
    StrippedPiecesChars(pieces, ',');
  }

  /**
   * The "Authors" text split into names: ";" counts as ",", the text is split on ",", each
   * piece is stripped and empty ones are dropped; with no name left the list is
   * `["Unknown Author"]`.
   */
  function ParseAuthorsText(text: string): (r: seq<string>)
    ensures r != []
    ensures forall k :: 0 <= k < |r| ==> CleanName(r[k])
  {
    var names := AuthorNames(text);
    AuthorNamesChars(text);
    UnknownAuthorClean();
    if names == [] then [UnknownAuthor] else names
  }

  /** "Unknown Author" is a clean name. */
  lemma UnknownAuthorClean()
    ensures CleanName(UnknownAuthor)
  {
    assert UnknownAuthor[0] == 'U' && UnknownAuthor[|UnknownAuthor| - 1] == 'r';
  }

  /** A name the author line keeps as it is: non-empty, stripped, without "," or ";". */
  predicate CleanName(name: string)
  {
    name != [] && IsStripped(name) && ',' !in name && ';' !in name
  }

  /** Every name of the list is clean. */
  predicate CleanNames(names: seq<string>)
  {
    forall k :: 0 <= k < |names| ==> CleanName(names[k])
  }

  /** The names, every one after the first with the space that follows a comma in front. */
  function Spaced(names: seq<string>): (r: seq<string>)
    requires names != []
    ensures |r| == |names| && r[0] == names[0]
    ensures forall k :: 0 < k < |names| ==> r[k] == " " + names[k]
  {
    [[] + names[0]] + seq(|names| - 1, i requires 0 <= i < |names| - 1 => " " + names[i + 1])
  }

  /** "a, b, c" holds no ";" to turn into ",". */
  lemma JoinedNamesUnchanged(names: seq<string>)
    requires CleanNames(names)
    ensures Replace(Join(names, ", "), ";", ",") == Join(names, ", ")
  {
    var text := Join(names, ", ");
    JoinCharAbsent(names, ", ", ';');
    if Contains(text, ";") {
      ContainsFirstChar(text, ";");
    }
    ReplaceAbsent(text, ";", ",");
  }

  lemma SplitSpacedNames(names: seq<string>)
    requires names != [] && forall k :: 0 <= k < |names| ==> ',' !in names[k]
    ensures Split([] + Join(names, [','] + " "), [',']) == Spaced(names)
  {
    SplitJoinChar([], names, ',', " ");
  }

  /** "a, b, c" is cut into `a`, " b" and " c". */
  lemma JoinedNamesSplit(names: seq<string>)
    requires names != [] && CleanNames(names)
    ensures Split(Join(names, ", "), ",") == Spaced(names)
  {
    SplitSpacedNames(names);
    assert [','] + " " == ", ";
    assert [] + Join(names, ", ") == Join(names, ", ");
    assert [','] == ",";
  }

  /** The spaced names strip back to the names. */
  lemma SpacedStrip(names: seq<string>)
    requires names != [] && CleanNames(names)
    ensures forall k :: 0 <= k < |names| ==> Strip(Spaced(names)[k]) == names[k]
  {
    forall k | 0 <= k < |names| ensures Strip(Spaced(names)[k]) == names[k] {
      if k > 0 {
        StripLeadingSpace(' ', names[k]);
      }
      StripOfStripped(names[k]);
    }
  }

  /** Splitting "a, b, c" gives back `[a, b, c]` for clean names. */
  lemma ParseAuthorsOfJoin(names: seq<string>)
    requires names != [] && CleanNames(names)
    ensures ParseAuthorsText(Join(names, ", ")) == names
  {
    SpacedNamesStripBack(names);
    JoinedNamesPieces(names);
    ParseAuthorsOfPieces(Join(names, ", "), Spaced(names), names);
  }

  /** Stripping the spaced names and dropping empty ones gives the names. */
  lemma SpacedNamesStripBack(names: seq<string>)
    requires names != [] && CleanNames(names)
    ensures StrippedPieces(Spaced(names)) == names
  {
    SpacedStrip(names);
    StrippedPiecesOfPrefixed(Spaced(names), names);
  }

  /** "a, b, c" is not blank and is cut into `a`, " b" and " c". */
  lemma JoinedNamesPieces(names: seq<string>)
    requires names != [] && CleanNames(names)
    ensures Strip(Join(names, ", ")) != []
    ensures Split(Replace(Join(names, ", "), ";", ","), ",") == Spaced(names)
  {
    JoinedNamesUnchanged(names);
    JoinedNamesSplit(names);
    JoinedNamesNotBlank(names);
  }

  /** A non-blank text whose pieces strip to `names` gives `names`. */
  lemma ParseAuthorsOfPieces(text: string, pieces: seq<string>, names: seq<string>)
    requires Strip(text) != [] && Split(Replace(text, ";", ","), ",") == pieces
    requires StrippedPieces(pieces) == names && names != []
    ensures ParseAuthorsText(text) == names
  {
    assert AuthorNames(text) == names;
  }

  /** "a, b, c" does not strip to nothing: it starts with the first name's first character. */
  lemma JoinedNamesNotBlank(names: seq<string>)
    requires names != [] && CleanName(names[0])
    ensures Strip(Join(names, ", ")) != []
  {
    var text := Join(names, ", ");
    assert text[0] == names[0][0];
    assert !IsSpace(text[0]);
  }

  /** Pieces that strip to the clean names are turned into those names. */
  lemma {:induction false} StrippedPiecesOfPrefixed(pieces: seq<string>, names: seq<string>)
    requires |pieces| == |names|
    requires forall k :: 0 <= k < |names| ==> CleanName(names[k]) && Strip(pieces[k]) == names[k]
    ensures StrippedPieces(pieces) == names
    decreases |pieces|
  {
    if pieces != [] {
      StrippedPiecesOfPrefixed(pieces[1..], names[1..]);
    }
  }

  // ------------------------------------------------------------------ summary paragraphs

  /** The summary loop's variables: the finished paragraphs (as their runs) and the open one. */
  datatype Gathered = Gathered(closed: seq<seq<string>>, open: seq<string>)

  /** The paragraphs once the open one, if it holds any run, is finished. */
  function Close(g: Gathered): seq<seq<string>>
  {
    if g.open != [] then g.closed + [g.open] else g.closed
  }

  /** The state after the runs: a "\n" run finishes the open paragraph, any other run joins it. */
  function Gather(runs: seq<string>): Gathered
  {
    if runs == [] then Gathered([], [])
    else
      var g := Gather(runs[..|runs| - 1]);
      var run := runs[|runs| - 1];
      if run == LineBreak then Gathered(Close(g), []) else Gathered(g.closed, g.open + [run])
  }

  /** The paragraphs of a summary: its runs grouped between "\n" runs, empty groups left out. */
  function Groups(runs: seq<string>): seq<seq<string>>
  {
    Close(Gather(runs))
  }

  /** Each paragraph's runs joined by " ". */
  function JoinEach(groups: seq<seq<string>>): (r: seq<string>)
    ensures |r| == |groups| && forall k :: 0 <= k < |groups| ==> r[k] == Join(groups[k], WordSep)
  {
    seq(|groups|, k requires 0 <= k < |groups| => Join(groups[k], WordSep))
  }

  /** The summary shown on the website: the paragraphs separated by a blank line. */
  function SummaryText(runs: seq<string>): string
  {
    var paragraphs := JoinEach(Groups(runs));
    if paragraphs == [] then NoSummary else Join(paragraphs, ParagraphSep)
  }

  /** The summary loop of `parse_paper`. */
  method BuildSummary(runs: seq<string>) returns (summary: string)
    ensures summary == SummaryText(runs)
  {
    var parts: seq<string> := [];
    var current: seq<string> := [];
    var i := 0;
    while i < |runs|
      invariant i <= |runs|
      invariant parts == JoinEach(Gather(runs[..i]).closed)
      invariant current == Gather(runs[..i]).open
    {
      var content := runs[i];
      assert runs[..i + 1][..i] == runs[..i];
      if content == LineBreak {
        if current != [] {
          parts := parts + [Join(current, WordSep)];
          current := [];
        }
      } else {
        current := current + [content];
      }
      i := i + 1;
    }
    assert runs[..|runs|] == runs;
    if current != [] {
      assert JoinEach(Gather(runs).closed + [current]) == parts + [Join(current, WordSep)];
      parts := parts + [Join(current, WordSep)];
    }
    summary := if parts != [] then Join(parts, ParagraphSep) else NoSummary;
  }

  /** Every paragraph holds at least one run and no "\n" run. */
  lemma {:induction false} GatherShape(runs: seq<string>)
    ensures LineBreak !in Gather(runs).open
    ensures forall k :: 0 <= k < |Gather(runs).closed| ==> Gather(runs).closed[k] != [] && LineBreak !in Gather(runs).closed[k]
    decreases |runs|
  {
    if runs != [] {
      GatherShape(runs[..|runs| - 1]);
    }
  }

  lemma GroupsShape(runs: seq<string>)
    ensures forall k :: 0 <= k < |Groups(runs)| ==> Groups(runs)[k] != [] && LineBreak !in Groups(runs)[k]
  {
    GatherShape(runs);
  }

  /** Runs without a "\n" make a single paragraph (none if there are no runs). */
  lemma {:induction false} GatherNoBreak(runs: seq<string>)
    requires LineBreak !in runs
    ensures Gather(runs) == Gathered([], runs)
    decreases |runs|
  {
    if runs != [] {
      var prefix := runs[..|runs| - 1];
      assert LineBreak !in prefix && runs[|runs| - 1] != LineBreak;
      GatherNoBreak(prefix);
      assert prefix + [runs[|runs| - 1]] == runs;
    }
  }

  /** After a "\n" run, the paragraphs before it are finished and the rest is gathered anew. */
  lemma {:induction false} GatherAfterBreak(a: seq<string>, b: seq<string>)
    ensures Gather(a + [LineBreak] + b) == Gathered(Groups(a) + Gather(b).closed, Gather(b).open)
    decreases |b|
  {
    if b == [] {
      assert (a + [LineBreak] + b)[..|a| + 1 - 1] == a;
    } else {
      var s := a + [LineBreak] + b;
      var b' := b[..|b| - 1];
      assert s[..|s| - 1] == a + [LineBreak] + b';
      GatherAfterBreak(a, b');
    }
  }

  /** A "\n" run divides the paragraphs: those of the runs before it, then those after it. */
  lemma GroupsBreak(a: seq<string>, b: seq<string>)
    ensures Groups(a + [LineBreak] + b) == Groups(a) + Groups(b)
  {
    GatherAfterBreak(a, b);
  }

  /** A summary without "\n" runs is its runs joined by " "; one with only "\n" runs is the default. */
  lemma SummaryOfOneParagraph(runs: seq<string>)
    requires LineBreak !in runs
    ensures SummaryText(runs) == if runs == [] then NoSummary else Join(runs, WordSep)
  {
    GatherNoBreak(runs);
    if runs != [] {
      assert JoinEach(Groups(runs)) == [Join(runs, WordSep)];
    }
  }

  /** Only line breaks (or nothing at all) leave the summary at its default. */
  lemma {:induction false} SummaryOfBreaksOnly(runs: seq<string>)
    requires forall k :: 0 <= k < |runs| ==> runs[k] == LineBreak
    ensures Groups(runs) == [] && SummaryText(runs) == NoSummary
    decreases |runs|
  {
    if runs != [] {
      SummaryOfBreaksOnly(runs[..|runs| - 1]);
    }
  }

  // ------------------------------------------------------------------ parse_paper

  /**
   * What `parse_paper(page)` returns, `now` standing for `datetime.now().isoformat()`: `None`
   * for a page whose title strips to nothing, and for a page without an id (the `KeyError` is
   * caught); otherwise the record with the defaults filled in.
   */
  function PaperOf(page: Page, now: string): (r: Option<PaperRecord>)
    ensures r.None? <==> Strip(PlainText(page.title)) == [] || page.id.None?
    ensures r.Some? ==> (r.value.title != [] && IsStripped(r.value.title)
      && IsStripped(r.value.arxivId) && IsStripped(r.value.pdfUrl) && r.value.authors != [])
  {
    var title := PlainText(page.title);
    if Strip(title) == [] || page.id.None? then None
    else
      Some(PaperRecord(
        page.id.value,
        Strip(title),
        ParseAuthorsText(PlainText(page.authors)),
        SummaryText(page.summary),
        page.topic.GetOr(DefaultTopic),
        page.status.GetOr(DefaultStatus),
        if page.created.Some? && page.created.value != [] then page.created.value else now,
        Strip(PlainText(page.arxivId)),
        Strip(page.pdfUrl.GetOr("")),
        page.url.GetOr("")))
  }

  /** `parse_paper`, whose summary is built by its loop. */
  method ParsePaper(page: Page, now: string) returns (r: Option<PaperRecord>)
    ensures r == PaperOf(page, now)
  {
    var summary := BuildSummary(page.summary);
    var title := PlainText(page.title);
    if Strip(title) == [] || page.id.None? {
      return None;
    }
    var date := now;
    if page.created.Some? && page.created.value != [] {
      date := page.created.value;
    }
    r := Some(PaperRecord(
      page.id.value,
      Strip(title),
      ParseAuthorsText(PlainText(page.authors)),
      summary,
      page.topic.GetOr(DefaultTopic),
      page.status.GetOr(DefaultStatus),
      date,
      Strip(PlainText(page.arxivId)),
      Strip(page.pdfUrl.GetOr("")),
      page.url.GetOr("")));
  }

  /** A kept page with no other properties gets every default. */
  lemma PaperDefaults(page: Page, now: string)
    requires page.id.Some? && Strip(PlainText(page.title)) != []
    requires page.topic.None? && page.status.None? && page.created.None? && page.pdfUrl.None?
    requires page.authors == [] && page.summary == [] && page.arxivId == []
    ensures PaperOf(page, now).Some?
    ensures var p := PaperOf(page, now).value;
      p.topic == DefaultTopic && p.status == DefaultStatus && p.authors == [UnknownAuthor]
      && p.summary == NoSummary && p.date == now && p.arxivId == [] && p.pdfUrl == []
  {
    PaperOfKept(page, now);
    BlankAuthorsUnknown();
    NoRunsNoSummary();
    BlankStripsToNothing();
  }

  /** The record of a page that is kept, field by field. */
  lemma PaperOfKept(page: Page, now: string)
    requires Strip(PlainText(page.title)) != [] && page.id.Some?
    ensures PaperOf(page, now) == Some(PaperRecord(
      page.id.value,
      Strip(PlainText(page.title)),
      ParseAuthorsText(PlainText(page.authors)),
      SummaryText(page.summary),
      page.topic.GetOr(DefaultTopic),
      page.status.GetOr(DefaultStatus),
      if page.created.Some? && page.created.value != [] then page.created.value else now,
      Strip(PlainText(page.arxivId)),
      Strip(page.pdfUrl.GetOr("")),
      page.url.GetOr("")))
  {
  }

  /** A page without summary runs gets the placeholder summary. */
  lemma NoRunsNoSummary()
    ensures SummaryText([]) == NoSummary
  {
    SummaryOfBreaksOnly([]);
  }

  /** A missing text strips to nothing. */
  lemma BlankStripsToNothing()
    ensures Strip(PlainText([])) == [] && Strip("") == []
  {
    assert PlainText([]) == [];
  }

  /** An empty "Authors" text gives the single author "Unknown Author". */
  lemma BlankAuthorsUnknown()
    ensures ParseAuthorsText(PlainText([])) == [UnknownAuthor]
  {
    assert PlainText([]) == [];
    assert AuthorNames([]) == [];
  }

  /** A record the website can list: it has a title and at least one author. */
  predicate Listed(p: PaperRecord)
  {
    p.title != [] && p.authors != []
  }

  /** The records among the parse results, in order (`if paper: papers.append(paper)`). */
  function Kept(parsed: seq<Option<PaperRecord>>): (r: seq<PaperRecord>)
    ensures |r| <= |parsed|
    ensures forall k :: 0 <= k < |r| ==> Some(r[k]) in parsed
  {
    if parsed == [] then []
    else
      var rest := Kept(parsed[1..]);
      if parsed[0].Some? then [parsed[0].value] + rest else rest
  }

  /** Keeping the records of listable parse results gives listable records. */
  lemma {:induction false} KeptListed(parsed: seq<Option<PaperRecord>>)
    requires forall k :: 0 <= k < |parsed| && parsed[k].Some? ==> Listed(parsed[k].value)
    ensures forall k :: 0 <= k < |Kept(parsed)| ==> Listed(Kept(parsed)[k])
    decreases |parsed|
  {
    if parsed != [] {
      var r, rest := Kept(parsed), Kept(parsed[1..]);
      KeptListed(parsed[1..]);
      if parsed[0].Some? {
        assert r == [parsed[0].value] + rest;
        forall k | 0 <= k < |r| ensures Listed(r[k]) {
          if k > 0 {
            assert r[k] == rest[k - 1];
          }
        }
      } else {
        assert r == rest;
      }
    }
  }

  /** Keeping the records of a list with a parse result in front. */
  lemma KeptCons(x: Option<PaperRecord>, s: seq<Option<PaperRecord>>)
    ensures Kept([x] + s) == (if x.Some? then [x.value] else []) + Kept(s)
  {
    assert ([x] + s)[0] == x && ([x] + s)[1..] == s;
  }

  /** Keeping the records of two lists of parse results one after the other. */
  lemma {:induction false} KeptConcat(a: seq<Option<PaperRecord>>, b: seq<Option<PaperRecord>>)
    ensures Kept(a + b) == Kept(a) + Kept(b)
    decreases |a|
  {
    if a != [] {
      var x, tail := a[0], a[1..];
      KeptConcat(tail, b);
      assert a == [x] + tail;
      assert a + b == [x] + (tail + b);
      KeptCons(x, tail);
      KeptCons(x, tail + b);
    } else {
      assert a + b == b;
    }
  }

  /**
   * Every record among the parse results is kept, in its place: after the records parsed before
   * it and before those parsed after it.
   */
  lemma KeptAt(parsed: seq<Option<PaperRecord>>, k: nat)
    requires k < |parsed| && parsed[k].Some?
    ensures Kept(parsed) == Kept(parsed[..k]) + [parsed[k].value] + Kept(parsed[k + 1..])
  {
    var before, x, after := parsed[..k], parsed[k], parsed[k + 1..];
    Around(parsed, k);
    KeptConcat(before, [x] + after);
    KeptCons(x, after);
  }

  /** A list is what comes before its k-th element, that element, and what comes after it. */
  lemma Around<T>(s: seq<T>, k: nat)
    requires k < |s|
    ensures s == s[..k] + ([s[k]] + s[k + 1..])
  {
  }

  /** The parse result of each page, in order. */
  function ParsedPages(pages: seq<Page>, now: string): (r: seq<Option<PaperRecord>>)
    ensures |r| == |pages| && forall k :: 0 <= k < |pages| ==> r[k] == PaperOf(pages[k], now)
  {
    seq(|pages|, k requires 0 <= k < |pages| => PaperOf(pages[k], now))
  }

  /** The papers `fetch_all_papers` collects from the pages of the database, in order. */
  function CollectPapers(pages: seq<Page>, now: string): seq<PaperRecord>
  {
    Kept(ParsedPages(pages, now))
  }

  /**
   * The record of every page that has one is collected, in page order: after the records of the
   * pages before it and before those of the pages after it.
   */
  lemma CollectPapersAt(pages: seq<Page>, now: string, k: nat)
    requires k < |pages| && PaperOf(pages[k], now).Some?
    ensures CollectPapers(pages, now)
      == CollectPapers(pages[..k], now) + [PaperOf(pages[k], now).value] + CollectPapers(pages[k + 1..], now)
  {
    var parsed := ParsedPages(pages, now);
    assert parsed[k] == PaperOf(pages[k], now);
    KeptAt(parsed, k);
    ParsedPagesBefore(pages, now, k);
    ParsedPagesAfter(pages, now, k);
  }

  /** The parse results of the pages before the k-th are the parse results before the k-th. */
  lemma ParsedPagesBefore(pages: seq<Page>, now: string, k: nat)
    requires k <= |pages|
    ensures ParsedPages(pages, now)[..k] == ParsedPages(pages[..k], now)
  {
  }

  /** The parse results of the pages after the k-th are the parse results after the k-th. */
  lemma ParsedPagesAfter(pages: seq<Page>, now: string, k: nat)
    requires k < |pages|
    ensures ParsedPages(pages, now)[k + 1..] == ParsedPages(pages[k + 1..], now)
  {
  }

  /** Every collected record is the record of one of the pages, and has a title and an author. */
  lemma CollectedPapersListable(pages: seq<Page>, now: string)
    ensures forall k :: 0 <= k < |CollectPapers(pages, now)| ==>
      Listed(CollectPapers(pages, now)[k]) && exists j :: 0 <= j < |pages| && PaperOf(pages[j], now) == Some(CollectPapers(pages, now)[k])
  {
    var parsed := ParsedPages(pages, now);
    forall k | 0 <= k < |parsed| && parsed[k].Some? ensures Listed(parsed[k].value) {
      assert parsed[k] == PaperOf(pages[k], now);
    }
    KeptListed(parsed);
    forall k | 0 <= k < |Kept(parsed)| ensures exists j :: 0 <= j < |pages| && PaperOf(pages[j], now) == Some(Kept(parsed)[k]) {
      var j :| 0 <= j < |parsed| && parsed[j] == Some(Kept(parsed)[k]);
      assert PaperOf(pages[j], now) == parsed[j];
    }
  }

  // ------------------------------------------------------------------ generate_papers_json

  datatype Metadata = Metadata(generatedAt: string, totalPapers: nat, topics: seq<string>, lastUpdated: string)
  datatype Feed = Feed(metadata: Metadata, papers: seq<PaperRecord>)

  /** The sort key of `papers.sort(key=lambda x: x["date"], reverse=True)`. */
  function DateKey(p: PaperRecord): Key
  {
    Text(p.date)
  }

  /** Strictly increasing, hence also free of repeats. */
  predicate StrictlyAscending(s: seq<string>)
  {
    forall i, j :: 0 <= i < j < |s| ==> StrLess(s[i], s[j])
  }

  /** Puts `x` into an ascending list unless it is there already. */
  function InsertUnique(x: string, s: seq<string>): (r: seq<string>)
    requires StrictlyAscending(s)
    ensures StrictlyAscending(r)
    ensures forall y :: y in r <==> y == x || y in s
  {
    if s == [] then [x]
    else if x == s[0] then s
    else if StrLess(x, s[0]) then
      var r := [x] + s;
      forall j | 1 <= j < |r| ensures StrLess(x, r[j]) {
        if j > 1 {
          StrLessTransitive(x, s[0], s[j - 1]);
        }
      }
      r
    else
      var rest := InsertUnique(x, s[1..]);
      StrLessTotal(x, s[0]);
      var r := [s[0]] + rest;
      forall j | 1 <= j < |r| ensures StrLess(s[0], r[j]) {
        assert r[j] in rest;
        if r[j] != x {
          var m :| 0 <= m < |s[1..]| && s[1..][m] == r[j];
          assert s[m + 1] == r[j];
        }
      }
      r
  }

  /** `sorted(set(topics))`: each topic once, in ascending order. */
  function SortedDistinct(topics: seq<string>): (r: seq<string>)
    ensures StrictlyAscending(r)
    ensures forall t :: t in r <==> t in topics
  {
    if topics == [] then []
    else InsertUnique(topics[0], SortedDistinct(topics[1..]))
  }

  function Topics(papers: seq<PaperRecord>): (r: seq<string>)
    ensures |r| == |papers| && forall k :: 0 <= k < |papers| ==> r[k] == papers[k].topic
  {
    seq(|papers|, k requires 0 <= k < |papers| => papers[k].topic)
  }

  /**
   * `generate_papers_json` before the file is written: `None` (the code's `False`) for no papers,
   * otherwise the papers newest first and the metadata, `now` standing for the generation time.
   */
  function GenerateFeed(papers: seq<PaperRecord>, now: string): (r: Option<Feed>)
    ensures r.None? <==> papers == []
    ensures r.Some? ==> (|r.value.papers| == r.value.metadata.totalPapers == |papers|
      && multiset(r.value.papers) == multiset(papers)
      && SortedDesc(r.value.papers, DateKey)
      && r.value.metadata.generatedAt == now)
    ensures r.Some? ==> (StrictlyAscending(r.value.metadata.topics)
      && forall t :: t in r.value.metadata.topics <==> exists k :: 0 <= k < |papers| && papers[k].topic == t)
  {
    if papers == [] then None
    else
      var sorted := SortDesc(papers, DateKey);
      var topics := SortedDistinct(Topics(sorted));
      forall t ensures t in topics <==> exists k :: 0 <= k < |papers| && papers[k].topic == t {
        if t in topics {
          var j :| 0 <= j < |sorted| && sorted[j].topic == t;
          assert sorted[j] in multiset(papers);
          var k :| 0 <= k < |papers| && papers[k] == sorted[j];
        }
        if exists k :: 0 <= k < |papers| && papers[k].topic == t {
          var k :| 0 <= k < |papers| && papers[k].topic == t;
          assert papers[k] in multiset(sorted);
          var j :| 0 <= j < |sorted| && sorted[j] == papers[k];
          assert Topics(sorted)[j] == t;
        }
      }
      Some(Feed(Metadata(now, |papers|, topics, sorted[0].date), sorted))
  }

  /** "last_updated" is the newest date: no paper is dated later. */
  lemma LastUpdatedIsNewest(papers: seq<PaperRecord>, now: string)
    requires papers != []
    ensures var f := GenerateFeed(papers, now).value;
      (exists k :: 0 <= k < |papers| && papers[k].date == f.metadata.lastUpdated)
      && forall k :: 0 <= k < |papers| ==> !StrLess(f.metadata.lastUpdated, papers[k].date)
  {
    var sorted := SortDesc(papers, DateKey);
    assert sorted[0] in multiset(papers);
    forall k | 0 <= k < |papers| ensures !StrLess(sorted[0].date, papers[k].date) {
      assert papers[k] in multiset(sorted);
      var j :| 0 <= j < |sorted| && sorted[j] == papers[k];
      if j > 0 {
        assert !KeyLess(DateKey(sorted[0]), DateKey(sorted[j]));
      } else {
        StrLessIrreflexive(sorted[0].date);
      }
    }
  }

  /** Papers with the same date keep the order they were fetched in. */
  lemma FeedKeepsSameDateOrder(papers: seq<PaperRecord>, now: string, date: string)
    requires papers != []
    ensures Matching(GenerateFeed(papers, now).value.papers, DateKey, Text(date)) == Matching(papers, DateKey, Text(date))
  {
    SortDescStable(papers, DateKey, Text(date));
  }
}
