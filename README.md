# dr_paper: a verified model of the paper pipeline's text and record logic

dr_paper collects recent machine-learning papers and files them in a Notion database. A static
website then lists them. This project models the deterministic logic of its three scripts and
proves properties about it:

- `src/fetch.py` fetches papers and selects among them:
  - the keyword-exclusion relevance test;
  - the arXiv query builder;
  - the citation-threshold filter;
  - the "sort descending by a key, keep the first k" selections for top-cited and trending papers;
  - the `max(1, days)` clamp on the age of a paper.
- `src/fetch_and_notion.py` writes papers to Notion:
  - author formatting with the " et al." cut-off;
  - the markdown-to-rich-text scanner used for summaries;
  - arXiv id extraction from URLs;
  - extraction of the analysis text from the assistant's output;
  - construction of the Notion page properties: truncation, defaults, the PDF URL check.
- `src/notion_to_website.py` reads pages back:
  - turning a Notion page into a paper record (defaults, author splitting, paragraph rebuilding, dropping untitled pages);
  - the feed metadata and the newest-first ordering of `papers.json`.

Modules:

| module | file | contents |
|---|---|---|
| `Wrappers` | wrappers.dfy | `Option`, for Python's `None` and missing dictionary keys |
| `Strings` | strings.dfy | Python's `strip`, `lower`, `in`, `find`, `split`, `join` and `replace`, with the lemmas that relate them |
| `Ranking` | ranking.dfy | the ordering of sort keys; `list.sort(key=..., reverse=True)` as a stable sort; the first-k selection |
| `ArxivFetch` | fetch.dfy | src/fetch.py |
| `RichText` | richtext.dfy | `parse_markdown_to_rich_text` |
| `NotionSync` | notion_sync.dfy | the rest of src/fetch_and_notion.py |
| `WebsiteFeed` | website.dfy | src/notion_to_website.py |
| `Pipeline` | pipeline.dfy | a paper written by `add_paper` and read back by `parse_paper` |

The imperative parts are Dafny methods with loops whose invariants tie them to a specification function:

- `RichText.ParseMarkdownToRichText` is the scanning loop.
- `WebsiteFeed.BuildSummary` is the paragraph loop.
- `WebsiteFeed.ParsePaper` is the page parser.
- `ArxivFetch.SelectTopCited`, `ArxivFetch.EnrichTopic` and `ArxivFetch.FetchTrending` are the per-topic loops. `FetchTrending` uses the corrected trending selection of the first row under "## Findings"; the code as written is `ArxivFetch.TrendingAsWritten`.

The properties are proved about those specification functions.

## Model

| member | source | states |
|---|---|---|
| ArxivFetch.IsRelevant | src/fetch.py:22-25 | a paper is relevant iff no excluded keyword occurs in its lower-cased title or its lower-cased summary |
| ArxivFetch.AnyExcludedSpec | src/fetch.py:25 | the `any(...)` over the keywords holds iff some keyword occurs in the title or in the summary |
| ArxivFetch.IsRelevantCaseInsensitive | src/fetch.py:23-25 | an excluded keyword in the title, written in any mixture of upper and lower case, makes the paper irrelevant |
| ArxivFetch.IsRelevantOfLowered | src/fetch.py:23-25 | lower-casing the title and summary beforehand never changes the verdict |
| ArxivFetch.BuildQuery | src/fetch.py:28-32 | the URL starts with the arXiv API base followed by `search_query=(`, and ends with `&max_results=` and the decimal digits of `max_results` |
| ArxivFetch.QueryParts | src/fetch.py:29-31 | for keywords and categories without `)`, the query after `search_query=(` is the topic part, then `)+AND+(` and the category part, closed by `)` |
| ArxivFetch.BuildQueryRoundTrip | src/fetch.py:28-32 | reading the `ti:` terms and the `cat:` terms back out of the query gives exactly the keywords and the categories it was built from, in order (for keywords without `O`, `+` or `)` and categories without `O` or `)`, as all the fetcher's are) |
| ArxivFetch.TitleTermChars | src/fetch.py:29 | a title term contains no space, and no `O` or `)` unless its keyword has one |
| ArxivFetch.KeywordOfTitleTerm | src/fetch.py:29 | a title term is `ti:` followed by the keyword with spaces made `+`; turning `+` back into spaces gives back the keyword |
| ArxivFetch.TopicPartTerms | src/fetch.py:29 | the topic part has no space, and splitting it on `+OR+` gives back the title terms, one per keyword in order |
| ArxivFetch.CategoryPartTerms | src/fetch.py:30 | splitting the category part on `+OR+` gives back the `cat:` terms, one per category in order |
| ArxivFetch.FilterHighImpact | src/fetch.py:392-396 | the filter never returns more papers than it was given |
| ArxivFetch.FilterHighImpactSpec | src/fetch.py:392-396 | the result is an order-preserving subsequence of the input, drawn from it; it holds every paper whose citation count (0 when absent) reaches the threshold, and only those |
| ArxivFetch.FilterHighImpactCounts | src/fetch.py:396 | every paper whose citation count reaches the threshold occurs in the result exactly as often as in the input, so duplicates are kept; any other paper does not occur |
| ArxivFetch.FilterHighImpactIdempotent | src/fetch.py:392-396 | filtering an already filtered list changes nothing |
| ArxivFetch.FilterHighImpactCompose | src/fetch.py:392-396 | filtering with threshold a and then b equals filtering once with the larger threshold |
| ArxivFetch.PerTopicTop | src/fetch.py:104-106 | the per-topic winners number at most two per topic in all, and are all drawn from the topic batches (each topic's own share is `Ranking.TopK` with k = 2) |
| ArxivFetch.CollectTopPerTopic | src/fetch.py:104-106 | the topic loop gathers exactly the best two papers of each batch, topic by topic |
| ArxivFetch.SelectTopCited | src/fetch.py:104-132 | the result is the first ten of the stable descending sort, by citation count, of the per-topic winners; it has at most ten papers, in non-increasing citation order, all drawn from the batches |
| ArxivFetch.DaysSincePublication | src/fetch.py:297-299 | the age in days is at least 1; once a day or more has elapsed it is the number of whole days elapsed, rounded down; under two days it is 1 |
| ArxivFetch.DaysSincePublicationMonotone | src/fetch.py:297-299 | a later current time never gives a smaller age |
| ArxivFetch.FeedRecord | src/fetch.py:285-301 | a freshly read feed entry has an age of at least 1 day and no citation count or trend score yet |
| ArxivFetch.EnrichTopic | src/fetch.py:305-330 | the loop computes the enriched batch; a record carries a trend score afterwards iff it is among the first ten or already had one |
| ArxivFetch.TrendingAsWritten | src/fetch.py:342-350 | the sort by `trend_score` fails with `KeyError` iff some record has no trend score |
| ArxivFetch.TrendingAsWrittenFailsOnEleven | src/fetch.py:305-342 | a topic that returns eleven fresh entries always makes the trending sort fail |
| ArxivFetch.TrendSelection | src/fetch.py:342-350 | the trending pick has min(15, n) records, in non-increasing trend score (a missing score counting as 0), all drawn from the input |
| ArxivFetch.TrendSelectionAgrees | src/fetch.py:342-350 | wherever the code as written does not fail, it returns exactly the trending pick |
| ArxivFetch.FetchTrending | src/fetch.py:266-350 | with the corrected selection (first row under "## Findings"), the per-topic loop returns the trending pick of all enriched batches: at most 15 records in non-increasing trend score; as written, the sort raises `KeyError` once a topic has more than ten entries (`TrendingAsWritten`) |
| Ranking.StrLessIrreflexive | src/notion_to_website.py:175 | no string sorts before itself |
| Ranking.StrLessTransitive | src/notion_to_website.py:175 | the string order is transitive |
| Ranking.StrLessTotal | src/notion_to_website.py:175 | of two different strings, one sorts before the other |
| Ranking.StrLessAsymmetric | src/notion_to_website.py:175 | two strings never sort before each other |
| Ranking.KeyLessIrreflexive | src/fetch.py:104 | no sort key is smaller than itself |
| Ranking.KeyLessTransitive | src/fetch.py:104 | the key order is transitive |
| Ranking.KeyLessTotal | src/fetch.py:104 | of two different keys, one is smaller |
| Ranking.KeyLessAsymmetric | src/fetch.py:104 | two keys are never smaller than each other |
| Ranking.NotLessTransitive | src/fetch.py:104 | "not smaller than" is transitive |
| Ranking.Insert | src/fetch.py:104 | inserting one record adds exactly that record and keeps a non-increasing list non-increasing |
| Ranking.InsertedInFront | src/fetch.py:104 | a record not smaller than the head of a non-increasing list can go in front of it |
| Ranking.InsertedBehind | src/fetch.py:104 | the head of a non-increasing list stays in front when a smaller record is inserted behind it |
| Ranking.SortDesc | src/fetch.py:104 | the sort is a permutation of its input, in non-increasing key order |
| Ranking.SortDescStable | src/fetch.py:104 | records with equal keys keep their input order, as `sort(reverse=True)` guarantees |
| Ranking.SortDescOfSorted | src/fetch.py:131 | a list already in non-increasing order is left as it is |
| Ranking.TopK | src/fetch.py:131-132 | the first k after sorting: min(k, n) records, non-increasing, all drawn from the input |
| Ranking.TopKLeftOutNotLarger | src/fetch.py:131-132 | no record left out has a larger key than any record kept |
| Ranking.SortedPrefixNotSmaller | src/fetch.py:131-132 | in a non-increasing list, nothing after the first n records is larger than one of them |
| Ranking.TopKStable | src/fetch.py:131-132 | the kept records of each key value appear in their input order |
| RichText.BoldStep | src/fetch_and_notion.py:97-118 | the `**` branch moves the index strictly forward and stays within the text |
| RichText.ItalicStep | src/fetch_and_notion.py:119-140 | the `*` branch moves the index strictly forward and stays within the text |
| RichText.Step | src/fetch_and_notion.py:96-143 | every loop iteration moves the index strictly forward, so the scan ends within `len(text)` iterations |
| RichText.BoldBranch | src/fetch_and_notion.py:97-118 | the `**` branch of the loop body computes the scanner's `**` step |
| RichText.ItalicBranch | src/fetch_and_notion.py:119-140 | the `*` branch of the loop body computes the scanner's `*` step |
| RichText.ParseMarkdownToRichText | src/fetch_and_notion.py:86-149 | the loop computes the scanner's result: the single "Analysis pending..." segment for empty text; never an empty list; for non-empty text, writing the segments back as markdown gives back the text |
| RichText.MarkdownRoundTrip | src/fetch_and_notion.py:86-149 | the result is never empty; it is the pending segment iff the text is empty; non-empty text is reproduced exactly when written back, so no character is lost and the 2000-character fallback is never reached |
| RichText.RenderFlush | src/fetch_and_notion.py:145-147 | flushing the pending text appends exactly that text |
| RichText.BoldSlices | src/fetch_and_notion.py:104-111 | a closed bold span, cut out of the text, is the bold segment's markdown followed by the rest |
| RichText.EmitSpan | src/fetch_and_notion.py:100-111 | flushing the pending text and emitting a segment that spells out the next characters loses no text |
| RichText.KeepMarker | src/fetch_and_notion.py:116-118 | flushing the pending text and keeping an unmatched marker as new pending text loses no text |
| RichText.BoldStepRender | src/fetch_and_notion.py:97-118 | the `**` branch neither loses nor adds text: emitted, pending and unread text together stay the same |
| RichText.ItalicStepRender | src/fetch_and_notion.py:119-140 | the `*` branch neither loses nor adds text |
| RichText.StepRender | src/fetch_and_notion.py:96-143 | every iteration preserves emitted, pending and unread text together (the loop invariant) |
| RichText.ScanRender | src/fetch_and_notion.py:96-147 | the finished scan writes back to the text the starting state stood for |
| RichText.ScanNonEmpty | src/fetch_and_notion.py:145-149 | scanning anything non-empty emits at least one segment |
| RichText.BoldContentWellFormed | src/fetch_and_notion.py:104-106 | bold content holds no `**` and does not end in `*` |
| RichText.ItalicContentWellFormed | src/fetch_and_notion.py:126-128 | italic content is non-empty and holds no `*` |
| RichText.StepWellFormed | src/fetch_and_notion.py:96-143 | every iteration emits only well-formed segments |
| RichText.ScanWellFormed | src/fetch_and_notion.py:96-147 | the scan emits only well-formed segments |
| RichText.MarkdownWellFormed | src/fetch_and_notion.py:86-149 | no segment is both bold and italic; plain and italic segments are non-empty; bold and italic contents hold no markers |
| RichText.ScanPlainRun | src/fetch_and_notion.py:141-147 | a stretch without `*` (the last character aside) is gathered into the pending text and flushed as it is |
| RichText.PlainText | src/fetch_and_notion.py:141-147 | non-empty text with no `*` before its last character gives exactly one plain segment holding the whole text |
| RichText.BoldSpanCloses | src/fetch_and_notion.py:97-106 | in `**X**` the span opens at the start and the first closing `**` found is the final one |
| RichText.BoldSpan | src/fetch_and_notion.py:97-115 | `**X**` gives one bold segment X when X holds no `**` and does not end in `*` |
| RichText.ItalicSpan | src/fetch_and_notion.py:119-137 | `*X*` with non-empty X free of `*` gives one italic segment X |
| RichText.UnclosedBold | src/fetch_and_notion.py:116-118 | an unclosed `**` is kept as literal text: `**X` gives the plain segments `*` and `*X` |
| RichText.BoldThenStar | src/fetch_and_notion.py:97-147 | `**a***` gives bold `a` followed by a plain `*` |
| NotionSync.FormatAuthors | src/fetch_and_notion.py:17-23 | an absent or empty list gives "Unknown Author"; a list longer than the maximum ends in " et al." |
| NotionSync.CommaFreeSeparates | src/fetch_and_notion.py:22 | a name without commas neither contains nor runs into the ", " separator |
| NotionSync.FormatAuthorsListsAll | src/fetch_and_notion.py:21-22 | up to the maximum, the result splits on ", " into exactly the given names, with no " et al." |
| NotionSync.FormatAuthorsCutsAfterMax | src/fetch_and_notion.py:23 | beyond the maximum, the result splits into the first `max_authors` names, the last of them followed by " et al." |
| NotionSync.IdOfUrl | src/fetch_and_notion.py:323-328 | for a URL containing "/abs/", the id is the last piece of the split on "/abs/": the URL ends with "/abs/" followed by the id, and the id holds no "/abs/" |
| NotionSync.ExtractArxivIdAsWritten | src/fetch_and_notion.py:320-330 | the function as written raises `TypeError` iff the argument is `None`; otherwise it returns an id iff the argument is a string |
| NotionSync.ExtractArxivId | src/fetch_and_notion.py:320-330 | the corrected function returns an id iff the argument is a string; for a URL containing "/abs/", the URL ends with "/abs/" followed by the id, and the id holds no "/abs/" |
| NotionSync.ExtractArxivIdAgrees | src/fetch_and_notion.py:320-330 | the corrected function agrees with the code as written on every argument except `None` |
| NotionSync.ExtractArxivIdRaisesOnNone | src/fetch_and_notion.py:323 | on `None`, the code as written raises `TypeError` while the corrected function returns `None` |
| NotionSync.ArxivSiteNoStraddle | src/fetch_and_notion.py:323-325 | an arXiv site prefix never runs into a following "/abs/" or "/pdf/" |
| NotionSync.AbsUrlRoundTrip | src/fetch_and_notion.py:323-324 | the id of `<arxiv site>/abs/<id>` is `<id>`, for a new-style id |
| NotionSync.DropPdfSuffix | src/fetch_and_notion.py:326 | removing ".pdf" from `<id>.pdf` or `<id>` gives `<id>` |
| NotionSync.PdfUrlRoundTrip | src/fetch_and_notion.py:325-326 | the id of `<arxiv site>/pdf/<id>` or `<arxiv site>/pdf/<id>.pdf` is `<id>` |
| NotionSync.BareIdRoundTrip | src/fetch_and_notion.py:327-328 | a bare new-style id is returned as it is |
| NotionSync.Rule | src/fetch_and_notion.py:404 | the separator is 60 characters, each of them `=` |
| NotionSync.ExtractAnalysis | src/fetch_and_notion.py:403-420 | the result is empty iff the output is; it is either the raw output or non-empty stripped text (the lemmas below fix it case by case) |
| NotionSync.AnalysisOfSecondPart | src/fetch_and_notion.py:407-413 | when the separator occurs and the text after the first one strips to something, that stripped text is the result |
| NotionSync.AnalysisBetweenMarkers | src/fetch_and_notion.py:409-411 | with two separators, the result is the stripped text between them, whatever else the text holds (an `=` included) as long as no separator is hidden in it |
| NotionSync.AnalysisAfterOnlyMarker | src/fetch_and_notion.py:412-413 | with a single separator, the result is the stripped text after it |
| NotionSync.AnalysisBlankAnswer | src/fetch_and_notion.py:407-420 | when a separator occurs but the text after it strips to nothing, the result is the stripped text after the last "Generating response..." if that marker occurs and the text is not blank, and the raw output otherwise |
| NotionSync.AnalysisAfterGenerating | src/fetch_and_notion.py:416-417 | without separators, the result is the stripped text after the last "Generating response..." |
| NotionSync.AnalysisRawOutput | src/fetch_and_notion.py:419-420 | with neither separator nor "Generating response...", the result is the raw output |
| NotionSync.CheckedPdfUrl | src/fetch_and_notion.py:219-221 | a PDF URL survives, unchanged, iff it is non-empty and starts with "http://" or "https://" |
| NotionSync.BuildProperties | src/fetch_and_notion.py:219-276 | title and topic are the first 2000 and 100 characters of the given or default values; status "To Read"; created is the current time; the summary is a non-empty list of well-formed segments that writes back to a non-empty given summary; a PDF URL is present only with an http or https scheme |
| NotionSync.BuildPropertiesDefaults | src/fetch_and_notion.py:229-265 | a paper with no fields gets "Untitled", "General", an empty arXiv id, "Unknown Author", the pending summary and no PDF URL |
| Strings.Strip | src/notion_to_website.py:150 | `strip()` returns a stripped string, no longer than its input, that is empty iff the input is all whitespace |
| Strings.StripTrims | src/notion_to_website.py:150 | `strip()` returns a slice of its input with nothing but whitespace before and after it |
| Strings.FindSpec | src/fetch_and_notion.py:104 | `find` returns the first occurrence at or after the start, and -1 iff there is none |
| Strings.SplitOfJoin | src/fetch_and_notion.py:22 | joining pieces that neither contain nor run into the separator, then splitting, gives back the pieces |
| Strings.JoinOfSplit | src/fetch_and_notion.py:324 | joining the pieces of a split with the separator gives back the string |
| Strings.SplitLast | src/fetch_and_notion.py:324 | the last piece of a split is a suffix of the string and holds no separator |
| Strings.ReplaceCharRemoves | src/notion_to_website.py:115 | replacing every `;` by `,` leaves no `;` |
| Strings.FramedBy | src/fetch.py:32 | a string built as head, middle and tail starts with the head and ends with the tail |
| Strings.SplitSecondPiece | src/fetch_and_notion.py:409-411 | when the separator's first character occurs neither before the first separator nor between the two, the second piece of the split is the text between them |
| Strings.NoOccurrenceIn | src/fetch_and_notion.py:104-106 | a stretch of text in which no occurrence of a pattern starts holds no occurrence |
| Strings.SplitConcat | src/notion_to_website.py:115 | splitting `x + sep + t` cuts at the separator between them when no occurrence straddles it |
| WebsiteFeed.StrippedPieces | src/notion_to_website.py:115 | no more pieces are kept than were given |
| WebsiteFeed.StrippedPiecesClean | src/notion_to_website.py:115 | the kept author pieces are non-empty and stripped |
| WebsiteFeed.StripCharFree | src/notion_to_website.py:115 | stripping never brings in a character that was not there |
| WebsiteFeed.StrippedPiecesChars | src/notion_to_website.py:115 | a character absent from every piece is absent from every kept piece |
| WebsiteFeed.StrippedPiecesKeepsClean | src/notion_to_website.py:115 | pieces that are already non-empty and stripped are all kept unchanged |
| WebsiteFeed.AuthorNamesChars | src/notion_to_website.py:115 | no name holds a `,` or a `;` |
| WebsiteFeed.ParseAuthorsText | src/notion_to_website.py:108-119 | the author list is never empty, and each name is non-empty, stripped and free of `,` and `;` |
| WebsiteFeed.UnknownAuthorClean | src/notion_to_website.py:118-119 | the fallback name "Unknown Author" is itself a clean name |
| WebsiteFeed.BlankAuthorsUnknown | src/notion_to_website.py:110-119 | a page without author text gets the single author "Unknown Author" |
| WebsiteFeed.JoinedNamesSplit | src/notion_to_website.py:115 | splitting clean names joined by ", " on `,` gives the names, each after the first with one leading space |
| WebsiteFeed.JoinedNamesNotBlank | src/notion_to_website.py:113 | clean names joined by ", " never strip to nothing |
| WebsiteFeed.JoinedNamesPieces | src/notion_to_website.py:113-115 | clean names joined by ", " are not blank, and replacing `;` by `,` and splitting on `,` gives the names, each after the first with one leading space |
| WebsiteFeed.SpacedNamesStripBack | src/notion_to_website.py:115 | stripping those pieces and dropping empty ones gives back the names |
| WebsiteFeed.ParseAuthorsOfJoin | src/notion_to_website.py:108-119 | clean names joined by ", " are read back as exactly those names |
| WebsiteFeed.BuildSummary | src/notion_to_website.py:121-142 | the loop computes the summary: paragraphs of space-joined runs, separated by blank lines, or "No summary available." |
| WebsiteFeed.GatherShape | src/notion_to_website.py:124-140 | no closed or open paragraph is empty or holds a "\n" run |
| WebsiteFeed.GroupsShape | src/notion_to_website.py:124-140 | consecutive "\n" runs never produce empty paragraphs |
| WebsiteFeed.GatherNoBreak | src/notion_to_website.py:135-136 | without "\n" runs, every run stays in the open paragraph |
| WebsiteFeed.GatherAfterBreak | src/notion_to_website.py:131-134 | a "\n" run closes everything gathered before it |
| WebsiteFeed.GroupsBreak | src/notion_to_website.py:131-134 | the paragraphs of `a + ["\n"] + b` are those of `a` followed by those of `b` |
| WebsiteFeed.SummaryOfOneParagraph | src/notion_to_website.py:136-142 | runs without "\n" give their space-joined text, or "No summary available." when there are none |
| WebsiteFeed.SummaryOfBreaksOnly | src/notion_to_website.py:131-142 | runs that are all "\n" give no paragraph and "No summary available." |
| WebsiteFeed.PaperOf | src/notion_to_website.py:60-163 | a page is dropped iff its joined title strips to nothing or it has no id; a kept record has a non-empty stripped title, stripped arXiv id and PDF URL, and a non-empty author list |
| WebsiteFeed.ParsePaper | src/notion_to_website.py:60-163 | the method computes the record the parser specifies |
| WebsiteFeed.NoRunsNoSummary | src/notion_to_website.py:121-142 | a page without summary runs gets "No summary available." |
| WebsiteFeed.PaperDefaults | src/notion_to_website.py:78-119 | a kept page with nothing but an id and a title gets "General", "To Read", "Unknown Author", "No summary available.", the current time, an empty arXiv id and an empty PDF URL |
| WebsiteFeed.Kept | src/notion_to_website.py:47-49 | the kept records are no more than the parse results, and each is one of them |
| WebsiteFeed.KeptConcat | src/notion_to_website.py:46-49 | keeping the records of two runs of parse results one after the other gives the records of the first, then those of the second |
| WebsiteFeed.KeptAt | src/notion_to_website.py:47-49 | every record among the parse results is kept, after the records parsed before it and before those parsed after it |
| WebsiteFeed.KeptListed | src/notion_to_website.py:47-49 | when every parse result that is a record has a title and an author, so does every kept record |
| WebsiteFeed.CollectPapersAt | src/notion_to_website.py:46-49 | the record of every page that has one is collected, after the records of the pages before it and before those of the pages after it |
| WebsiteFeed.CollectedPapersListable | src/notion_to_website.py:46-49 | every collected record is the record of one of the pages and has a title and at least one author |
| WebsiteFeed.InsertUnique | src/notion_to_website.py:178 | adding a topic to a strictly ascending list keeps it strictly ascending and adds exactly that topic |
| WebsiteFeed.SortedDistinct | src/notion_to_website.py:178-182 | the topics are strictly ascending (sorted, without repeats) and are exactly the given topics |
| WebsiteFeed.GenerateFeed | src/notion_to_website.py:165-184 | there is no feed iff there are no papers; otherwise the feed holds the same papers, newest first, the count, the generation time and exactly the distinct topics in ascending order |
| WebsiteFeed.LastUpdatedIsNewest | src/notion_to_website.py:183 | `last_updated` is the date of some paper, and no paper's date is later |
| WebsiteFeed.FeedKeepsSameDateOrder | src/notion_to_website.py:175 | papers with the same date keep their order from Notion |
| Pipeline.PropertiesOfFittingPaper | src/fetch_and_notion.py:229-265 | a title and topic within Notion's limits are sent unchanged, with the formatted authors, status "To Read" and the current time |
| Pipeline.RecordOfCleanPage | src/notion_to_website.py:60-163 | a page whose title is already clean and whose date is set is read back with that title, topic, status and date, and with the parsed authors |
| Pipeline.ShortAuthorListsSurvive | src/fetch_and_notion.py:21-22 | one to three clean author names written by `add_paper` are read back by `parse_paper` unchanged |
| Pipeline.LongAuthorListsAreCut | src/fetch_and_notion.py:23 | a longer list is read back as its first three names, the third carrying " et al." |
| Pipeline.MissingAuthorsShowUnknown | src/fetch_and_notion.py:19-20 | a paper without authors is listed with the single author "Unknown Author" |
| Pipeline.PaperSurvivesRoundTrip | src/notion_to_website.py:60-163 | a paper with a clean title of at most 2000 characters, a topic of at most 100 and one to three clean authors is listed with that title, topic and authors, status "To Read", and its creation time as its date |

## Left out

- Network access is not modelled:
  - the arXiv feed, Semantic Scholar, CrossRef and the Notion API;
  - `test_connection` and the lookup in `check_paper_exists`;
  - the POST in `add_paper`;
  - retries with back-off, and the cursor pagination of `fetch_all_papers`.
  What a call returns is a parameter instead: the feed entries and the citation lookups of `FetchTrending`, and the pages of `CollectPapers`.
- File and process work is not modelled:
  - PDF downloads;
  - the analysis cache;
  - the `./doctor_paper` subprocess, whose standard output is the parameter of `ExtractAnalysis`;
  - the JSON file written by `generate_papers_json`.
- Sleeps, environment variables and console output are not modelled.
- The current time is a parameter. The model does not parse dates:
  - times are whole microseconds, with no `strptime` and no time zone;
  - ISO date strings are compared as strings, as the sort does.
- src/research_paper_rag.py and src/debug.py are not part of this model. They wrap external retrieval and language-model libraries.
- ArxivFetch.TrendKey: the trend score `citation_count / days` is a float, modelled as an exact `real`. Rounding is not modelled.
- Strings.Lower: only ASCII letters are lower-cased. For the fixed exclusion keywords this decides containment exactly as Python does.
- ArxivFetch.SelectTopCited: a `citationCount` of JSON `null` makes Python's sort raise `TypeError`. The model takes counts as integers, with a missing count as 0.
- The `except` handlers are not modelled as such:
  - a topic whose feed processing raises is skipped;
  - `fetch_daily_papers` falls back from trending to top-cited to recent papers.
- WebsiteFeed.PaperOf: JSON `null`s and wrongly shaped pages make Python raise, and the `except` at src/notion_to_website.py:161-163 turns that into `None`. The model covers one such case only, a page without an id.
- NotionSync.BuildProperties: `None` passed as the value of an `authors`, `summary` or `pdf_url` key is treated like a missing key:
  - `format_authors(None)` gives "Unknown Author", as the model does;
  - a `None` summary gives the pending segment, as the model does;
  - a `None` URL is dropped, as the model does.
- NotionSync.BuildProperties: Notion's content limits beyond the title and topic truncation are not modelled. Neither is the rich-text content, which the code does not truncate.
- WebsiteFeed.PaperOf: the first `summary` assignment at src/notion_to_website.py:90-94 is dead code. It is overwritten at line 142 and is not modelled.
- WebsiteFeed.PaperOf: the "current time" used as a default date is one parameter for all pages. Python reads the clock once per page.
- Pipeline.PageOf: Notion is taken to store each property as sent and to hand back each rich-text object's content as its `plain_text`; the page's `url`, `created_time` and `last_edited_time` are not modelled in the round trip. This is an assumption about Notion, not a property of the code.

## Findings

| source | as written | input that shows it | evidently intended | confidence | as-written member | corrected member |
|---|---|---|---|---|---|---|
| src/fetch.py:305-342 | only the first ten papers of a topic are enriched with `trend_score`, yet the sort at line 342 reads `trend_score` from every paper, so any further paper raises `KeyError`; `fetch_daily_papers` (lines 360-364) then silently falls back to the top-cited list | a topic whose feed returns eleven or more entries (the query asks for up to 20) | records that were not enriched count as trend score 0 and the top 15 are returned | not executed | ArxivFetch.TrendingAsWrittenFailsOnEleven | ArxivFetch.TrendSelection |
| src/fetch_and_notion.py:320-330 | `'/abs/' in paper_url` raises `TypeError` when `paper_url` is `None`, and the handler catches only `IndexError` and `AttributeError` | a trending paper whose feed entry has no PDF link, so its `pdf_url` is `None` (src/fetch.py:289), passed first at src/fetch_and_notion.py:450 | `None` for any non-string argument, as the handler intends | not executed | NotionSync.ExtractArxivIdRaisesOnNone | NotionSync.ExtractArxivId |

Two places where the code is more precise than a plain description of it:

- A bold span `**X**` becomes one bold segment only when X holds no `**` and does not end in `*`. In `**a***` the first closing `**` is found one character early (`RichText.BoldThenStar`).
- The 2000-character fallback at src/fetch_and_notion.py:149 can never be taken. Every non-empty text produces at least one segment (`RichText.MarkdownRoundTrip`).
