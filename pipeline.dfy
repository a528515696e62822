/**
 * The two scripts together: a page written by src/fetch_and_notion.py (`add_paper`) and read
 * back by src/notion_to_website.py (`parse_paper`). Notion is taken to store each property as
 * sent and to hand back each rich-text object's content as its `plain_text`.
 */
module Pipeline {
  import opened Wrappers
  import opened Strings
  import NotionSync
  import WebsiteFeed
  import RichText

  /** The page `parse_paper` reads after `add_paper` sent `props` and Notion gave it `id`. */
  function PageOf(props: NotionSync.Properties, id: string): (page: WebsiteFeed.Page)
    ensures page.id == Some(id) && page.title == [props.title] && page.authors == [props.authors]
  {
    WebsiteFeed.Page(
      Some(id),
      None,
      [props.title],
      [props.arxivId],
      Some(props.topic),
      Some(props.status),
      seq(|props.summary|, k requires 0 <= k < |props.summary| => props.summary[k].content),
      props.pdfUrl,
      Some(props.created),
      [props.authors])
  }

  /** Up to three clean names come back from the website's author parser as they were. */
  lemma ShortAuthorListsSurvive(names: seq<string>)
    requires 1 <= |names| <= NotionSync.MaxAuthors
    requires WebsiteFeed.CleanNames(names)
    ensures WebsiteFeed.ParseAuthorsText(NotionSync.FormatAuthors(Some(names), NotionSync.MaxAuthors)) == names
  {
    assert NotionSync.FormatAuthors(Some(names), NotionSync.MaxAuthors) == Join(names, ", ") by {
      assert NotionSync.AuthorSep == ", ";
    }
    WebsiteFeed.ParseAuthorsOfJoin(names);
  }

  /** A longer list comes back cut to three names, the third carrying " et al.". */
  lemma LongAuthorListsAreCut(names: seq<string>)
    requires |names| > NotionSync.MaxAuthors
    requires WebsiteFeed.CleanNames(names)
    ensures WebsiteFeed.ParseAuthorsText(NotionSync.FormatAuthors(Some(names), NotionSync.MaxAuthors))
      == names[..2] + [names[2] + NotionSync.EtAl]
  {
    var shown := names[..3];
    JoinAppendLast(shown, NotionSync.AuthorSep, NotionSync.EtAl);
    var pieces := names[..2] + [names[2] + NotionSync.EtAl];
    assert shown[..2] == names[..2];
    assert pieces == shown[..|shown| - 1] + [Last(shown) + NotionSync.EtAl];
    var last := names[2] + NotionSync.EtAl;
    assert last[0] == names[2][0] && last[|last| - 1] == '.';
    assert ',' !in last && ';' !in last;
    assert WebsiteFeed.CleanName(pieces[2]);
    WebsiteFeed.ParseAuthorsOfJoin(pieces);
  }

  /** A paper without authors is shown with the single author "Unknown Author". */
  lemma MissingAuthorsShowUnknown(authors: Option<seq<string>>)
    requires authors.None? || authors.value == []
    ensures WebsiteFeed.ParseAuthorsText(NotionSync.FormatAuthors(authors, NotionSync.MaxAuthors)) == [WebsiteFeed.UnknownAuthor]
  {
    assert WebsiteFeed.CleanName(WebsiteFeed.UnknownAuthor);
    WebsiteFeed.ParseAuthorsOfJoin([WebsiteFeed.UnknownAuthor]);
  }

  /** The properties `add_paper` builds for a paper whose title and topic fit Notion's limits. */
  lemma PropertiesOfFittingPaper(data: NotionSync.PaperData, now: string)
    requires data.title.Some? && |data.title.value| <= NotionSync.TitleLimit
    requires data.topic.Some? && |data.topic.value| <= NotionSync.TopicLimit
    requires data.authors.Some?
    ensures var props := NotionSync.BuildProperties(data, now);
      props.title == data.title.value && props.topic == data.topic.value
      && props.authors == NotionSync.FormatAuthors(data.authors, NotionSync.MaxAuthors)
      && props.status == NotionSync.ToRead && props.created == now
  {
    var props := NotionSync.BuildProperties(data, now);
    assert props.title == data.title.value[..|props.title|];
    assert props.topic == data.topic.value[..|props.topic|];
  }

  /** The record `parse_paper` makes of a page whose title is already clean and whose date is set. */
  lemma RecordOfCleanPage(props: NotionSync.Properties, id: string, later: string)
    requires props.title != [] && IsStripped(props.title) && props.created != []
    ensures var r := WebsiteFeed.PaperOf(PageOf(props, id), later);
      r.Some? && r.value.title == props.title && r.value.topic == props.topic
      && r.value.authors == WebsiteFeed.ParseAuthorsText(props.authors)
      && r.value.status == props.status && r.value.date == props.created
  {
    assert WebsiteFeed.PlainText([props.title]) == props.title;
    assert WebsiteFeed.PlainText([props.authors]) == props.authors;
    StripOfStripped(props.title);
  }

  /**
   * A paper added with a clean title of at most 2000 characters, a topic of at most 100 and up
   * to three clean authors is listed on the website with that title, topic and authors, the
   * status "To Read" and the creation time as its date.
   */
  lemma PaperSurvivesRoundTrip(data: NotionSync.PaperData, now: string, id: string, later: string)
    requires data.title.Some? && data.title.value != [] && IsStripped(data.title.value) && |data.title.value| <= NotionSync.TitleLimit
    requires data.topic.Some? && |data.topic.value| <= NotionSync.TopicLimit
    requires data.authors.Some? && 1 <= |data.authors.value| <= NotionSync.MaxAuthors
    requires WebsiteFeed.CleanNames(data.authors.value)
    requires now != []
    ensures var r := WebsiteFeed.PaperOf(PageOf(NotionSync.BuildProperties(data, now), id), later);
      r.Some? && r.value.title == data.title.value && r.value.topic == data.topic.value
      && r.value.authors == data.authors.value && r.value.status == NotionSync.ToRead
      && r.value.date == now
  {
    PropertiesOfFittingPaper(data, now);
    RecordOfCleanPage(NotionSync.BuildProperties(data, now), id, later);
    ShortAuthorListsSurvive(data.authors.value);
  }
}
