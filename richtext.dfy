/**
 * The markdown-to-Notion rich-text converter of src/fetch_and_notion.py
 * (`NotionDatabase.parse_markdown_to_rich_text`): a left-to-right scanner that turns `**bold**`
 * and `*italic*` spans into annotated segments and keeps every other character, including
 * markers without a closing partner, as plain text.
 */
module RichText {
  import opened Strings

  /** One rich-text object: its content and its `bold` / `italic` annotations. */
  datatype Segment = Segment(content: string, bold: bool, italic: bool)

  function Plain(c: string): Segment { Segment(c, false, false) }
  function Bold(c: string): Segment { Segment(c, true, false) }
  function Italic(c: string): Segment { Segment(c, false, true) }

  const Pending: string := "Analysis pending..."

  /** Notion's limit on the content of the fallback segment. */
  const ContentLimit: int := 2000

  /** Appends the pending plain text, if there is any, as a segment. */
  function Flush(acc: seq<Segment>, current: string): seq<Segment>
  {
    if current != [] then acc + [Plain(current)] else acc
  }

  /** The scanner's variables: the index `i`, the pending plain text and the segments emitted. */
  datatype ScanState = ScanState(i: nat, current: string, acc: seq<Segment>)

  const Start: ScanState := ScanState(0, [], [])

  /** A `**` starts at `i` (and is not the last character). */
  predicate OpensBold(text: string, i: nat)
  {
    i < |text| - 1 && text[i..i + 2] == "**"
  }

  /** A `*` that is not the last character starts at `i`. */
  predicate OpensItalic(text: string, i: nat)
  {
    i < |text| - 1 && text[i] == '*'
  }

  /**
   * The `**` branch: flush the pending text, then emit the bold span up to the next `**`, or,
   * without one, keep the first `*` as pending text.
   */
  function BoldStep(text: string, s: ScanState): (t: ScanState)
    requires OpensBold(text, s.i)
    ensures s.i < t.i <= |text|
  {
    var acc' := Flush(s.acc, s.current);
    var end := Find(text, "**", s.i + 2);
    if end != -1 then ScanState(end + 2, [], acc' + [Bold(text[s.i + 2..end])])
    else ScanState(s.i + 1, [text[s.i]], acc')
  }

  /**
   * The `*` branch: flush the pending text, then emit the italic span up to the next `*`, or,
   * without one, keep the `*` as pending text.
   */
  function ItalicStep(text: string, s: ScanState): (t: ScanState)
    requires OpensItalic(text, s.i)
    ensures s.i < t.i <= |text|
  {
    var acc' := Flush(s.acc, s.current);
    var end := Find(text, "*", s.i + 1);
    if end != -1 then ScanState(end + 1, [], acc' + [Italic(text[s.i + 1..end])])
    else ScanState(s.i + 1, [text[s.i]], acc')
  }

  /** One iteration of the scanning loop, at an index inside the text. */
  function Step(text: string, s: ScanState): (t: ScanState)
    requires s.i < |text|
    ensures s.i < t.i <= |text|
  {
    if OpensBold(text, s.i) then BoldStep(text, s)
    else if OpensItalic(text, s.i) then ItalicStep(text, s)
    else ScanState(s.i + 1, s.current + [text[s.i]], s.acc)
  }

  /** The loop run to its end from state `s`, followed by the final flush of the pending text. */
  function Scan(text: string, s: ScanState): seq<Segment>
    decreases |text| - s.i
  {
    if s.i >= |text| then Flush(s.acc, s.current) else Scan(text, Step(text, s))
  }

  /** Scanning from a state inside the text is scanning from the state one iteration later. */
  lemma ScanOneStep(text: string, s: ScanState)
    requires s.i < |text|
    ensures Scan(text, s) == Scan(text, Step(text, s))
  {
  }

  /** What `parse_markdown_to_rich_text(text)` returns. */
  function MarkdownToRichText(text: string): seq<Segment>
  {
    if text == [] then [Plain(Pending)]
    else
      var r := Scan(text, Start);
      if r != [] then r else [Plain(Take(text, ContentLimit))]
  }

  /**
   * `parse_markdown_to_rich_text`: the scanning loop, which moves the index forward on every
   * iteration (by one character, or past a closing marker).
   */
  method ParseMarkdownToRichText(text: string) returns (richText: seq<Segment>)
    ensures richText == MarkdownToRichText(text)
    ensures text == [] ==> richText == [Plain(Pending)]
    ensures richText != []
    ensures text != [] ==> Render(richText) == text
  {
    if text == [] {
      return [Plain(Pending)];
    }
    var rich: seq<Segment> := [];
    var current: string := [];
    var i := 0;
    while i < |text|
      invariant i <= |text|
      invariant Scan(text, ScanState(i, current, rich)) == Scan(text, Start)
      decreases |text| - i
    {
      ghost var before := ScanState(i, current, rich);
      if i < |text| - 1 && text[i..i + 2] == "**" {
        i, current, rich := BoldBranch(text, i, current, rich);
      } else if text[i] == '*' && i < |text| - 1 {
        i, current, rich := ItalicBranch(text, i, current, rich);
      } else {
        current := current + [text[i]];
        i := i + 1;
      }
      assert ScanState(i, current, rich) == Step(text, before);
      ScanOneStep(text, before);
    }
    if current != [] {
      rich := rich + [Plain(current)];
    }
    assert rich == Scan(text, Start);
    MarkdownRoundTrip(text);
    richText := if rich != [] then rich else [Plain(Take(text, ContentLimit))];
  }

  /** The body of the loop on a `**`: flush the pending text, then emit the bold span or keep the `*`. */
  method BoldBranch(text: string, i: nat, current: string, rich: seq<Segment>)
    returns (i': nat, current': string, rich': seq<Segment>)
    requires OpensBold(text, i)
    ensures ScanState(i', current', rich') == BoldStep(text, ScanState(i, current, rich))
  {
    i', current', rich' := i, current, rich;
    if current' != [] {
      rich' := rich' + [Plain(current')];
      current' := [];
    }
    var end := Find(text, "**", i + 2);
    if end != -1 {
      rich' := rich' + [Bold(text[i + 2..end])];
      i' := end + 2;
    } else {
      current' := current' + [text[i]];
      i' := i + 1;
    }
  }

  /** The body of the loop on a `*`: flush the pending text, then emit the italic span or keep the `*`. */
  method ItalicBranch(text: string, i: nat, current: string, rich: seq<Segment>)
    returns (i': nat, current': string, rich': seq<Segment>)
    requires OpensItalic(text, i)
    ensures ScanState(i', current', rich') == ItalicStep(text, ScanState(i, current, rich))
  {
    i', current', rich' := i, current, rich;
    if current' != [] {
      rich' := rich' + [Plain(current')];
      current' := [];
    }
    var end := Find(text, "*", i + 1);
    if end != -1 {
      rich' := rich' + [Italic(text[i + 1..end])];
      i' := end + 1;
    } else {
      current' := current' + [text[i]];
      i' := i + 1;
    }
  }

  // ------------------------------------------------------------------ rendering back to markdown

  /** A segment written back as markdown. */
  function RenderSegment(s: Segment): string
  {
    if s.bold then "**" + s.content + "**"
    else if s.italic then "*" + s.content + "*"
    else s.content
  }

  /** Segments written back as markdown, one after the other. */
  function Render(segs: seq<Segment>): string
  {
    if segs == [] then [] else Render(segs[..|segs| - 1]) + RenderSegment(segs[|segs| - 1])
  }

  lemma RenderSnoc(segs: seq<Segment>, s: Segment)
    ensures Render(segs + [s]) == Render(segs) + RenderSegment(s)
  {
    assert (segs + [s])[..|segs|] == segs;
  }

  lemma RenderFlush(acc: seq<Segment>, current: string)
    ensures Render(Flush(acc, current)) == Render(acc) + current
  {
    if current != [] {
      RenderSnoc(acc, Plain(current));
    }
  }

  /** The text a state stands for: what is emitted, what is pending, and what is still to scan. */
  function Covered(text: string, s: ScanState): string
    requires s.i <= |text|
  {
    Render(s.acc) + s.current + text[s.i..]
  }

  /** A span between two markers, cut out of the rest of the text. */
  lemma MarkedSlices(text: string, i: nat, open: nat, end: nat, close: nat)
    requires i + open <= end && end + close <= |text|
    ensures text[i..] == (text[i..i + open] + text[i + open..end] + text[end..end + close]) + text[end + close..]
  {
  }

  /** A `*...*` span at `i`, closed at `end`, is the italic segment's markdown. */
  lemma ItalicSlices(text: string, i: nat, end: nat)
    requires i < end < |text| && text[i] == '*' && text[end] == '*'
    ensures text[i..] == RenderSegment(Italic(text[i + 1..end])) + text[end + 1..]
  {
    assert text[end..end + 1] == "*";
    assert text[i..i + 1] == "*";
    MarkedSlices(text, i, 1, end, 1);
  }

  /** A `**...**` span at `i`, closed at `end`, is the bold segment's markdown. */
  lemma BoldSlices(text: string, i: nat, end: nat)
    requires i + 2 <= end && end + 2 <= |text| && text[i..i + 2] == "**" && text[end..end + 2] == "**"
    ensures text[i..] == RenderSegment(Bold(text[i + 2..end])) + text[end + 2..]
  {
    MarkedSlices(text, i, 2, end, 2);
  }

  /** Flushing the pending text and emitting a segment that spells out the next characters loses nothing. */
  lemma EmitSpan(text: string, s: ScanState, seg: Segment, next: nat)
    requires s.i <= next <= |text| && text[s.i..] == RenderSegment(seg) + text[next..]
    ensures Covered(text, ScanState(next, [], Flush(s.acc, s.current) + [seg])) == Covered(text, s)
  {
    var flushed := Flush(s.acc, s.current);
    var rest := text[next..];
    calc {
      Covered(text, ScanState(next, [], flushed + [seg]));
      Render(flushed + [seg]) + [] + rest;
      { RenderSnoc(flushed, seg); }
      Render(flushed) + RenderSegment(seg) + rest;
      { RenderFlush(s.acc, s.current); }
      Render(s.acc) + s.current + RenderSegment(seg) + rest;
      Render(s.acc) + s.current + (RenderSegment(seg) + rest);
      Covered(text, s);
    }
  }

  /** Flushing the pending text and keeping the marker character as new pending text loses nothing. */
  lemma KeepMarker(text: string, s: ScanState)
    requires s.i < |text|
    ensures Covered(text, ScanState(s.i + 1, [text[s.i]], Flush(s.acc, s.current))) == Covered(text, s)
  {
    var rest := text[s.i + 1..];
    calc {
      Covered(text, ScanState(s.i + 1, [text[s.i]], Flush(s.acc, s.current)));
      Render(Flush(s.acc, s.current)) + [text[s.i]] + rest;
      { RenderFlush(s.acc, s.current); }
      Render(s.acc) + s.current + [text[s.i]] + rest;
      Render(s.acc) + s.current + ([text[s.i]] + rest);
      { assert text[s.i..] == [text[s.i]] + rest; }
      Covered(text, s);
    }
  }

  lemma BoldStepRender(text: string, s: ScanState)
    requires OpensBold(text, s.i)
    ensures Covered(text, BoldStep(text, s)) == Covered(text, s)
  {
    var i := s.i;
    var end := Find(text, "**", i + 2);
    var t := BoldStep(text, s);
    if end != -1 {
      var seg := Bold(text[i + 2..end]);
      assert t == ScanState(end + 2, [], Flush(s.acc, s.current) + [seg]);
      assert text[i..] == RenderSegment(seg) + text[end + 2..] by {
        assert ContainsAt(text, "**", end);
        BoldSlices(text, i, end);
      }
      EmitSpan(text, s, seg, end + 2);
    } else {
      assert t == ScanState(i + 1, [text[i]], Flush(s.acc, s.current));
      KeepMarker(text, s);
    }
  }

  lemma ItalicStepRender(text: string, s: ScanState)
    requires OpensItalic(text, s.i)
    ensures Covered(text, ItalicStep(text, s)) == Covered(text, s)
  {
    var i := s.i;
    var end := Find(text, "*", i + 1);
    var t := ItalicStep(text, s);
    if end != -1 {
      var seg := Italic(text[i + 1..end]);
      assert t == ScanState(end + 1, [], Flush(s.acc, s.current) + [seg]);
      assert text[i..] == RenderSegment(seg) + text[end + 1..] by {
        ItalicSlices(text, i, end);
      }
      EmitSpan(text, s, seg, end + 1);
    } else {
      assert t == ScanState(i + 1, [text[i]], Flush(s.acc, s.current));
      KeepMarker(text, s);
    }
  }

  /** One step loses nothing: the emitted segments, written back, take up what was scanned. */
  lemma StepRender(text: string, s: ScanState)
    requires s.i < |text|
    ensures Covered(text, Step(text, s)) == Covered(text, s)
  {
    if OpensBold(text, s.i) {
      BoldStepRender(text, s);
    } else if OpensItalic(text, s.i) {
      ItalicStepRender(text, s);
    } else {
      assert text[s.i..] == [text[s.i]] + text[s.i + 1..];
    }
  }

  /** Nothing is lost: the segments of a scan, written back, are the text the start state stands for. */
  lemma {:induction false} ScanRender(text: string, s: ScanState)
    requires s.i <= |text|
    ensures Render(Scan(text, s)) == Covered(text, s)
    decreases |text| - s.i
  {
    if s.i == |text| {
      RenderFlush(s.acc, s.current);
    } else {
      StepRender(text, s);
      ScanRender(text, Step(text, s));
    }
  }

  /** The scan emits at least one segment once there is anything to emit. */
  lemma {:induction false} ScanNonEmpty(text: string, s: ScanState)
    requires s.i < |text| || s.current != [] || s.acc != []
    ensures Scan(text, s) != []
    decreases |text| - s.i
  {
    if s.i < |text| {
      var t := Step(text, s);
      assert t.current != [] || t.acc != [];
      ScanNonEmpty(text, t);
    }
  }

  /**
   * The converter never returns an empty list, gives "Analysis pending..." exactly for empty text,
   * and otherwise loses nothing: its segments written back as markdown are the input. In
   * particular the `text[:2000]` fallback is never taken.
   */
  lemma MarkdownRoundTrip(text: string)
    ensures MarkdownToRichText(text) != []
    ensures text == [] <==> MarkdownToRichText(text) == [Plain(Pending)] && Pending != text
    ensures text != [] ==> MarkdownToRichText(text) == Scan(text, Start)
    ensures text != [] ==> Render(MarkdownToRichText(text)) == text
  {
    if text != [] {
      ScanNonEmpty(text, Start);
      ScanRender(text, Start);
      assert Render([]) + [] + text[0..] == text;
      if MarkdownToRichText(text) == [Plain(Pending)] && Pending != text {
        RenderSnoc([], Plain(Pending));
      }
    }
  }

  // ------------------------------------------------------------------ the shape of the segments

  /**
   * What every emitted segment looks like: plain text is non-empty; bold content holds no `**`
   * and does not end in `*` (the scanner stopped at the first closing `**`); italic content is
   * non-empty and holds no `*`; no segment is both bold and italic.
   */
  predicate WellFormed(s: Segment)
  {
    && !(s.bold && s.italic)
    && (!s.bold && !s.italic ==> s.content != [])
    && (s.bold ==> !Contains(s.content, "**") && (s.content == [] || s.content[|s.content| - 1] != '*'))
    && (s.italic ==> s.content != [] && '*' !in s.content)
  }

  predicate AllWellFormed(segs: seq<Segment>)
  {
    forall k :: 0 <= k < |segs| ==> WellFormed(segs[k])
  }

  /** The content of a bold segment: from `i + 2` up to the first `**` found from there. */
  lemma BoldContentWellFormed(text: string, i: nat, end: int)
    requires i + 2 <= |text| && end == Find(text, "**", i + 2) && end != -1
    ensures WellFormed(Bold(text[i + 2..end]))
  {
    FindSpec(text, "**", i + 2);
    var c := text[i + 2..end];
    NoOccurrenceIn(text, "**", i + 2, end);
    if c != [] {
      assert !ContainsAt(text, "**", end - 1);
      assert text[end..end + 2][0] == text[end];
      assert text[end - 1..end + 1] == [text[end - 1], text[end]];
    }
  }

  /** The content of an italic segment: from `i + 1` up to the first `*` found from there. */
  lemma ItalicContentWellFormed(text: string, i: nat, end: int)
    requires i + 1 < |text| && text[i + 1] != '*' && end == Find(text, "*", i + 1) && end != -1
    ensures WellFormed(Italic(text[i + 1..end]))
  {
    FindSpec(text, "*", i + 1);
    var c := text[i + 1..end];
    assert text[end..end + 1][0] == text[end];
    if '*' in c {
      var q :| 0 <= q < |c| && c[q] == '*';
      assert text[i + 1 + q..i + 1 + q + 1] == "*";
      assert ContainsAt(text, "*", i + 1 + q);
    }
  }

  lemma StepWellFormed(text: string, s: ScanState)
    requires s.i < |text| && AllWellFormed(s.acc)
    ensures AllWellFormed(Step(text, s).acc)
  {
    var i := s.i;
    assert AllWellFormed(Flush(s.acc, s.current));
    if OpensBold(text, i) {
      var end := Find(text, "**", i + 2);
      if end != -1 {
        BoldContentWellFormed(text, i, end);
      }
    } else if OpensItalic(text, i) {
      var end := Find(text, "*", i + 1);
      if end != -1 {
        assert text[i..i + 2] == [text[i], text[i + 1]];
        ItalicContentWellFormed(text, i, end);
      }
    }
  }

  lemma {:induction false} ScanWellFormed(text: string, s: ScanState)
    requires AllWellFormed(s.acc)
    ensures AllWellFormed(Scan(text, s))
    decreases |text| - s.i
  {
    if s.i < |text| {
      StepWellFormed(text, s);
      ScanWellFormed(text, Step(text, s));
    }
  }

  /** Every segment the converter returns is well formed. */
  lemma MarkdownWellFormed(text: string)
    ensures AllWellFormed(MarkdownToRichText(text))
  {
    if text != [] {
      ScanWellFormed(text, Start);
      ScanNonEmpty(text, Start);
    }
  }

  // ------------------------------------------------------------------ particular inputs

  /** Without a `*` before the last character the rest of the text joins the pending plain text. */
  lemma {:induction false} ScanPlainRun(text: string, s: ScanState)
    requires s.i <= |text|
    requires forall j :: s.i <= j < |text| - 1 ==> text[j] != '*'
    ensures Scan(text, s) == Flush(s.acc, s.current + text[s.i..])
    decreases |text| - s.i
  {
    var i := s.i;
    if i < |text| {
      if i < |text| - 1 {
        assert text[i..i + 2][0] == text[i];
      }
      assert Step(text, s) == ScanState(i + 1, s.current + [text[i]], s.acc);
      ScanPlainRun(text, Step(text, s));
      assert s.current + [text[i]] + text[i + 1..] == s.current + text[i..];
    } else {
      assert s.current + text[i..] == s.current;
    }
  }

  /**
   * Text with no `*` (a single `*` at the very end allowed) becomes one plain segment holding
   * the whole text.
   */
  lemma PlainText(text: string)
    requires text != []
    requires forall j :: 0 <= j < |text| - 1 ==> text[j] != '*'
    ensures MarkdownToRichText(text) == [Plain(text)]
  {
    ScanPlainRun(text, Start);
    assert [] + text[0..] == text;
  }

  /** `**x**` is one bold segment with content `x` when `x` holds no `**` and does not end in `*`. */
  lemma BoldSpan(x: string)
    requires !Contains(x, "**") && (x == [] || x[|x| - 1] != '*')
    ensures MarkdownToRichText("**" + x + "**") == [Bold(x)]
  {
    var text := "**" + x + "**";
    BoldSpanCloses(x);
    assert Step(text, Start) == ScanState(|text|, [], [Bold(x)]);
    ScanOneStep(text, Start);
  }

  /** In `**x**` the span opens at 0 and the first closing `**` is the final one. */
  lemma BoldSpanCloses(x: string)
    requires !Contains(x, "**") && (x == [] || x[|x| - 1] != '*')
    ensures var text := "**" + x + "**";
      OpensBold(text, 0) && Find(text, "**", 2) == |x| + 2 && text[2..|x| + 2] == x
  {
    var text := "**" + x + "**";
    var n := |x|;
    assert text[0..2] == "**";
    assert text[2 + n..2 + n + 2] == "**";
    forall j | 2 <= j < 2 + n ensures !ContainsAt(text, "**", j) {
      if j + 1 < 2 + n {
        assert text[j..j + 2] == x[j - 2..j];
        assert !ContainsAt(x, "**", j - 2);
      } else {
        assert text[j..j + 2][0] == text[j] == x[n - 1];
      }
    }
    FindAt(text, "**", 2, 2 + n);
    assert text[2..2 + n] == x;
  }

  /** `*x*` is one italic segment with content `x` when `x` is non-empty and holds no `*`. */
  lemma ItalicSpan(x: string)
    requires x != [] && '*' !in x
    ensures MarkdownToRichText("*" + x + "*") == [Italic(x)]
  {
    var text := "*" + x + "*";
    var n := |x|;
    assert text[1] == x[0];
    assert text[0..2] != "**" by {
      assert text[0..2][1] == text[1];
    }
    assert text[1 + n..1 + n + 1] == "*";
    forall j | 1 <= j < 1 + n ensures !ContainsAt(text, "*", j) {
      assert text[j..j + 1][0] == text[j] == x[j - 1];
    }
    FindAt(text, "*", 1, 1 + n);
    assert text[1..1 + n] == x;
    assert !OpensBold(text, 0) && OpensItalic(text, 0);
    assert Step(text, Start) == ScanState(|text|, [], [Italic(x)]);
    assert Scan(text, Start) == [Italic(x)];
  }

  /**
   * An opening `**` with no closing one stays literal: `**x` (with `x` non-empty and free of `*`)
   * gives the plain segments `*` and `*x`.
   */
  lemma UnclosedBold(x: string)
    requires x != [] && '*' !in x
    ensures MarkdownToRichText("**" + x) == [Plain("*"), Plain("*" + x)]
  {
    var text := "**" + x;
    assert text[0..2] == "**";
    forall j | 2 <= j ensures !ContainsAt(text, "**", j) && !ContainsAt(text, "*", j) {
      if j < |text| {
        assert text[j] == x[j - 2];
        if j + 1 <= |text| {
          assert text[j..j + 1][0] == text[j];
        }
        if j + 2 <= |text| {
          assert text[j..j + 2][0] == text[j];
        }
      }
    }
    FindNone(text, "**", 2);
    FindNone(text, "*", 2);
    assert text[2] == x[0];
    assert text[1..3] == [text[1], text[2]];
    assert OpensBold(text, 0) && !OpensBold(text, 1) && OpensItalic(text, 1);
    var s1 := Step(text, Start);
    assert s1 == ScanState(1, "*", []);
    var s2 := Step(text, s1);
    assert s2 == ScanState(2, "*", [Plain("*")]);
    ScanPlainRun(text, s2);
    assert text[2..] == x;
    assert Scan(text, Start) == Scan(text, s2);
  }

  /** `**a***` is bold `a` followed by a literal `*`: the first closing `**` wins. */
  lemma BoldThenStar()
    ensures MarkdownToRichText("**a***") == [Bold("a"), Plain("*")]
  {
    var text := "**a***";
    assert text[0..2] == "**";
    assert !ContainsAt(text, "**", 2) by {
      assert text[2..4][0] == 'a';
    }
    assert ContainsAt(text, "**", 3) by {
      assert text[3..5] == "**";
    }
    FindAt(text, "**", 2, 3);
    assert text[2..3] == "a";
    assert OpensBold(text, 0) && !OpensBold(text, 5) && !OpensItalic(text, 5);
    var s1 := Step(text, Start);
    assert s1 == ScanState(5, [], [Bold("a")]);
    var s2 := Step(text, s1);
    assert s2 == ScanState(6, "*", [Bold("a")]);
    ScanOneStep(text, Start);
    ScanOneStep(text, s1);
  }
}
