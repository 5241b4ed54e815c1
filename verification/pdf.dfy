/** `PdfProcessor.detect_chapters` of `epub_processor.py`: a state machine
    over (line text, font size) pairs that groups lines into chapters. Page
    layout extraction is outside the model; font sizes are exact reals. */
module PdfChapters {
  import opened Wrappers
  import opened Text

  /** A text line of the page layout with the largest font size among its characters. */
  datatype Line = Line(text: string, size: real)

  /** A chapter as `detect_chapters` emits it: `{'title': ..., 'content': ...}`. */
  datatype PdfChapter = PdfChapter(title: string, content: string)

  // ---------------------------------------------------------------------
  // The title pattern ^(Chapter|Chapitre|Part|Section|Titre)\s+\d+.*$
  // ---------------------------------------------------------------------

  /** The keywords of the title pattern, lower-cased. */
  const Keywords: seq<string> := ["chapter", "chapitre", "part", "section", "titre"]

  function AsciiLower(c: char): char {
    if 'A' <= c <= 'Z' then (c as int - 'A' as int + 'a' as int) as char else c
  }

  /** `s` starts with the lower-case word `kw`, letters compared without case. */
  predicate StartsWithIgnoreCase(s: string, kw: string) {
    |kw| <= |s| && forall i :: 0 <= i < |kw| ==> AsciiLower(s[i]) == kw[i]
  }

  /** What may follow the digits: `.*$` matches any run without a newline,
      and `$` also matches just before one final newline. */
  predicate RestOfLine(tail: string) {
    forall k :: 0 <= k < |tail| && tail[k] == '\n' ==> k == |tail| - 1
  }

  /** After a keyword: at least one whitespace character, a digit, then the rest of the line. */
  predicate NumberAfterKeyword(rest: string) {
    var w := SkipSpaces(rest, 0);
    w >= 1 && w < |rest| && IsDigit(rest[w]) && RestOfLine(rest[w + 1..])
  }

  /** `chapter_pattern.match(line)` succeeds: some keyword, tried in the
      pattern's order, matches at the start and is followed by a number. */
  predicate MatchesChapterPattern(line: string) {
    MatchesKeywordFrom(line, 0)
  }

  predicate MatchesKeywordFrom(line: string, k: nat)
    decreases |Keywords| - k
  {
    && k < |Keywords|
    && ((StartsWithIgnoreCase(line, Keywords[k]) && NumberAfterKeyword(line[|Keywords[k]|..]))
        || MatchesKeywordFrom(line, k + 1))
  }

  /** The test of `detect_chapters` that makes a line a title line. */
  predicate IsTitle(l: Line, threshold: real) {
    MatchesChapterPattern(l.text) || l.size >= threshold
  }

  /** The largest font size of a non-empty list of lines. */
  function MaxSize(lines: seq<Line>): (m: real)
    requires |lines| > 0
    ensures forall i :: 0 <= i < |lines| ==> lines[i].size <= m
    ensures exists i :: 0 <= i < |lines| && lines[i].size == m
    decreases |lines|
  {
    if |lines| == 1 then lines[0].size
    else
      var m := MaxSize(lines[..|lines| - 1]);
      var last := lines[|lines| - 1].size;
      assert forall i :: 0 <= i < |lines| - 1 ==> lines[..|lines| - 1][i] == lines[i];
      if last > m then last else m
  }

  /** `title_font_size_threshold`: nine tenths of the largest size, or 0 for no lines. */
  function Threshold(lines: seq<Line>): real {
    if |lines| == 0 then 0.0 else MaxSize(lines) * 0.9
  }

  // ---------------------------------------------------------------------
  // Reference grouping: sections headed by title lines
  // ---------------------------------------------------------------------

  /** A title line and the non-title lines that follow it up to the next title line. */
  datatype Section = Section(head: Line, body: seq<Line>)

  function Texts(lines: seq<Line>): (r: seq<string>)
    ensures |r| == |lines|
    ensures forall i :: 0 <= i < |lines| ==> r[i] == lines[i].text
  {
    seq(|lines|, i requires 0 <= i < |lines| => lines[i].text)
  }

  /** The sections of `lines`, defined one line at a time: a title line opens
      a section, any other line joins the open section, and lines before the
      first title line belong to none. */
  function Sections(lines: seq<Line>, threshold: real): seq<Section>
    decreases |lines|
  {
    if |lines| == 0 then []
    else
      var l := lines[|lines| - 1];
      AddLine(Sections(lines[..|lines| - 1], threshold), l, IsTitle(l, threshold))
  }

  /** One step of the grouping, with the title test already decided. */
  function AddLine(s: seq<Section>, l: Line, title: bool): seq<Section> {
    if title then s + [Section(l, [])]
    else if |s| == 0 then []
    else s[..|s| - 1] + [Section(s[|s| - 1].head, s[|s| - 1].body + [l])]
  }

  lemma SectionsSnoc(init: seq<Line>, l: Line, threshold: real)
    ensures Sections(init + [l], threshold) == AddLine(Sections(init, threshold), l, IsTitle(l, threshold))
  {
    assert (init + [l])[..|init|] == init;
  }

  /** The number of lines before the first title line. */
  function Preamble(lines: seq<Line>, threshold: real): (p: nat)
    ensures p <= |lines|
    ensures forall i :: 0 <= i < p ==> !IsTitle(lines[i], threshold)
    ensures p < |lines| ==> IsTitle(lines[p], threshold)
    decreases |lines|
  {
    if |lines| == 0 then 0
    else
      var init := lines[..|lines| - 1];
      var p := Preamble(init, threshold);
      assert forall i :: 0 <= i < |init| ==> init[i] == lines[i];
      if p < |lines| - 1 then p
      else if IsTitle(lines[|lines| - 1], threshold) then |lines| - 1
      else |lines|
  }

  /** The texts of the title lines, in order. */
  function TitleTexts(lines: seq<Line>, threshold: real): seq<string>
    decreases |lines|
  {
    if |lines| == 0 then []
    else
      var l := lines[|lines| - 1];
      TitleTexts(lines[..|lines| - 1], threshold) + (if IsTitle(l, threshold) then [l.text] else [])
  }

  /** The lines of the sections, each section's title line before its body. */
  function Flatten(s: seq<Section>): seq<Line>
    decreases |s|
  {
    if |s| == 0 then [] else Flatten(s[..|s| - 1]) + [s[|s| - 1].head] + s[|s| - 1].body
  }

  function Heads(s: seq<Section>): (r: seq<string>)
    ensures |r| == |s|
    ensures forall i :: 0 <= i < |s| ==> r[i] == s[i].head.text
  {
    seq(|s|, i requires 0 <= i < |s| => s[i].head.text)
  }

  /** Every section is headed by a title line and its body holds none. */
  predicate WellFormed(s: seq<Section>, threshold: real) {
    forall k :: 0 <= k < |s| ==> SectionOk(s[k], threshold)
  }

  predicate SectionOk(sec: Section, threshold: real) {
    IsTitle(sec.head, threshold) && forall j :: 0 <= j < |sec.body| ==> !IsTitle(sec.body[j], threshold)
  }

  /** A grouping step adds the line at the end of the flattened sections,
      unless no section is open and the line is not a title. */
  lemma FlattenAddLine(s: seq<Section>, l: Line, title: bool)
    requires title || |s| > 0
    ensures Flatten(AddLine(s, l, title)) == Flatten(s) + [l]
  {
    if title {
      assert (s + [Section(l, [])])[..|s|] == s;
    } else {
      var last := s[|s| - 1];
      var s1 := s[..|s| - 1];
      var r := s1 + [Section(last.head, last.body + [l])];
      assert r[..|r| - 1] == s1;
    }
  }

  /** A grouping step adds a head exactly when the line is a title. */
  lemma HeadsAddLine(s: seq<Section>, l: Line, title: bool)
    ensures Heads(AddLine(s, l, title)) == Heads(s) + (if title then [l.text] else [])
  {
  }

  /** There are no sections exactly when no line is a title line. */
  lemma {:induction false} SectionsEmpty(lines: seq<Line>, threshold: real)
    ensures |Sections(lines, threshold)| == 0 <==> Preamble(lines, threshold) == |lines|
    decreases |lines|
  {
    if |lines| > 0 {
      var init := lines[..|lines| - 1];
      var l := lines[|lines| - 1];
      SectionsEmpty(init, threshold);
      var p0 := Preamble(init, threshold);
      var p := Preamble(lines, threshold);
      if p0 < |init| {
        assert lines[p0] == init[p0];
        assert p <= p0;
      } else if !IsTitle(l, threshold) {
        assert forall i :: 0 <= i < |init| ==> lines[i] == init[i];
        assert p == |lines|;
      }
    }
  }

  /** The first title line of `lines` is that of its prefix without the last
      line, when the prefix has one, and otherwise the last line if it is a title. */
  lemma PreambleSnoc(lines: seq<Line>, threshold: real)
    requires |lines| > 0
    ensures var init := lines[..|lines| - 1];
      var p0 := Preamble(init, threshold);
      Preamble(lines, threshold) ==
        if p0 < |init| then p0
        else if IsTitle(lines[|lines| - 1], threshold) then |init|
        else |lines|
  {
    var init := lines[..|lines| - 1];
    var p0 := Preamble(init, threshold);
    assert forall i :: 0 <= i < |init| ==> lines[i] == init[i];
  }

  /** Read back in order, the sections give exactly the lines from the first
      title line on. */
  lemma {:induction false} SectionsFlatten(lines: seq<Line>, threshold: real)
    ensures Flatten(Sections(lines, threshold)) == lines[Preamble(lines, threshold)..]
    decreases |lines|
  {
    if |lines| > 0 {
      var init := lines[..|lines| - 1];
      var l := lines[|lines| - 1];
      var s0 := Sections(init, threshold);
      var p0 := Preamble(init, threshold);
      var title := IsTitle(l, threshold);
      SectionsFlatten(init, threshold);
      SectionsEmpty(init, threshold);
      PreambleSnoc(lines, threshold);
      if title || |s0| > 0 {
        FlattenAddLine(s0, l, title);
        FlattenTail(lines, p0);
      }
    }
  }

  /** The lines from `p` on are those of the prefix without the last line, then the last line. */
  lemma FlattenTail(lines: seq<Line>, p: nat)
    requires p < |lines|
    ensures lines[p..] == lines[..|lines| - 1][p..] + [lines[|lines| - 1]]
  {
  }

  /** Every section is headed by a title line and no body line is one. */
  lemma {:induction false} SectionsWellFormed(lines: seq<Line>, threshold: real)
    ensures WellFormed(Sections(lines, threshold), threshold)
    decreases |lines|
  {
    if |lines| > 0 {
      var init := lines[..|lines| - 1];
      var l := lines[|lines| - 1];
      SectionsWellFormed(init, threshold);
      var s0 := Sections(init, threshold);
      if !IsTitle(l, threshold) && |s0| > 0 {
        assert SectionOk(s0[|s0| - 1], threshold);
      }
    }
  }

  /** The section heads are the title lines, in input order. */
  lemma {:induction false} SectionsHeads(lines: seq<Line>, threshold: real)
    ensures Heads(Sections(lines, threshold)) == TitleTexts(lines, threshold)
    decreases |lines|
  {
    if |lines| > 0 {
      var init := lines[..|lines| - 1];
      var l := lines[|lines| - 1];
      SectionsHeads(init, threshold);
      HeadsAddLine(Sections(init, threshold), l, IsTitle(l, threshold));
    }
  }

  /** The count of sections: one per title line. */
  lemma SectionsCount(lines: seq<Line>, threshold: real)
    ensures |Sections(lines, threshold)| == |TitleTexts(lines, threshold)|
  {
    SectionsHeads(lines, threshold);
  }

  // ---------------------------------------------------------------------
  // detect_chapters as written
  // ---------------------------------------------------------------------

  /** The chapter a section becomes: its title text and its body lines joined by newlines. */
  function ToChapter(sec: Section): PdfChapter {
    PdfChapter(sec.head.text, Join("\n", Texts(sec.body)))
  }

  /** The chapters `detect_chapters` emits: `if current_chapter:` treats an
      empty title as no title, so a section whose title line is the empty
      string is dropped, body and all. */
  function EmitNonEmpty(s: seq<Section>): seq<PdfChapter>
    decreases |s|
  {
    if |s| == 0 then []
    else
      var last := s[|s| - 1];
      EmitNonEmpty(s[..|s| - 1]) + (if last.head.text != "" then [ToChapter(last)] else [])
  }

  /** The local variables of the loop of `detect_chapters`: the chapters so
      far, `current_chapter` and `current_content`. */
  datatype Scan = Scan(chapters: seq<PdfChapter>, current: string, content: seq<string>)

  /** One iteration of the loop, on a line whose title test gave `title`. */
  function ScanStep(st: Scan, l: Line, title: bool): Scan {
    if title then
      if st.current != "" then Scan(st.chapters + [PdfChapter(st.current, Join("\n", st.content))], l.text, [])
      else Scan(st.chapters, l.text, st.content)
    else if st.current != "" then Scan(st.chapters, st.current, st.content + [l.text])
    else st
  }

  /** The loop run over `lines`, from no chapter, no title and no content. */
  function ScanLines(lines: seq<Line>, threshold: real): Scan
    decreases |lines|
  {
    if |lines| == 0 then Scan([], "", [])
    else
      var l := lines[|lines| - 1];
      ScanStep(ScanLines(lines[..|lines| - 1], threshold), l, IsTitle(l, threshold))
  }

  /** After the loop: the last chapter is appended when there is a current title. */
  function ScanFinish(st: Scan): seq<PdfChapter> {
    if st.current != "" then st.chapters + [PdfChapter(st.current, Join("\n", st.content))]
    else st.chapters
  }

  /** The loop state that corresponds to the sections read so far: the
      current title is the open section's, the chapters are the earlier
      sections with a non-empty title, and the content is the open section's
      body when its title is not empty. */
  predicate ScanAgrees(s: seq<Section>, st: Scan) {
    && (|s| == 0 ==> st == Scan([], "", []))
    && (|s| > 0 ==>
          && st.current == s[|s| - 1].head.text
          && st.chapters == EmitNonEmpty(s[..|s| - 1])
          && st.content == (if st.current != "" then Texts(s[|s| - 1].body) else []))
  }

  /** One loop iteration keeps the loop state in step with the grouping. */
  lemma ScanStepAgrees(s: seq<Section>, st: Scan, l: Line, title: bool)
    requires ScanAgrees(s, st)
    ensures ScanAgrees(AddLine(s, l, title), ScanStep(st, l, title))
  {
    var s1 := AddLine(s, l, title);
    if title {
      assert s1[..|s1| - 1] == s;
    } else if |s| > 0 && st.current != "" {
      var last := s[|s| - 1];
      assert s1[..|s1| - 1] == s[..|s| - 1];
      assert Texts(last.body + [l]) == Texts(last.body) + [l.text];
    } else if |s| > 0 {
      assert s1[..|s1| - 1] == s[..|s| - 1];
    }
  }

  lemma {:induction false} ScanLinesAgrees(lines: seq<Line>, threshold: real)
    ensures ScanAgrees(Sections(lines, threshold), ScanLines(lines, threshold))
    decreases |lines|
  {
    if |lines| > 0 {
      var init := lines[..|lines| - 1];
      var l := lines[|lines| - 1];
      ScanLinesAgrees(init, threshold);
      ScanStepAgrees(Sections(init, threshold), ScanLines(init, threshold), l, IsTitle(l, threshold));
    }
  }

  /** `detect_chapters(text_content)` as written: the single pass with a
      current title and a list of pending content lines. It emits the
      sections of the reference grouping whose title text is not empty, in
      order; an empty input gives no chapter. */
  function DetectChapters(lines: seq<Line>): (chapters: seq<PdfChapter>)
    ensures chapters == EmitNonEmpty(Sections(lines, Threshold(lines)))
    ensures |lines| == 0 ==> chapters == []
  {
    var threshold := Threshold(lines);
    ScanLinesAgrees(lines, threshold);
    ScanFinish(ScanLines(lines, threshold))
  }

  /** The titles `detect_chapters` emits are the non-empty title-line texts, in order. */
  function NonEmpty(texts: seq<string>): seq<string>
    decreases |texts|
  {
    if |texts| == 0 then []
    else NonEmpty(texts[..|texts| - 1]) + (if texts[|texts| - 1] != "" then [texts[|texts| - 1]] else [])
  }

  function ChapterTitles(cs: seq<PdfChapter>): (r: seq<string>)
    ensures |r| == |cs|
    ensures forall i :: 0 <= i < |cs| ==> r[i] == cs[i].title
  {
    seq(|cs|, i requires 0 <= i < |cs| => cs[i].title)
  }

  lemma {:induction false} EmitNonEmptyTitles(s: seq<Section>)
    ensures ChapterTitles(EmitNonEmpty(s)) == NonEmpty(Heads(s))
    decreases |s|
  {
    if |s| > 0 {
      EmitNonEmptyTitles(s[..|s| - 1]);
      assert Heads(s)[..|s| - 1] == Heads(s[..|s| - 1]);
    }
  }

  /** As written: one chapter for every title line whose text is not empty,
      titled by that text, in input order. */
  lemma DetectChaptersTitles(lines: seq<Line>)
    ensures ChapterTitles(DetectChapters(lines)) == NonEmpty(TitleTexts(lines, Threshold(lines)))
  {
    SectionsHeads(lines, Threshold(lines));
    EmitNonEmptyTitles(Sections(lines, Threshold(lines)));
  }

  /** The pattern is the alternation of its keywords: it matches exactly when
      one keyword, followed by whitespace and a digit, starts the line. */
  predicate KeywordMatch(line: string, k: nat)
    requires k < |Keywords|
  {
    StartsWithIgnoreCase(line, Keywords[k]) && NumberAfterKeyword(line[|Keywords[k]|..])
  }

  lemma {:induction false} MatchesKeywordFromIff(line: string, k: nat)
    ensures MatchesKeywordFrom(line, k) <==> exists j :: k <= j < |Keywords| && KeywordMatch(line, j)
    decreases |Keywords| - k
  {
    if k < |Keywords| {
      MatchesKeywordFromIff(line, k + 1);
      if KeywordMatch(line, k) {
        assert k <= k < |Keywords| && KeywordMatch(line, k);
      }
      if exists j :: k <= j < |Keywords| && KeywordMatch(line, j) {
        var j :| k <= j < |Keywords| && KeywordMatch(line, j);
        assert j == k || (k + 1 <= j < |Keywords| && KeywordMatch(line, j));
      }
    }
  }

  /** A line whose first letter starts no keyword is not matched by the pattern. */
  lemma NoKeywordInitial(line: string)
    requires |line| > 0
    requires AsciiLower(line[0]) !in {'c', 'p', 's', 't'}
    ensures !MatchesChapterPattern(line)
  {
    MatchesKeywordFromIff(line, 0);
    forall j | 0 <= j < |Keywords|
      ensures !KeywordMatch(line, j)
    {
      assert Keywords[j][0] in {'c', 'p', 's', 't'};
    }
  }

  /** The two lines of the example below: an empty line in the largest font
      and an ordinary sentence. */
  const EmptyTitleLine := Line("", 12.0)
  const BodyLine := Line("Il était une fois", 10.0)

  lemma ExampleThreshold()
    ensures Threshold([EmptyTitleLine, BodyLine]) == 10.8
  {
    var lines := [EmptyTitleLine, BodyLine];
    assert lines[..1] == [EmptyTitleLine];
    assert MaxSize([EmptyTitleLine]) == 12.0;
  }

  lemma ExampleSections()
    ensures Sections([EmptyTitleLine, BodyLine], 10.8) == [Section(EmptyTitleLine, [BodyLine])]
    ensures TitleTexts([EmptyTitleLine, BodyLine], 10.8) == [""]
  {
    var a := EmptyTitleLine;
    var b := BodyLine;
    assert !IsTitle(b, 10.8) by {
      assert AsciiLower(b.text[0]) == 'i';
      NoKeywordInitial(b.text);
    }
    assert IsTitle(a, 10.8);
    var s1 := Sections([a], 10.8);
    assert s1 == [Section(a, [])] by {
      SectionsSnoc([], a, 10.8);
    }
    assert AddLine(s1, b, false) == [Section(a, [b])] by {
      assert s1[..0] == [];
      assert s1[0].body + [b] == [b];
    }
    assert Sections([a, b], 10.8) == AddLine(s1, b, false) by {
      SectionsSnoc([a], b, 10.8);
      assert [a] + [b] == [a, b];
    }
    assert [a, b][..1] == [a];
    assert TitleTexts([a], 10.8) == [""];
  }

  /** As written, a non-empty input whose largest line has empty text loses
      that line's section: here one title line and one body line give no chapter. */
  lemma EmptyTitleDropsChapter()
    ensures var lines := [EmptyTitleLine, BodyLine];
      && Threshold(lines) == 10.8
      && TitleTexts(lines, Threshold(lines)) == [""]
      && DetectChapters(lines) == []
  {
    ExampleThreshold();
    ExampleSections();
    var s := [Section(EmptyTitleLine, [BodyLine])];
    assert EmitNonEmpty(s) == [] by {
      assert s[..0] == [];
    }
  }

  // ---------------------------------------------------------------------
  // detect_chapters corrected
  // ---------------------------------------------------------------------

  /** Every section becomes a chapter. */
  function EmitAll(s: seq<Section>): (r: seq<PdfChapter>)
    ensures |r| == |s|
    ensures forall i :: 0 <= i < |s| ==> r[i] == ToChapter(s[i])
  {
    seq(|s|, i requires 0 <= i < |s| => ToChapter(s[i]))
  }

  /** The loop state of the corrected pass: the current title is optional
      rather than possibly empty. */
  datatype FixedScan = FixedScan(chapters: seq<PdfChapter>, current: Option<string>, content: seq<string>)

  function FixedStep(st: FixedScan, l: Line, title: bool): FixedScan {
    if title then
      if st.current.Some? then FixedScan(st.chapters + [PdfChapter(st.current.value, Join("\n", st.content))], Some(l.text), [])
      else FixedScan(st.chapters, Some(l.text), st.content)
    else if st.current.Some? then FixedScan(st.chapters, st.current, st.content + [l.text])
    else st
  }

  function FixedLines(lines: seq<Line>, threshold: real): FixedScan
    decreases |lines|
  {
    if |lines| == 0 then FixedScan([], None, [])
    else
      var l := lines[|lines| - 1];
      FixedStep(FixedLines(lines[..|lines| - 1], threshold), l, IsTitle(l, threshold))
  }

  function FixedFinish(st: FixedScan): seq<PdfChapter> {
    if st.current.Some? then st.chapters + [PdfChapter(st.current.value, Join("\n", st.content))]
    else st.chapters
  }

  predicate FixedAgrees(s: seq<Section>, st: FixedScan) {
    && (|s| == 0 ==> st == FixedScan([], None, []))
    && (|s| > 0 ==>
          && st.current == Some(s[|s| - 1].head.text)
          && st.chapters == EmitAll(s[..|s| - 1])
          && st.content == Texts(s[|s| - 1].body))
  }

  lemma FixedStepAgrees(s: seq<Section>, st: FixedScan, l: Line, title: bool)
    requires FixedAgrees(s, st)
    ensures FixedAgrees(AddLine(s, l, title), FixedStep(st, l, title))
  {
    var s1 := AddLine(s, l, title);
    if title {
      assert s1[..|s1| - 1] == s;
      if |s| > 0 {
        assert EmitAll(s) == EmitAll(s[..|s| - 1]) + [ToChapter(s[|s| - 1])];
      }
    } else if |s| > 0 {
      var last := s[|s| - 1];
      assert s1[..|s1| - 1] == s[..|s| - 1];
      assert Texts(last.body + [l]) == Texts(last.body) + [l.text];
    }
  }

  lemma {:induction false} FixedLinesAgrees(lines: seq<Line>, threshold: real)
    ensures FixedAgrees(Sections(lines, threshold), FixedLines(lines, threshold))
    decreases |lines|
  {
    if |lines| > 0 {
      var init := lines[..|lines| - 1];
      var l := lines[|lines| - 1];
      FixedLinesAgrees(init, threshold);
      FixedStepAgrees(Sections(init, threshold), FixedLines(init, threshold), l, IsTitle(l, threshold));
    }
  }

  /** `detect_chapters` with `current_chapter` tested against `None` rather
      than for truthiness: every title line opens a chapter, whatever its text. */
  function DetectChaptersFixed(lines: seq<Line>): (chapters: seq<PdfChapter>)
    ensures chapters == EmitAll(Sections(lines, Threshold(lines)))
    ensures |lines| == 0 ==> chapters == []
  {
    var threshold := Threshold(lines);
    var st := FixedLines(lines, threshold);
    var s := Sections(lines, threshold);
    FixedLinesAgrees(lines, threshold);
    assert |s| > 0 ==> EmitAll(s) == EmitAll(s[..|s| - 1]) + [ToChapter(s[|s| - 1])];
    FixedFinish(st)
  }

  /** Corrected: exactly one chapter per title line, titled by that line, in
      input order, with the body lines that follow it up to the next title line. */
  lemma DetectChaptersFixedTitles(lines: seq<Line>)
    ensures ChapterTitles(DetectChaptersFixed(lines)) == TitleTexts(lines, Threshold(lines))
  {
    var s := Sections(lines, Threshold(lines));
    SectionsHeads(lines, Threshold(lines));
    assert ChapterTitles(EmitAll(s)) == Heads(s);
  }

  /** Corrected: with non-negative font sizes a non-empty input yields at
      least one chapter, since the line of largest size is a title line. */
  lemma DetectChaptersFixedNonEmpty(lines: seq<Line>)
    requires |lines| > 0
    requires forall i :: 0 <= i < |lines| ==> lines[i].size >= 0.0
    ensures |DetectChaptersFixed(lines)| >= 1
  {
    var t := Threshold(lines);
    var m := MaxSize(lines);
    var i :| 0 <= i < |lines| && lines[i].size == m;
    assert IsTitle(lines[i], t);
    SectionsEmpty(lines, t);
    var p := Preamble(lines, t);
    assert p <= i;
  }
}
