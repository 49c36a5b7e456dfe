/**
 * The DJG content filter: a line classifier followed by paragraph merging.
 *
 * Each stripped, non-blank line is dropped when it looks like a header or
 * footer, kept when it is a chapter title, dropped when it is a UI element or
 * metadata, and otherwise kept when it looks like article text. The kept
 * lines are then grouped into paragraphs: a chapter title always forms a
 * paragraph of its own, and a line joins the open paragraph when it is short
 * or starts with a lower-case letter or a Chinese punctuation mark.
 */
module DjgFilter {
  import opened TextUtil

  const Description: string := "DJG定制过滤策略，适用于特定格式文档的内容提取"

  /** The class `[一二三四五六七八九十]`. */
  predicate IsChineseNumeral(c: char) {
    c == '一' || c == '二' || c == '三' || c == '四' || c == '五'
    || c == '六' || c == '七' || c == '八' || c == '九' || c == '十'
  }

  predicate IsNumeralOrDigit(c: char) { IsChineseNumeral(c) || IsDigit(c) }

  predicate IsChapterSeparator(c: char) { c == '、' || c == '．' }

  const UiKeywords: seq<string> :=
    ["点击", "按钮", "菜单", "链接", "返回", "下一页", "上一页",
     "确定", "取消", "提交", "重置", "登录", "注册",
     "Click", "Button", "Menu", "Link"]

  const HeaderFooterLiterals: seq<string> := ["页码", "版权所有", "Copyright", "保留所有权利"]

  const MetadataLabels: seq<string> := ["作者", "发布时间", "来源"]

  // ---------------------------------------------------------------------------
  // Character classes

  /** A character of the class `[^一-鿿\w\s]`. */
  predicate IsSpecialChar(c: char) {
    !IsCjk(c) && !IsWordChar(c) && !IsSpace(c)
  }

  function SpecialCount(line: string): (n: nat)
    ensures n <= |line|
  {
    CountWhere(line, IsSpecialChar)
  }

  predicate IsLabelColon(c: char) { c == ':' || c == '：' }

  // ---------------------------------------------------------------------------
  // Header and footer

  /** Blanks before `a`, digits in `[a, b)`, blanks from `b` on. */
  predicate PaddedNumber(line: string, a: int, b: int) {
    && 0 <= a < b <= |line|
    && CharsBetween(line, 0, a, IsSpace)
    && CharsBetween(line, a, b, IsDigit)
    && CharsBetween(line, b, |line|, IsSpace)
  }

  /** `re.match(r'^\s*\d+\s*$', line)`: a bare page number, possibly padded. */
  predicate IsPageNumberLine(line: string) {
    exists a, b | 0 <= a < b <= |line| :: PaddedNumber(line, a, b)
  }

  /** `re.search(r'© 20\d{2}', line)`. */
  predicate HasCopyrightYear(line: string) {
    exists i | 0 <= i <= |line| :: OccursAt(line, "© 20", i) && DigitsAt(line, i + 4, 2)
  }

  /** `_is_header_footer`: a page number or one of the header and footer keywords. */
  predicate IsHeaderFooter(line: string) {
    || IsPageNumberLine(line)
    || ContainsAny(line, HeaderFooterLiterals)
    || HasThenOnLine(line, "第", "页")
    || HasThenOnLine(line, "共", "页")
    || HasCopyrightYear(line)
    || HasYearMonth(line)
  }

  // ---------------------------------------------------------------------------
  // Chapter titles

  /** `re.match(r'^第[一二三四五六七八九十\d]+章', line)`. */
  predicate IsChapterHeading(line: string) {
    exists k | 2 <= k < |line| ::
      && line[0] == '第'
      && CharsBetween(line, 1, k, IsNumeralOrDigit)
      && line[k] == '章'
  }

  /** `re.match(r'^\d+\.\d+', line)`. */
  predicate IsSectionNumber(line: string) {
    exists k | 1 <= k && k + 1 < |line| :: DigitsAt(line, 0, k) && line[k] == '.' && IsDigit(line[k + 1])
  }

  /** `re.match(r'^[一二三四五六七八九十]+、', line)`. */
  predicate IsChineseNumberedItem(line: string) {
    exists k | 1 <= k < |line| :: CharsBetween(line, 0, k, IsChineseNumeral) && line[k] == '、'
  }

  /** `_is_chapter_title`. */
  predicate IsChapterTitle(line: string) {
    || IsChapterHeading(line)
    || IsSectionNumber(line)
    || IsChineseNumberedItem(line)
    || NumberThen(line, IsChapterSeparator)
  }

  // ---------------------------------------------------------------------------
  // UI elements, metadata, article text

  /** `_is_ui_element`: a short line with a UI keyword, or more than half special characters. */
  predicate IsUiElement(line: string) {
    (|line| < 15 && ContainsAny(line, UiKeywords)) || 10 * SpecialCount(line) > 5 * |line|
  }

  /** `\d{4}-\d{2}-\d{2}` at `i`. */
  predicate IsoDateAt(line: string, i: int) {
    DigitsAt(line, i, 4) && i + 4 < |line| && line[i + 4] == '-'
    && DigitsAt(line, i + 5, 2) && i + 7 < |line| && line[i + 7] == '-' && DigitsAt(line, i + 8, 2)
  }

  /** `\d{2}:\d{2}:\d{2}` at `i`. */
  predicate ClockTimeAt(line: string, i: int) {
    DigitsAt(line, i, 2) && i + 2 < |line| && line[i + 2] == ':'
    && DigitsAt(line, i + 3, 2) && i + 5 < |line| && line[i + 5] == ':' && DigitsAt(line, i + 6, 2)
  }

  /** One of the labels 作者, 发布时间, 来源 followed by a colon, ASCII or full-width. */
  predicate LabelAt(line: string, i: int) {
    exists k | 0 <= k < |MetadataLabels| ::
      OccursAt(line, MetadataLabels[k], i) && i + |MetadataLabels[k]| < |line|
      && IsLabelColon(line[i + |MetadataLabels[k]|])
  }

  /** `字数[:：]\d+` at `i`. */
  predicate WordCountAt(line: string, i: int) {
    OccursAt(line, "字数", i) && i + 3 < |line| && IsLabelColon(line[i + 2]) && IsDigit(line[i + 3])
  }

  /** `_is_metadata`. */
  predicate IsMetadata(line: string) {
    exists i | 0 <= i < |line| :: IsoDateAt(line, i) || ClockTimeAt(line, i) || LabelAt(line, i) || WordCountAt(line, i)
  }

  /** `(.)\1{4,}` at `i`: five equal characters other than a line break. */
  predicate RepeatAt(line: string, i: int) {
    && 0 <= i && i + 5 <= |line| && line[i] != '\n'
    && line[i + 1] == line[i] && line[i + 2] == line[i] && line[i + 3] == line[i] && line[i + 4] == line[i]
  }

  /**
   * `_is_gibberish`: a run of five equal characters, or more special
   * characters than `len(line) * 0.6`, a double product compared exactly
   * with the count.
   */
  predicate IsGibberish(line: string) {
    || (exists i | 0 <= i < |line| :: RepeatAt(line, i))
    || SpecialCount(line) * TwoTo53 > DoubleProduct(|line|, SixTenthsSignificand)
  }

  /**
   * Away from a tie (a count of exactly 6/10 of the length) the double
   * product decides as the exact 60% would, for any line shorter than 2^47.
   */
  lemma SixtyPercentOffTies(line: string)
    requires 40 * |line| < TwoTo53
    requires 10 * SpecialCount(line) != 6 * |line|
    ensures SpecialCount(line) * TwoTo53 > DoubleProduct(|line|, SixTenthsSignificand)
            <==> 10 * SpecialCount(line) > 6 * |line|
  {
    SixTenthsClose(|line|);
  }

  /** At a tie the product is exact for these lengths: `5 * 0.6` is 3 and `90 * 0.6` is 54. */
  lemma SixtyPercentTies(line: string)
    ensures |line| == 5 && SpecialCount(line) == 3
            ==> SpecialCount(line) * TwoTo53 == DoubleProduct(|line|, SixTenthsSignificand)
    ensures |line| == 90 && SpecialCount(line) == 54
            ==> SpecialCount(line) * TwoTo53 == DoubleProduct(|line|, SixTenthsSignificand)
  {
    FiveTimesSixTenths();
    NinetyTimesSixTenths();
  }

  lemma FiveTimesSixTenths()
    ensures DoubleProduct(5, SixTenthsSignificand) == 3 * TwoTo53
  {
    assert RoundToDouble(5) == 5;
    assert Pow2(2) == 4;
    DroppedBitsOf(5 * SixTenthsSignificand, 2);
  }

  lemma NinetyTimesSixTenths()
    ensures DoubleProduct(90, SixTenthsSignificand) == 54 * TwoTo53
  {
    assert RoundToDouble(90) == 90;
    assert Pow2(6) == 64;
    DroppedBitsOf(90 * SixTenthsSignificand, 6);
  }

  /** `_is_main_content`: Chinese-leaning text longer than 8, or clean non-Chinese text longer than 10. */
  predicate IsMainContent(line: string) {
    && |line| >= 5
    && (|| (10 * CjkCount(line) > 3 * |line| && |line| > 8)
        || (10 * CjkCount(line) < 1 * |line| && |line| > 10 && !IsGibberish(line)))
  }

  /** The decision of the classification loop for one stripped, non-blank line. */
  predicate DjgKeep(line: string) {
    !IsHeaderFooter(line) && (IsChapterTitle(line) || (!IsUiElement(line) && !IsMetadata(line) && IsMainContent(line)))
  }

  /** The documented consequences of the keep decision. */
  lemma DjgKeepRules(line: string)
    ensures IsHeaderFooter(line) ==> !DjgKeep(line)
    ensures !IsHeaderFooter(line) && IsChapterTitle(line) ==> DjgKeep(line)
    ensures DjgKeep(line) && !IsChapterTitle(line) ==>
              !IsUiElement(line) && !IsMetadata(line) && IsMainContent(line) && |line| >= 5
  {
  }

  /** A bare page number is never kept, even though `^\d+` lines can look like chapter numbers. */
  lemma PageNumberNeverKept(line: string)
    requires line != [] && AllDigits(line)
    ensures !DjgKeep(line)
  {
    CharsBetweenIff(line, 0, |line|, IsDigit);
    assert PaddedNumber(line, 0, |line|);
  }

  /** Five equal characters in a row make a line gibberish. */
  lemma RepeatedCharacterIsGibberish(line: string, i: nat, c: char)
    requires i + 5 <= |line| && c != '\n'
    requires forall j | i <= j < i + 5 :: line[j] == c
    ensures IsGibberish(line)
  {
    assert RepeatAt(line, i);
  }

  // ---------------------------------------------------------------------------
  // Classification loop

  /** The lines the classification loop keeps, in order. */
  function KeptLines(text: string): seq<string> {
    FilterSeq(StrippedNonBlank(Split(text, '\n')), DjgKeep)
  }

  // ---------------------------------------------------------------------------
  // Paragraph merging

  /** `re.match(r'^[a-z，。；：]', line)`. */
  predicate StartsLowerOrPunct(line: string) {
    line != [] && (IsLower(line[0]) || (line[0] == '，' || line[0] == '。' || line[0] == '；' || line[0] == '：'))
  }

  /** `_should_merge_line`. */
  predicate ShouldMergeLine(line: string, current: seq<string>) {
    current == [] || |line| < 30 || StartsLowerOrPunct(line)
  }

  /** Finished paragraphs and the open one. */
  datatype Paragraphing = Paragraphing(done: seq<seq<string>>, current: seq<string>)

  /** The finished paragraphs followed by the open one, if any. */
  function Closed(p: Paragraphing): seq<seq<string>> {
    p.done + (if p.current != [] then [p.current] else [])
  }

  /*
   * The merge fold takes the title test as a parameter `title`; the filter
   * passes `IsChapterTitle`. Keeping the test abstract keeps the lemmas about
   * the fold independent of how titles are recognised.
   */

  /** One iteration of the merge loop. */
  function MergeStep(p: Paragraphing, line: string, title: string -> bool): Paragraphing {
    if title(line) then Paragraphing(Closed(p) + [[line]], [])
    else if ShouldMergeLine(line, p.current) then p.(current := p.current + [line])
    else Paragraphing(Closed(p), [line])
  }

  function MergeRun(lines: seq<string>, title: string -> bool): Paragraphing {
    if lines == [] then Paragraphing([], [])
    else MergeStep(MergeRun(lines[..|lines| - 1], title), lines[|lines| - 1], title)
  }

  /** The paragraphs `_merge_paragraphs` forms, as groups of lines. */
  function Paragraphs(lines: seq<string>, title: string -> bool): seq<seq<string>> {
    Closed(MergeRun(lines, title))
  }

  /** Each group joined with `sep`. */
  function JoinEach(groups: seq<seq<string>>, sep: string): (r: seq<string>)
    ensures |r| == |groups|
  {
    if groups == [] then [] else JoinEach(groups[..|groups| - 1], sep) + [Join(groups[|groups| - 1], sep)]
  }

  lemma JoinEachSnoc(groups: seq<seq<string>>, g: seq<string>, sep: string)
    ensures JoinEach(groups + [g], sep) == JoinEach(groups, sep) + [Join(g, sep)]
  {
    assert (groups + [g])[..|groups|] == groups;
  }

  /** The text `_merge_paragraphs` returns. */
  function MergedText(lines: seq<string>, title: string -> bool): string {
    Join(JoinEach(Paragraphs(lines, title), " "), "\n\n")
  }

  /** `_merge_paragraphs`. */
  method MergeParagraphs(lines: seq<string>) returns (result: string)
    ensures result == MergedText(lines, IsChapterTitle)
  {
    if |lines| == 0 {
      return "";
    }
    var merged: seq<string> := [];
    var currentParagraph: seq<string> := [];
    for i := 0 to |lines|
      invariant merged == JoinEach(MergeRun(lines[..i], IsChapterTitle).done, " ")
      invariant currentParagraph == MergeRun(lines[..i], IsChapterTitle).current
    {
      assert lines[..i + 1][..i] == lines[..i];
      ghost var p := MergeRun(lines[..i], IsChapterTitle);
      var line := lines[i];
      assert MergeRun(lines[..i + 1], IsChapterTitle) == MergeStep(p, line, IsChapterTitle);
      if IsChapterTitle(line) {
        assert MergeStep(p, line, IsChapterTitle) == Paragraphing(Closed(p) + [[line]], []);
        if currentParagraph != [] {
          merged := merged + [Join(currentParagraph, " ")];
          currentParagraph := [];
          JoinEachSnoc(p.done, p.current, " ");
        } else {
          assert Closed(p) == p.done;
        }
        assert merged == JoinEach(Closed(p), " ");
        merged := merged + [line];
        JoinEachSnoc(Closed(p), [line], " ");
        assert Join([line], " ") == line;
      } else {
        if ShouldMergeLine(line, currentParagraph) {
          assert MergeStep(p, line, IsChapterTitle) == p.(current := p.current + [line]);
          currentParagraph := currentParagraph + [line];
        } else {
          assert MergeStep(p, line, IsChapterTitle) == Paragraphing(Closed(p), [line]);
          if currentParagraph != [] {
            merged := merged + [Join(currentParagraph, " ")];
            JoinEachSnoc(p.done, p.current, " ");
          }
          currentParagraph := [line];
        }
      }
    }
    assert lines[..|lines|] == lines;
    ghost var p := MergeRun(lines, IsChapterTitle);
    if currentParagraph != [] {
      merged := merged + [Join(currentParagraph, " ")];
      JoinEachSnoc(p.done, currentParagraph, " ");
    } else {
      assert Closed(p) == p.done;
    }
    result := Join(merged, "\n\n");
  }

  /** A group every line of which after the first would have been merged into it. */
  predicate MergedGroup(g: seq<string>, title: string -> bool) {
    forall j | 0 < j < |g| :: !title(g[j]) && (|g[j]| < 30 || StartsLowerOrPunct(g[j]))
  }

  /** The shape of the paragraphs built so far. */
  predicate WellFormedParagraphs(groups: seq<seq<string>>, title: string -> bool) {
    forall k | 0 <= k < |groups| ::
      && groups[k] != []
      && MergedGroup(groups[k], title)
      && (title(groups[k][0]) ==> |groups[k]| == 1)
  }

  /**
   * Why `next` did not continue `prev`: one of them is a title, or the first
   * line of `next` is long and starts with neither a lower-case letter nor a
   * Chinese punctuation mark.
   */
  predicate ParagraphBreak(prev: seq<string>, next: seq<string>, title: string -> bool) {
    prev != [] && next != [] &&
    (title(prev[|prev| - 1]) || title(next[0]) || (|next[0]| >= 30 && !StartsLowerOrPunct(next[0])))
  }

  /** Every paragraph after the first starts for a reason. */
  ghost predicate ParagraphBreaks(groups: seq<seq<string>>, title: string -> bool) {
    forall i, j | 0 <= i < j < |groups| && j == i + 1 :: ParagraphBreak(groups[i], groups[j], title)
  }

  ghost predicate WellFormedRun(p: Paragraphing, lines: seq<string>, title: string -> bool) {
    && WellFormedParagraphs(p.done, title)
    && ParagraphBreaks(p.done, title)
    && MergedGroup(p.current, title)
    && (p.current != [] ==> !title(p.current[0]))
    && (p.done != [] && p.current != [] ==> ParagraphBreak(p.done[|p.done| - 1], p.current, title))
    && (p.done != [] && p.current == [] ==> title(p.done[|p.done| - 1][|p.done[|p.done| - 1]| - 1]))
    && Flatten(p.done) + p.current == lines
  }

  lemma BreaksSnoc(groups: seq<seq<string>>, g: seq<string>, title: string -> bool)
    requires ParagraphBreaks(groups, title)
    requires groups != [] ==> ParagraphBreak(groups[|groups| - 1], g, title)
    ensures ParagraphBreaks(groups + [g], title)
  {
    var all := groups + [g];
    forall i, j | 0 <= i < j < |all| && j == i + 1 ensures ParagraphBreak(all[i], all[j], title) {
      if j < |groups| {
        assert all[i] == groups[i] && all[j] == groups[j];
      }
    }
  }

  lemma WellFormedSnoc(groups: seq<seq<string>>, g: seq<string>, title: string -> bool)
    requires WellFormedParagraphs(groups, title)
    requires g != [] && MergedGroup(g, title) && (title(g[0]) ==> |g| == 1)
    ensures WellFormedParagraphs(groups + [g], title)
  {
    var all := groups + [g];
    forall k | 0 <= k < |all|
      ensures all[k] != [] && MergedGroup(all[k], title) && (title(all[k][0]) ==> |all[k]| == 1)
    {
      if k < |groups| {
        assert all[k] == groups[k];
      }
    }
  }

  lemma WellFormedClosed(p: Paragraphing, lines: seq<string>, title: string -> bool)
    requires WellFormedRun(p, lines, title)
    ensures WellFormedParagraphs(Closed(p), title)
    ensures ParagraphBreaks(Closed(p), title)
    ensures Flatten(Closed(p)) == lines
    ensures Closed(p) != [] ==> Closed(p)[|Closed(p)| - 1] != []
  {
    if p.current != [] {
      FlattenSnoc(p.done, p.current);
      WellFormedSnoc(p.done, p.current, title);
      BreaksSnoc(p.done, p.current, title);
    } else {
      assert Closed(p) == p.done;
    }
  }

  /** A title closes the open paragraph and stands alone. */
  lemma TitleStepWellFormed(p: Paragraphing, lines: seq<string>, line: string, title: string -> bool)
    requires WellFormedRun(p, lines, title) && title(line)
    ensures WellFormedRun(Paragraphing(Closed(p) + [[line]], []), lines + [line], title)
  {
    var groups := Closed(p);
    WellFormedClosed(p, lines, title);
    assert groups != [] ==> ParagraphBreak(groups[|groups| - 1], [line], title);
    FlattenSnoc(groups, [line]);
    WellFormedSnoc(groups, [line], title);
    BreaksSnoc(groups, [line], title);
    var done := groups + [[line]];
    assert done[|done| - 1] == [line];
    assert Flatten(done) + [] == lines + [line];
  }

  /** A line merged into the open paragraph. */
  lemma MergeLineWellFormed(p: Paragraphing, lines: seq<string>, line: string, title: string -> bool)
    requires WellFormedRun(p, lines, title) && !title(line) && ShouldMergeLine(line, p.current)
    ensures WellFormedRun(p.(current := p.current + [line]), lines + [line], title)
  {
    var c := p.current + [line];
    assert MergedGroup(c, title) by {
      forall j | 0 < j < |c|
        ensures !title(c[j]) && (|c[j]| < 30 || StartsLowerOrPunct(c[j]))
      {
        if j < |p.current| {
          assert c[j] == p.current[j];
        }
      }
    }
    assert c[0] == (if p.current == [] then line else p.current[0]);
    assert Flatten(p.done) + c == lines + [line];
  }

  /** A long line that does not continue the open paragraph starts the next one. */
  lemma NewParagraphWellFormed(p: Paragraphing, lines: seq<string>, line: string, title: string -> bool)
    requires WellFormedRun(p, lines, title) && !title(line) && !ShouldMergeLine(line, p.current)
    ensures WellFormedRun(Paragraphing(Closed(p), [line]), lines + [line], title)
  {
    WellFormedClosed(p, lines, title);
    assert Closed(p)[|Closed(p)| - 1] == p.current;
    FlattenSnoc(Closed(p), []);
  }

  /** One merge step keeps the shape of the paragraphs. */
  lemma MergeStepWellFormed(p: Paragraphing, lines: seq<string>, line: string, title: string -> bool)
    requires WellFormedRun(p, lines, title)
    ensures WellFormedRun(MergeStep(p, line, title), lines + [line], title)
  {
    if title(line) {
      TitleStepWellFormed(p, lines, line, title);
    } else if ShouldMergeLine(line, p.current) {
      MergeLineWellFormed(p, lines, line, title);
    } else {
      NewParagraphWellFormed(p, lines, line, title);
    }
  }

  lemma {:induction false} MergeRunWellFormed(lines: seq<string>, title: string -> bool)
    ensures WellFormedRun(MergeRun(lines, title), lines, title)
    decreases |lines|
  {
    if lines != [] {
      var prefix, last := lines[..|lines| - 1], lines[|lines| - 1];
      assert prefix + [last] == lines;
      assert MergeRun(lines, title) == MergeStep(MergeRun(prefix, title), last, title);
      MergeRunWellFormed(prefix, title);
      MergeStepWellFormed(MergeRun(prefix, title), prefix, last, title);
    }
  }

  /**
   * The paragraphs hold exactly the given lines in order, none is empty, a
   * title is a paragraph of its own, and every line after the first of a
   * paragraph is short or starts with a lower-case letter or a Chinese
   * punctuation mark. Conversely, a paragraph ends only at a title, or before
   * a title or a long line that starts with neither.
   */
  lemma ParagraphsShape(lines: seq<string>, title: string -> bool)
    ensures Flatten(Paragraphs(lines, title)) == lines
    ensures forall k | 0 <= k < |Paragraphs(lines, title)| :: Paragraphs(lines, title)[k] != []
    ensures forall k, j | 0 <= k < |Paragraphs(lines, title)| && 0 <= j < |Paragraphs(lines, title)[k]| ::
              title(Paragraphs(lines, title)[k][j]) ==> Paragraphs(lines, title)[k] == [Paragraphs(lines, title)[k][j]]
    ensures forall k, j | 0 <= k < |Paragraphs(lines, title)| && 0 < j < |Paragraphs(lines, title)[k]| ::
              |Paragraphs(lines, title)[k][j]| < 30 || StartsLowerOrPunct(Paragraphs(lines, title)[k][j])
    ensures forall i, j | 0 <= i < j < |Paragraphs(lines, title)| && j == i + 1 ::
              ParagraphBreak(Paragraphs(lines, title)[i], Paragraphs(lines, title)[j], title)
  {
    MergeRunWellFormed(lines, title);
    WellFormedClosed(MergeRun(lines, title), lines, title);
    GroupShapes(Paragraphs(lines, title), title);
  }

  /** The per-paragraph facts that `WellFormedParagraphs` packs together. */
  lemma GroupShapes(groups: seq<seq<string>>, title: string -> bool)
    requires WellFormedParagraphs(groups, title)
    ensures forall k | 0 <= k < |groups| :: groups[k] != []
    ensures forall k, j | 0 <= k < |groups| && 0 <= j < |groups[k]| :: title(groups[k][j]) ==> groups[k] == [groups[k][j]]
    ensures forall k, j | 0 <= k < |groups| && 0 < j < |groups[k]| :: |groups[k][j]| < 30 || StartsLowerOrPunct(groups[k][j])
  {
    forall k, j | 0 <= k < |groups| && 0 <= j < |groups[k]| && title(groups[k][j])
      ensures groups[k] == [groups[k][j]]
    {
      assert MergedGroup(groups[k], title);
      assert j == 0;
    }
  }

  /** No lines give no text. */
  lemma MergedTextEmpty(title: string -> bool)
    ensures MergedText([], title) == ""
  {
  }

  /** Short lines without titles stay in one open paragraph. */
  lemma {:induction false} OneParagraphRun(lines: seq<string>, title: string -> bool)
    requires forall k | 0 <= k < |lines| :: !title(lines[k]) && |lines[k]| < 30
    ensures MergeRun(lines, title) == Paragraphing([], lines)
    decreases |lines|
  {
    if lines != [] {
      var prefix := lines[..|lines| - 1];
      var x := lines[|lines| - 1];
      OneParagraphRun(prefix, title);
      assert prefix + [x] == lines;
    }
  }

  /** A single paragraph is its lines joined by one blank. */
  lemma MergedTextOneParagraph(lines: seq<string>, title: string -> bool)
    requires lines != []
    requires forall k | 0 <= k < |lines| :: !title(lines[k]) && |lines[k]| < 30
    ensures MergedText(lines, title) == Join(lines, " ")
  {
    OneParagraphRun(lines, title);
    assert Paragraphs(lines, title) == [lines];
    assert JoinEach([lines], " ") == [Join(lines, " ")] by {
      JoinEachSnoc([], lines, " ");
    }
  }

  // ---------------------------------------------------------------------------
  // Entry point

  /** What `DJGContentFilter.extract_main_content` returns. */
  function DjgContent(text: string): string {
    if IsBlank(text) then "" else MergedText(KeptLines(text), IsChapterTitle)
  }

  /** The body of the classification loop for one stripped, non-blank line: the checks in their order. */
  method KeepLine(line: string) returns (keep: bool)
    ensures keep == DjgKeep(line)
  {
    if IsHeaderFooter(line) {
      return false;
    }
    if IsChapterTitle(line) {
      return true;
    }
    if IsUiElement(line) {
      return false;
    }
    if IsMetadata(line) {
      return false;
    }
    return IsMainContent(line);
  }

  /** `DJGContentFilter.extract_main_content`. */
  method ExtractMainContent(text: string) returns (result: string)
    ensures IsBlank(text) ==> result == ""
    ensures result == DjgContent(text)
  {
    if IsBlank(text) {
      return "";
    }
    var lines := Split(text, '\n');
    var filteredLines := FilterLines(lines);
    result := MergeParagraphs(filteredLines);
  }

  /** The classification loop of `extract_main_content`: the stripped, non-blank lines that are kept, in order. */
  method FilterLines(lines: seq<string>) returns (filteredLines: seq<string>)
    ensures filteredLines == FilterSeq(StrippedNonBlank(lines), DjgKeep)
  {
    filteredLines := [];
    for i := 0 to |lines|
      invariant filteredLines == FilterSeq(StrippedNonBlank(lines[..i]), DjgKeep)
    {
      var line := Strip(lines[i]);
      FilterStrippedStep(lines, i, DjgKeep);
      ghost var next := FilterSeq(StrippedNonBlank(lines[..i + 1]), DjgKeep);
      assert next == filteredLines + (if line != "" && DjgKeep(line) then [line] else []);
      if line == "" {
        continue;
      }
      var keep := KeepLine(line);
      if keep {
        filteredLines := filteredLines + [line];
      }
      assert filteredLines == next;
    }
    assert lines[..|lines|] == lines;
  }

  /**
   * The kept lines are exactly the stripped non-blank lines that pass the
   * classifier, and the merged text holds them in order.
   */
  lemma KeptLinesExact(text: string, line: string)
    ensures line in KeptLines(text) <==> line in StrippedNonBlank(Split(text, '\n')) && DjgKeep(line)
    ensures Flatten(Paragraphs(KeptLines(text), IsChapterTitle)) == KeptLines(text)
  {
    var all := StrippedNonBlank(Split(text, '\n'));
    if line in KeptLines(text) {
      var k :| 0 <= k < |KeptLines(text)| && KeptLines(text)[k] == line;
      FilterSeqElements(all, DjgKeep, k);
    }
    if line in all && DjgKeep(line) {
      FilterSeqKeeps(all, DjgKeep, line);
    }
    ParagraphsShape(KeptLines(text), IsChapterTitle);
  }
}
