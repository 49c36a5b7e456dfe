/**
 * The hybrid content filter: a line classifier over OCR text that keeps the
 * article and drops page furniture, OCR noise and reader comments.
 *
 * Text containing the key-points phrase 划重点 goes through the boundary scan,
 * a state machine over three flags (skip mode, inside the key-points section,
 * key-points section ended); other text goes through the conservative scan,
 * whose one skip flag can be cleared again by a line that is clearly article
 * text. Each scan is a method with a loop, proved equal to a left fold of a
 * step function over the stripped lines; the properties are lemmas on the
 * step functions and the folds.
 *
 * Ratios are compared by cross-multiplication: "CJK ratio > 0.3" is
 * `10 * CjkCount(line) > 3 * |line|` (see `RatioExceedsMeans`).
 */
module HybridFilter {
  import opened TextUtil

  const KeyPointsMarker: string := "划重点"

  /** Markers the boundary scan reads as the start of the reader comments. */
  const CommentMarkers: seq<string> :=
    ["我的留言", "用户留言", "最新留言", "最热留言", "只看作者",
     "好的人", "这是前提", "首次发布:", "发布时间:", "写留言"]

  /** The shorter, stricter marker list of the conservative scan. */
  const DefiniteCommentMarkers: seq<string> :=
    ["我的留言", "用户留言", "最新留言", "最热留言", "只看作者", "评论区", "留言区"]

  /** Tokens that only occur in garbled OCR output. */
  const GarbledTokens: seq<string> := ["Qtr", "DATA", "ABIES", "AIEEE"]

  // ---------------------------------------------------------------------------
  // Chinese-character ratio

  /** `_get_chinese_ratio`: share of CJK ideographs, 0 for the empty line. */
  function ChineseRatio(line: string): (r: real)
    ensures line == "" ==> r == 0.0
    ensures 0.0 <= r <= 1.0
  {
    if line == "" then 0.0 else CjkCount(line) as real / |line| as real
  }

  /** `ChineseRatio(line) > num / den`, by cross-multiplication. */
  predicate RatioExceeds(line: string, num: nat, den: nat) {
    den * CjkCount(line) > num * |line|
  }

  lemma RatioExceedsMeans(line: string, num: nat, den: nat)
    requires den > 0
    ensures RatioExceeds(line, num, den) <==> ChineseRatio(line) > num as real / den as real
  {
    if line != "" {
      CrossMultiply(CjkCount(line) as real, |line| as real, num as real, den as real);
      assert (den * CjkCount(line)) as real == den as real * CjkCount(line) as real;
      assert (num * |line|) as real == num as real * |line| as real;
    }
  }

  /** Two fractions with positive denominators compare as their cross products. */
  lemma CrossMultiply(a: real, b: real, x: real, y: real)
    requires b > 0.0 && y > 0.0
    ensures a / b > x / y <==> y * a > x * b
  {
    var p := b * y;
    assert (a / b) * p == y * a;
    assert (x / y) * p == x * b;
    assert a / b > x / y <==> (a / b) * p > (x / y) * p;
  }

  // ---------------------------------------------------------------------------
  // Line predicates

  predicate IsKeyPointSeparator(c: char) { c == '、' || c == '．' || c == '.' }

  /** `re.match(r'^\d+[、．.]', line)`: a numbered key point. */
  predicate IsNumberedItem(line: string) {
    NumberThen(line, IsKeyPointSeparator)
  }

  /** The class `[A-Z\s\.,;:!@#$%^&*()_+=\-\[\]{}|\\`~]`. */
  predicate IsUpperOrSymbol(c: char) {
    IsUpper(c) || IsSpace(c) || c in ".,;:!@#$%^&*()_+=-[]{}|\\`~"
  }

  /** The symbol set is ASCII: a character beyond it that is not a blank is not in the class. */
  lemma WideCharNotSymbol(c: char)
    requires c > '~' && !IsSpace(c)
    ensures !IsUpperOrSymbol(c)
  {
    var symbols := ".,;:!@#$%^&*()_+=-[]{}|\\`~";
    assert forall i | 0 <= i < |symbols| :: symbols[i] <= '~';
  }

  /**
   * `upper_and_symbols > len(line) * 0.7 and len(line) > 10`: the count of
   * upper-case letters, blanks and symbols is compared with the double
   * product, as Python compares an int with a float, exactly.
   */
  predicate TooManyUpperAndSymbols(line: string) {
    CountWhere(line, IsUpperOrSymbol) * TwoTo53 > DoubleProduct(|line|, SevenTenthsSignificand) && |line| > 10
  }

  /**
   * Away from a tie (a count of exactly 7/10 of the length) the double
   * product decides as the exact 70% would, for any line shorter than 2^47.
   */
  lemma SeventyPercentOffTies(line: string)
    requires 40 * |line| < TwoTo53
    requires 10 * CountWhere(line, IsUpperOrSymbol) != 7 * |line|
    ensures TooManyUpperAndSymbols(line)
            <==> 10 * CountWhere(line, IsUpperOrSymbol) > 7 * |line| && |line| > 10
  {
    SevenTenthsClose(|line|);
  }

  /**
   * At a tie the rounding decides: `90 * 0.7` is just below 63, so 63 such
   * characters out of 90 are too many, while `20 * 0.7` is exactly 14.
   */
  lemma SeventyPercentTies(line: string)
    ensures |line| == 90 && CountWhere(line, IsUpperOrSymbol) == 63 ==> IsGarbageContent(line)
    ensures |line| == 20 && CountWhere(line, IsUpperOrSymbol) == 14 ==> !TooManyUpperAndSymbols(line)
  {
    NinetyTimesSevenTenths();
    TwentyTimesSevenTenths();
  }

  lemma NinetyTimesSevenTenths()
    ensures DoubleProduct(90, SevenTenthsSignificand) < 63 * TwoTo53
  {
    assert RoundToDouble(90) == 90;
    assert Pow2(6) == 64;
    DroppedBitsOf(90 * SevenTenthsSignificand, 6);
  }

  lemma TwentyTimesSevenTenths()
    ensures DoubleProduct(20, SevenTenthsSignificand) == 14 * TwoTo53
  {
    assert RoundToDouble(20) == 20;
    assert Pow2(4) == 16;
    DroppedBitsOf(20 * SevenTenthsSignificand, 4);
  }

  predicate UpperRunAt(line: string, i: int) {
    0 <= i && i + 3 <= |line| && IsUpper(line[i]) && IsUpper(line[i + 1]) && IsUpper(line[i + 2])
  }

  /** `re.search(r'[A-Z]{3,}.*[A-Z]{3,}', line)`. */
  predicate HasTwoUpperRuns(line: string) {
    exists i, j | 0 <= i && i + 3 <= j < |line| ::
      UpperRunAt(line, i) && UpperRunAt(line, j) && CharsBetween(line, i + 3, j, IsNotLineBreak)
  }

  /** `re.search(r'^\s*[A-Z\s]{10,}$', line)`: ten or more upper-case letters and blanks only. */
  predicate IsUpperBlock(line: string) {
    |line| >= 10 && forall i :: 0 <= i < |line| ==> IsUpper(line[i]) || IsSpace(line[i])
  }

  /** `re.search(r'E\s*制$', line)`. */
  predicate EndsWithEZhi(line: string) {
    exists i, k | 0 <= i < k < |line| ::
      && line[i] == 'E'
      && CharsBetween(line, i + 1, k, IsSpace)
      && line[k] == '制'
      && (k + 1 == |line| || (k + 2 == |line| && line[k + 1] == '\n'))
  }

  /** Shorter than 5 and holding a character outside ASCII letters, digits and CJK. */
  predicate IsShortNoisy(line: string) {
    |line| < 5 && exists i | 0 <= i < |line| :: !(IsAsciiAlnum(line[i]) || IsCjk(line[i]))
  }

  /** `_is_garbage_content` (the conservative `_is_definite_garbage` delegates to it). */
  predicate IsGarbageContent(line: string) {
    || TooManyUpperAndSymbols(line)
    || HasDateStamp(line)
    || HasTwoUpperRuns(line)
    || IsUpperBlock(line)
    || ContainsAny(line, GarbledTokens)
    || EndsWithEZhi(line)
    || IsShortNoisy(line)
  }

  predicate IsUserCommentStart(line: string) {
    ContainsAny(line, CommentMarkers)
  }

  predicate IsDefiniteUserCommentStart(line: string) {
    ContainsAny(line, DefiniteCommentMarkers)
  }

  /** `_is_continuation_of_key_point`: judged against the last line emitted so far. */
  predicate IsContinuationOfKeyPoint(line: string, previous: seq<string>) {
    previous != [] && (IsNumberedItem(previous[|previous| - 1]) || (RatioExceeds(line, 3, 10) && |line| > 5))
  }

  predicate LooksLikeKeyPointContent(line: string) {
    RatioExceeds(line, 4, 10) && |line| > 10 && |line| < 200 && !IsGarbageContent(line)
  }

  predicate LooksLikeMainContent(line: string) {
    && !(line == "" || |line| < 5)
    && RatioExceeds(line, 5, 10) && |line| > 8 && |line| < 300 && !IsGarbageContent(line)
  }

  /** The strong evidence that clears the conservative skip mode. */
  predicate IsRecoveryLine(line: string) {
    |line| > 20 && RatioExceeds(line, 6, 10)
  }

  /**
   * The garbage test catches exactly the documented patterns: the symbol
   * ratio, a date stamp, two upper-case runs, an upper-case block, one of the
   * garbled tokens, an `E 制` ending, and a short line with a character outside
   * ASCII letters, digits and CJK.
   */
  lemma GarbageContentCases(line: string)
    ensures IsGarbageContent(line) <==>
              || TooManyUpperAndSymbols(line)
              || HasDateStamp(line)
              || HasTwoUpperRuns(line)
              || IsUpperBlock(line)
              || Contains(line, "Qtr") || Contains(line, "DATA")
              || Contains(line, "ABIES") || Contains(line, "AIEEE")
              || EndsWithEZhi(line)
              || (|line| < 5 && exists i | 0 <= i < |line| :: !(IsAsciiAlnum(line[i]) || IsCjk(line[i])))
  {
    if ContainsAny(line, GarbledTokens) {
      var k :| 0 <= k < |GarbledTokens| && Contains(line, GarbledTokens[k]);
      assert k == 0 || k == 1 || k == 2 || k == 3;
    }
    if Contains(line, "Qtr") {
      assert Contains(line, GarbledTokens[0]);
    }
    if Contains(line, "DATA") {
      assert Contains(line, GarbledTokens[1]);
    }
    if Contains(line, "ABIES") {
      assert Contains(line, GarbledTokens[2]);
    }
    if Contains(line, "AIEEE") {
      assert Contains(line, GarbledTokens[3]);
    }
  }

  // ---------------------------------------------------------------------------
  // Boundary scan (text containing 划重点)

  datatype BoundaryState = BoundaryState(
    skipMode: bool,
    inKeyPoints: bool,
    keyPointsEnded: bool,
    filtered: seq<string>)

  const BoundaryStart := BoundaryState(false, false, false, [])

  predicate InOpenKeySection(st: BoundaryState) {
    st.inKeyPoints && !st.keyPointsEnded
  }

  /** The rules applied after the key-points section: comments, skip mode, garbage. */
  function BoundaryGeneralRules(st: BoundaryState, line: string): BoundaryState {
    if IsUserCommentStart(line) then st.(skipMode := true)
    else if st.skipMode then st
    else if IsGarbageContent(line) then st
    else if !st.inKeyPoints || st.keyPointsEnded then st.(filtered := st.filtered + [line])
    else st
  }

  /** One iteration of the boundary scan on a stripped line. */
  function BoundaryStep(st: BoundaryState, line: string): BoundaryState {
    if line == "" then st
    else if Contains(line, KeyPointsMarker) then
      st.(inKeyPoints := true, keyPointsEnded := false, filtered := st.filtered + [line])
    else if InOpenKeySection(st) then
      if IsNumberedItem(line) then st.(filtered := st.filtered + [line])
      else if IsContinuationOfKeyPoint(line, st.filtered) then st.(filtered := st.filtered + [line])
      else if IsGarbageContent(line) then st.(keyPointsEnded := true)
      else if IsUserCommentStart(line) then st.(keyPointsEnded := true, skipMode := true)
      else if !LooksLikeKeyPointContent(line) then BoundaryGeneralRules(st.(keyPointsEnded := true), line)
      else BoundaryGeneralRules(st, line)
    else BoundaryGeneralRules(st, line)
  }

  /** The boundary scan's state after the given raw lines (each stripped first). */
  function BoundaryRun(lines: seq<string>): BoundaryState {
    if lines == [] then BoundaryStart
    else BoundaryStep(BoundaryRun(lines[..|lines| - 1]), Strip(lines[|lines| - 1]))
  }

  /** `_extract_with_key_points_boundary`. */
  method ExtractWithKeyPointsBoundary(text: string) returns (result: string)
    ensures result == Join(BoundaryRun(Split(text, '\n')).filtered, "\n")
  {
    var lines := Split(text, '\n');
    var filteredLines: seq<string> := [];
    var skipMode, inKeyPoints, keyPointsEnded := false, false, false;
    for i := 0 to |lines|
      invariant BoundaryState(skipMode, inKeyPoints, keyPointsEnded, filteredLines) == BoundaryRun(lines[..i])
    {
      assert lines[..i + 1][..i] == lines[..i];
      var line := Strip(lines[i]);
      assert BoundaryRun(lines[..i + 1]) == BoundaryStep(BoundaryRun(lines[..i]), line);
      if line == "" {
        continue;
      }
      if Contains(line, KeyPointsMarker) {
        inKeyPoints := true;
        keyPointsEnded := false;
        filteredLines := filteredLines + [line];
        continue;
      }
      if inKeyPoints && !keyPointsEnded {
        if IsNumberedItem(line) {
          filteredLines := filteredLines + [line];
          continue;
        }
        if IsContinuationOfKeyPoint(line, filteredLines) {
          filteredLines := filteredLines + [line];
          continue;
        }
        if IsGarbageContent(line) {
          keyPointsEnded := true;
          continue;
        }
        if IsUserCommentStart(line) {
          keyPointsEnded := true;
          skipMode := true;
          continue;
        }
        if !LooksLikeKeyPointContent(line) {
          keyPointsEnded := true;
        }
      }
      if IsUserCommentStart(line) {
        skipMode := true;
        continue;
      }
      if skipMode {
        continue;
      }
      if IsGarbageContent(line) {
        continue;
      }
      if !inKeyPoints || keyPointsEnded {
        if !skipMode {
          filteredLines := filteredLines + [line];
        }
      }
    }
    assert lines[..|lines|] == lines;
    result := Join(filteredLines, "\n");
  }

  /** A step emits nothing, or exactly the (non-empty) line it was given. */
  lemma BoundaryStepAppendsAtMostLine(st: BoundaryState, line: string)
    ensures var st' := BoundaryStep(st, line);
            st'.filtered == st.filtered || (line != "" && st'.filtered == st.filtered + [line])
  {
  }

  /** Every emitted line is a stripped, non-blank input line, and the input order is kept. */
  lemma {:induction false} BoundaryOutputIsSubsequence(lines: seq<string>)
    ensures IsSubsequence(BoundaryRun(lines).filtered, StrippedNonBlank(lines))
    decreases |lines|
  {
    if lines == [] {
      SubsequenceEmpty<string>([]);
    } else {
      var prefix := lines[..|lines| - 1];
      var t := Strip(lines[|lines| - 1]);
      var st := BoundaryRun(prefix);
      assert BoundaryRun(lines) == BoundaryStep(st, t);
      assert StrippedNonBlank(lines) == StrippedNonBlank(prefix) + (if t == "" then [] else [t]);
      BoundaryOutputIsSubsequence(prefix);
      BoundaryStepAppendsAtMostLine(st, t);
      var out := BoundaryStep(st, t).filtered;
      if t == "" {
        assert out == st.filtered;
        assert StrippedNonBlank(lines) == StrippedNonBlank(prefix);
      } else if out == st.filtered {
        SubsequenceSkip(st.filtered, StrippedNonBlank(prefix), t);
      } else {
        assert out == st.filtered + [t];
        SubsequenceTake(st.filtered, StrippedNonBlank(prefix), t);
      }
    }
  }

  /** A 划重点 line is always emitted and (re)opens the key-points section, even in skip mode. */
  lemma BoundaryKeyPointsLine(st: BoundaryState, line: string)
    requires line != "" && Contains(line, KeyPointsMarker)
    ensures BoundaryStep(st, line)
            == BoundaryState(st.skipMode, true, false, st.filtered + [line])
  {
  }

  lemma BoundaryStepKeepsSkip(st: BoundaryState, line: string)
    requires st.skipMode
    ensures BoundaryStep(st, line).skipMode
  {
  }

  /** Skip mode is never cleared once set. */
  lemma {:induction false} BoundarySkipSticky(lines: seq<string>, i: nat, j: nat)
    requires i <= j <= |lines|
    requires BoundaryRun(lines[..i]).skipMode
    ensures BoundaryRun(lines[..j]).skipMode
    decreases j - i
  {
    if i < j {
      assert lines[..i + 1][..i] == lines[..i];
      BoundaryStepKeepsSkip(BoundaryRun(lines[..i]), Strip(lines[i]));
      BoundarySkipSticky(lines, i + 1, j);
    }
  }

  /**
   * In skip mode the only lines emitted are 划重点 lines and lines accepted
   * inside an open key-points section.
   */
  lemma BoundaryEmitWhileSkipping(st: BoundaryState, line: string)
    requires st.skipMode
    requires BoundaryStep(st, line).filtered != st.filtered
    ensures Contains(line, KeyPointsMarker)
            || (InOpenKeySection(st) && (IsNumberedItem(line) || IsContinuationOfKeyPoint(line, st.filtered)))
  {
  }

  /** While the key-points section is open, the 划重点 line that opened it has been emitted. */
  lemma {:induction false} BoundaryKeySectionHasHeader(lines: seq<string>)
    ensures BoundaryRun(lines).inKeyPoints ==> BoundaryRun(lines).filtered != []
    decreases |lines|
  {
    if lines != [] {
      var prefix := lines[..|lines| - 1];
      BoundaryKeySectionHasHeader(prefix);
      BoundaryStepKeepsHeader(BoundaryRun(prefix), Strip(lines[|lines| - 1]));
    }
  }

  lemma BoundaryStepKeepsHeader(st: BoundaryState, line: string)
    requires st.inKeyPoints ==> st.filtered != []
    ensures var st' := BoundaryStep(st, line);
            st'.inKeyPoints ==> st'.filtered != []
  {
    BoundaryStepAppendsAtMostLine(st, line);
  }

  /**
   * Inside an open section a numbered line or a continuation of the last
   * emitted line is emitted and the section stays open, whatever else the line
   * contains, a comment marker included.
   */
  lemma BoundaryKeySectionAccepts(st: BoundaryState, line: string)
    requires InOpenKeySection(st) && line != "" && !Contains(line, KeyPointsMarker)
    requires IsNumberedItem(line) || IsContinuationOfKeyPoint(line, st.filtered)
    ensures BoundaryStep(st, line) == st.(filtered := st.filtered + [line])
  {
  }

  /**
   * In a reachable state, a line inside an open section that is neither numbered
   * nor a continuation ends the section. A garbage line is dropped; a comment
   * marker is dropped and sets skip mode; any other line falls through to the
   * general rules and is emitted unless skip mode is on.
   */
  lemma BoundaryKeySectionCloses(lines: seq<string>, line: string)
    requires InOpenKeySection(BoundaryRun(lines)) && line != "" && !Contains(line, KeyPointsMarker)
    requires !IsNumberedItem(line) && !IsContinuationOfKeyPoint(line, BoundaryRun(lines).filtered)
    ensures var st := BoundaryRun(lines);
            var st' := BoundaryStep(st, line);
            && st'.keyPointsEnded && st'.inKeyPoints
            && (IsGarbageContent(line) ==> st'.filtered == st.filtered && st'.skipMode == st.skipMode)
            && (!IsGarbageContent(line) && IsUserCommentStart(line) ==> st'.filtered == st.filtered && st'.skipMode)
            && (!IsGarbageContent(line) && !IsUserCommentStart(line) ==>
                  st'.skipMode == st.skipMode
                  && st'.filtered == (if st.skipMode then st.filtered else st.filtered + [line]))
  {
    BoundaryKeySectionHasHeader(lines);
    assert !LooksLikeKeyPointContent(line);
  }

  /** Hence inside an open section every line is either accepted as key-point content or ends the section. */
  lemma BoundaryKeySectionDecides(lines: seq<string>, line: string)
    requires InOpenKeySection(BoundaryRun(lines)) && line != "" && !Contains(line, KeyPointsMarker)
    ensures var st := BoundaryRun(lines);
            var st' := BoundaryStep(st, line);
            (st'.filtered == st.filtered + [line] && InOpenKeySection(st')) || st'.keyPointsEnded
  {
    var st := BoundaryRun(lines);
    if !IsNumberedItem(line) && !IsContinuationOfKeyPoint(line, st.filtered) {
      BoundaryKeySectionCloses(lines, line);
    }
  }

  /**
   * A reader comment right after the 划重点 line is emitted: with a CJK ratio
   * above 0.3 it passes the continuation test before the comment test is reached.
   */
  lemma CommentAfterKeyPointsIsEmitted()
    ensures IsUserCommentStart("用户留言: 很赞")
    ensures BoundaryStep(BoundaryState(false, true, false, ["划重点"]), "用户留言: 很赞")
            == BoundaryState(false, true, false, ["划重点", "用户留言: 很赞"])
  {
    var a, b := "划重点", "用户留言: 很赞";
    assert OccursAt(b, CommentMarkers[1], 0);
    assert !Contains(b, KeyPointsMarker) by {
      if Contains(b, KeyPointsMarker) {
        ContainsFirstChar(b, KeyPointsMarker);
      }
    }
    assert IsContinuationOfKeyPoint(b, [a]) by {
      var head, tail := "用户留言", ": 很赞";
      assert b == head + tail;
      CountWhereConcat(head, tail, IsCjk);
      CountWhereAll(head, IsCjk);
      assert RatioExceeds(b, 3, 10);
    }
    BoundaryKeySectionAccepts(BoundaryState(false, true, false, [a]), b);
  }

  /** A 划重点 line at the start opens the key-points section and is emitted. */
  lemma KeyPointsHeaderOpensSection()
    ensures BoundaryStep(BoundaryStart, "划重点") == BoundaryState(false, true, false, ["划重点"])
  {
    assert OccursAt("划重点", KeyPointsMarker, 0);
    BoundaryKeyPointsLine(BoundaryStart, "划重点");
  }

  /** After the key-points section has ended, a comment line sets skip mode and the rest is dropped. */
  lemma CommentAfterSectionEndSkipsRest(st: BoundaryState, comment: string, line: string)
    requires st.inKeyPoints && st.keyPointsEnded && !st.skipMode
    requires comment != "" && IsUserCommentStart(comment) && !Contains(comment, KeyPointsMarker)
    requires line != "" && !Contains(line, KeyPointsMarker)
    ensures BoundaryStep(st, comment) == st.(skipMode := true)
    ensures BoundaryStep(BoundaryStep(st, comment), line) == st.(skipMode := true)
  {
  }

  // ---------------------------------------------------------------------------
  // Conservative scan (text without 划重点)

  datatype ConservativeState = ConservativeState(skipMode: bool, filtered: seq<string>)

  const ConservativeStart := ConservativeState(false, [])

  /** One iteration of the conservative scan on a stripped line. */
  function ConservativeStep(st: ConservativeState, line: string): ConservativeState {
    if line == "" then st
    else if IsGarbageContent(line) then st
    else if IsDefiniteUserCommentStart(line) then st.(skipMode := true)
    else if st.skipMode then
      if LooksLikeMainContent(line) then
        ConservativeState(!IsRecoveryLine(line), st.filtered + [line])
      else st
    else st.(filtered := st.filtered + [line])
  }

  function ConservativeRun(lines: seq<string>): ConservativeState {
    if lines == [] then ConservativeStart
    else ConservativeStep(ConservativeRun(lines[..|lines| - 1]), Strip(lines[|lines| - 1]))
  }

  /** `_extract_without_key_points`. */
  method ExtractWithoutKeyPoints(text: string) returns (result: string)
    ensures result == Join(ConservativeRun(Split(text, '\n')).filtered, "\n")
  {
    var lines := Split(text, '\n');
    var filteredLines: seq<string> := [];
    var skipMode := false;
    for i := 0 to |lines|
      invariant ConservativeState(skipMode, filteredLines) == ConservativeRun(lines[..i])
    {
      assert lines[..i + 1][..i] == lines[..i];
      var line := Strip(lines[i]);
      assert ConservativeRun(lines[..i + 1]) == ConservativeStep(ConservativeRun(lines[..i]), line);
      if line == "" {
        continue;
      }
      if IsGarbageContent(line) {
        continue;
      }
      if IsDefiniteUserCommentStart(line) {
        skipMode := true;
        continue;
      }
      if skipMode {
        if LooksLikeMainContent(line) {
          if |line| > 20 && RatioExceeds(line, 6, 10) {
            skipMode := false;
          }
        } else {
          continue;
        }
      }
      filteredLines := filteredLines + [line];
    }
    assert lines[..|lines|] == lines;
    result := Join(filteredLines, "\n");
  }

  lemma ConservativeStepAppendsAtMostLine(st: ConservativeState, line: string)
    ensures var st' := ConservativeStep(st, line);
            st'.filtered == st.filtered
            || (line != "" && !IsGarbageContent(line) && !IsDefiniteUserCommentStart(line)
                && st'.filtered == st.filtered + [line])
  {
  }

  lemma {:induction false} ConservativeOutputIsSubsequence(lines: seq<string>)
    ensures IsSubsequence(ConservativeRun(lines).filtered, StrippedNonBlank(lines))
    decreases |lines|
  {
    if lines == [] {
      SubsequenceEmpty<string>([]);
    } else {
      var prefix := lines[..|lines| - 1];
      var t := Strip(lines[|lines| - 1]);
      var st := ConservativeRun(prefix);
      assert ConservativeRun(lines) == ConservativeStep(st, t);
      assert StrippedNonBlank(lines) == StrippedNonBlank(prefix) + (if t == "" then [] else [t]);
      ConservativeOutputIsSubsequence(prefix);
      ConservativeStepAppendsAtMostLine(st, t);
      var out := ConservativeStep(st, t).filtered;
      if t == "" {
        assert out == st.filtered;
        assert StrippedNonBlank(lines) == StrippedNonBlank(prefix);
      } else if out == st.filtered {
        SubsequenceSkip(st.filtered, StrippedNonBlank(prefix), t);
      } else {
        assert out == st.filtered + [t];
        SubsequenceTake(st.filtered, StrippedNonBlank(prefix), t);
      }
    }
  }

  /**
   * The conservative rules: garbage is always dropped; a comment marker is
   * dropped and sets skip mode; in skip mode a line is emitted exactly when it
   * looks like article text, and skip mode is cleared exactly when it also is a
   * recovery line; outside skip mode every other line is emitted.
   */
  lemma ConservativeStepRules(st: ConservativeState, line: string)
    requires line != ""
    ensures var st' := ConservativeStep(st, line);
            && (IsGarbageContent(line) ==> st' == st)
            && (!IsGarbageContent(line) && IsDefiniteUserCommentStart(line) ==>
                  st' == ConservativeState(true, st.filtered))
            && (!IsGarbageContent(line) && !IsDefiniteUserCommentStart(line) && st.skipMode ==>
                  && (st'.filtered == st.filtered + [line] <==> LooksLikeMainContent(line))
                  && (st'.filtered == st.filtered <==> !LooksLikeMainContent(line))
                  && (!st'.skipMode <==> LooksLikeMainContent(line) && IsRecoveryLine(line)))
            && (!IsGarbageContent(line) && !IsDefiniteUserCommentStart(line) && !st.skipMode ==>
                  st' == ConservativeState(false, st.filtered + [line]))
  {
  }

  /**
   * In skip mode, a line longer than 20 (and shorter than 300) with a CJK ratio
   * above 0.6, that is neither garbage nor a comment marker, is emitted and
   * ends skip mode.
   */
  lemma ConservativeRecovery(st: ConservativeState, line: string)
    requires st.skipMode
    requires 20 < |line| < 300 && RatioExceeds(line, 6, 10)
    requires !IsGarbageContent(line) && !IsDefiniteUserCommentStart(line)
    ensures ConservativeStep(st, line) == ConservativeState(false, st.filtered + [line])
  {
  }

  /** Nothing the conservative scan emits is garbage or a comment marker. */
  lemma {:induction false} ConservativeOutputClean(lines: seq<string>, k: nat)
    requires k < |ConservativeRun(lines).filtered|
    ensures !IsGarbageContent(ConservativeRun(lines).filtered[k])
    ensures !IsDefiniteUserCommentStart(ConservativeRun(lines).filtered[k])
    decreases |lines|
  {
    var prefix := lines[..|lines| - 1];
    var t := Strip(lines[|lines| - 1]);
    var st := ConservativeRun(prefix);
    ConservativeStepAppendsAtMostLine(st, t);
    if k < |st.filtered| {
      ConservativeOutputClean(prefix, k);
    }
  }

  /** A line the conservative scan never drops for its content. */
  predicate IsCleanLine(line: string) {
    !IsGarbageContent(line) && !IsDefiniteUserCommentStart(line)
  }

  /** On stripped, clean lines the conservative scan keeps everything: its output is a fixed point. */
  lemma {:induction false} ConservativeKeepsCleanLines(lines: seq<string>)
    requires forall k :: 0 <= k < |lines| ==> IsStrippedLine(lines[k]) && IsCleanLine(lines[k])
    ensures ConservativeRun(lines) == ConservativeState(false, lines)
    decreases |lines|
  {
    if lines != [] {
      var prefix := lines[..|lines| - 1];
      var x := lines[|lines| - 1];
      assert lines == prefix + [x];
      assert ConservativeRun(lines) == ConservativeStep(ConservativeRun(prefix), Strip(x));
      ConservativeKeepsCleanLines(prefix);
      StripKeepsInner(x);
      CleanLineKept(ConservativeState(false, prefix), x);
    }
  }

  /** Outside skip mode, a clean non-empty line is appended and skip mode stays off. */
  lemma CleanLineKept(st: ConservativeState, line: string)
    requires !st.skipMode && line != "" && IsCleanLine(line)
    ensures ConservativeStep(st, line) == ConservativeState(false, st.filtered + [line])
  { }

  // ---------------------------------------------------------------------------
  // Entry point

  /** What `extract_main_content` returns. */
  function MainContent(text: string): string {
    if IsBlank(text) then ""
    else if Contains(text, KeyPointsMarker) then Join(BoundaryRun(Split(text, '\n')).filtered, "\n")
    else Join(ConservativeRun(Split(text, '\n')).filtered, "\n")
  }

  /** `extract_main_content`: blank text gives "", otherwise the scan chosen by the 划重点 phrase. */
  method ExtractMainContent(text: string) returns (result: string)
    ensures IsBlank(text) ==> result == ""
    ensures !IsBlank(text) && Contains(text, KeyPointsMarker) ==>
              result == Join(BoundaryRun(Split(text, '\n')).filtered, "\n")
    ensures !IsBlank(text) && !Contains(text, KeyPointsMarker) ==>
              result == Join(ConservativeRun(Split(text, '\n')).filtered, "\n")
    ensures result == MainContent(text)
  {
    if IsBlank(text) {
      return "";
    }
    if Contains(text, KeyPointsMarker) {
      result := ExtractWithKeyPointsBoundary(text);
    } else {
      result := ExtractWithoutKeyPoints(text);
    }
  }

  lemma StripNoNewline(s: string)
    requires '\n' !in s
    ensures '\n' !in Strip(s)
  {
    StripOccurs(s);
  }

  /** The lines of a subsequence of the stripped non-blank lines of `Split(text)`. */
  lemma ScannedLinesFacts(text: string, out: seq<string>, k: nat)
    requires IsSubsequence(out, StrippedNonBlank(Split(text, '\n')))
    requires k < |out|
    ensures IsStrippedLine(out[k]) && '\n' !in out[k]
    ensures !Contains(text, KeyPointsMarker) ==> !Contains(out[k], KeyPointsMarker)
  {
    var lines := Split(text, '\n');
    SubsequenceElement(out, StrippedNonBlank(lines), k);
    var m :| 0 <= m < |StrippedNonBlank(lines)| && out[k] == StrippedNonBlank(lines)[m];
    StrippedNonBlankElements(lines, m);
    var j :| 0 <= j < |lines| && out[k] == Strip(lines[j]);
    StripNoNewline(lines[j]);
    if Contains(out[k], KeyPointsMarker) {
      ContainsStripped(lines[j], KeyPointsMarker);
      ContainsJoinElement(lines, "\n", j, KeyPointsMarker);
      JoinSplit(text, '\n');
    }
  }

  /** Joining lines is undone by splitting, when no line holds a line break. */
  lemma ScannedLinesSplit(text: string, out: seq<string>)
    requires IsSubsequence(out, StrippedNonBlank(Split(text, '\n')))
    requires out != []
    ensures Split(Join(out, "\n"), '\n') == out
  {
    forall k | 0 <= k < |out| ensures '\n' !in out[k] {
      ScannedLinesFacts(text, out, k);
    }
    SplitJoin(out, '\n');
  }

  /** The output lines are a subsequence of the stripped non-blank input lines. */
  lemma MainContentLines(text: string)
    ensures var r := MainContent(text);
            r == "" || IsSubsequence(Split(r, '\n'), StrippedNonBlank(Split(text, '\n')))
  {
    var lines := Split(text, '\n');
    if !IsBlank(text) {
      var out := if Contains(text, KeyPointsMarker) then BoundaryRun(lines).filtered
                 else ConservativeRun(lines).filtered;
      if Contains(text, KeyPointsMarker) {
        BoundaryOutputIsSubsequence(lines);
      } else {
        ConservativeOutputIsSubsequence(lines);
      }
      if out != [] {
        ScannedLinesSplit(text, out);
      }
    }
  }

  /** Joined stripped lines neither are blank nor (without 划重点 in any line) contain 划重点. */
  lemma JoinedLinesFacts(out: seq<string>)
    requires out != []
    requires forall k :: 0 <= k < |out| ==> IsStrippedLine(out[k]) && !Contains(out[k], KeyPointsMarker)
    ensures !IsBlank(Join(out, "\n"))
    ensures !Contains(Join(out, "\n"), KeyPointsMarker)
  {
    JoinedStartsWithFirst(out);
    if Contains(Join(out, "\n"), KeyPointsMarker) {
      ContainsJoinedLine(out, '\n', KeyPointsMarker);
    }
  }

  lemma JoinedStartsWithFirst(out: seq<string>)
    requires out != [] && out[0] != ""
    ensures Join(out, "\n") != "" && Join(out, "\n")[0] == out[0][0]
  {
    if |out| > 1 {
      assert Join(out, "\n") == out[0] + "\n" + Join(out[1..], "\n");
    }
  }

  /** Filtering text without 划重点 a second time changes nothing. */
  lemma MainContentIdempotentWithoutKeyPoints(text: string)
    requires !Contains(text, KeyPointsMarker)
    ensures MainContent(MainContent(text)) == MainContent(text)
  {
    var lines := Split(text, '\n');
    var out := ConservativeRun(lines).filtered;
    if !IsBlank(text) && out != [] {
      var r := Join(out, "\n");
      assert MainContent(text) == r;
      ConservativeOutputIsSubsequence(lines);
      forall k | 0 <= k < |out|
        ensures IsStrippedLine(out[k]) && !Contains(out[k], KeyPointsMarker)
        ensures IsCleanLine(out[k])
      {
        ScannedLinesFacts(text, out, k);
        ConservativeOutputClean(lines, k);
      }
      ScannedLinesSplit(text, out);
      JoinedLinesFacts(out);
      ConservativeKeepsCleanLines(out);
      assert MainContent(r) == Join(ConservativeRun(out).filtered, "\n");
    }
  }

  /** A non-empty line with no white space at either end. */
  predicate IsStrippedLine(line: string) {
    line != "" && !IsSpace(line[0]) && !IsSpace(line[|line| - 1])
  }


}
