/**
 * The decision logic of the universal OCR converter.
 *
 * A PDF is rasterised at the first resolution of a descending ladder that
 * does not fail with an oversized image, judged by the text of the
 * exception; an image file is a single page. Each
 * page is read either in overlapping horizontal bands (tall pages) or as the
 * best of three differently enhanced readings (all other pages). The page
 * texts are assembled behind page markers, skipping blank pages, run through
 * the hybrid content filter, and the filtered text is used only if it keeps
 * at least 4096 characters; otherwise the unfiltered text is the result.
 *
 * Rasterisation, image loading and OCR are not modelled: they are oracles,
 * passed in as functions or values. Image preprocessing (resizing,
 * contrast and sharpness enhancement) is part of what the OCR oracle sees,
 * named by the `Shot` it is asked to read.
 */
module EnhancedConverter {
  import opened TextUtil
  import HybridFilter

  const MaxChunkHeight: nat := 10000
  const ChunkOverlap: nat := 50
  const MaxChunks: nat := 6
  const CapacityThreshold: nat := 4096
  const DefaultDpi: nat := 300

  function Min(a: int, b: int): int { if a <= b then a else b }

  // ---------------------------------------------------------------------------
  // Pages and the OCR oracle

  /** A rasterised page: its identity and its size in pixels. */
  datatype PageImage = PageImage(id: nat, width: nat, height: nat)

  /** The three preprocessing variants of a page that is not chunked. */
  datatype Variant = Raw | MoreContrast | Sharpened

  /** What the OCR engine is asked to read: a whole page in some variant, or a band of rows. */
  datatype Shot =
    | Whole(page: PageImage, variant: Variant)
    | Band(page: PageImage, top: nat, bottom: nat)

  /** The OCR engine: the text it reads, or the message of the exception it raises. */
  type Ocr = Shot -> Result<string, string>

  /** `_ocr_image`: an engine failure reads as no text. */
  function OcrText(ocr: Ocr, shot: Shot): string {
    match ocr(shot)
    case Ok(text) => text
    case Err(_) => ""
  }

  predicate HasText(s: string) { !IsBlank(s) }

  // ---------------------------------------------------------------------------
  // Chunk geometry

  /** A page is cut into bands when it is taller than 1.2 times the band height. */
  predicate IsOversize(height: nat) {
    height > 12000
  }

  /** `min(6, ceil(height / 10000))`. */
  function ChunkCount(height: nat): (n: nat)
    ensures n <= MaxChunks
    ensures height > 0 ==> 1 <= n
    ensures n < MaxChunks ==> (n - 1) * MaxChunkHeight < height <= n * MaxChunkHeight
    ensures n == MaxChunks ==> height > 5 * MaxChunkHeight
  {
    Min(MaxChunks, (height + MaxChunkHeight - 1) / MaxChunkHeight)
  }

  /** `height // num_chunks`. */
  function ChunkHeight(height: nat): nat
    requires height > 0
  {
    height / ChunkCount(height)
  }

  /** First row of band `i`. */
  function ChunkTop(height: nat, i: nat): nat
    requires height > 0
  {
    i * ChunkHeight(height)
  }

  /** One past the last row of band `i`: it reaches 50 rows into the next band. */
  function ChunkBottom(height: nat, i: nat): nat
    requires height > 0
  {
    Min(height, (i + 1) * ChunkHeight(height) + ChunkOverlap)
  }

  lemma ChunkHeightFacts(height: nat)
    requires IsOversize(height)
    ensures 2 <= ChunkCount(height)
    ensures ChunkCount(height) * ChunkHeight(height) <= height < ChunkCount(height) * ChunkHeight(height) + ChunkCount(height)
    ensures ChunkHeight(height) >= 2000
    ensures height <= MaxChunks * MaxChunkHeight ==> ChunkHeight(height) <= MaxChunkHeight
  {
    var n := ChunkCount(height);
    var c := ChunkHeight(height);
    assert n * c <= height < n * c + n;
    if height <= MaxChunks * MaxChunkHeight {
      assert height <= n * MaxChunkHeight;
      QuotientAtMost(height, n, MaxChunkHeight);
    }
    QuotientAtLeast(height, n, 2000);
  }

  lemma QuotientAtMost(h: nat, n: nat, d: nat)
    requires n > 0 && h <= n * d
    ensures h / n <= d
  {
  }

  lemma QuotientAtLeast(h: nat, n: nat, d: nat)
    requires 0 < n <= 6 && h > 12000 && d == 2000
    ensures h / n >= d
  {
  }

  lemma RowBand(c: nat, i: nat, y: nat)
    requires c > 0 && i == y / c
    ensures i * c <= y < (i + 1) * c
  {
  }

  lemma BandsAscend(c: nat, i: nat, j: nat)
    requires i <= j
    ensures i * c <= j * c
  {
  }

  /**
   * For a page that is cut, there are two to six bands. The first starts at
   * row 0, the last ends at the bottom of the page, every band is non-empty
   * and lies within the page, and each band but the last overlaps the next
   * by exactly 50 rows. A band spans at most the stride plus those 50 rows,
   * and up to six strides of at most 10000 rows suffice, so the stride
   * exceeds 10000 rows only on pages taller than 60000 rows.
   */
  lemma ChunkGeometry(height: nat)
    requires IsOversize(height)
    ensures 2 <= ChunkCount(height) <= MaxChunks
    ensures ChunkTop(height, 0) == 0
    ensures ChunkBottom(height, ChunkCount(height) - 1) == height
    ensures forall i | 0 <= i < ChunkCount(height) :: ChunkTop(height, i) < ChunkBottom(height, i) <= height
    ensures forall i | 0 <= i < ChunkCount(height) - 1 :: ChunkBottom(height, i) == ChunkTop(height, i + 1) + ChunkOverlap
    ensures forall i | 0 <= i < ChunkCount(height) ::
              ChunkBottom(height, i) - ChunkTop(height, i) <= ChunkHeight(height) + ChunkOverlap
    ensures height <= MaxChunks * MaxChunkHeight ==> ChunkHeight(height) <= MaxChunkHeight
  {
    var n := ChunkCount(height);
    var c := ChunkHeight(height);
    ChunkHeightFacts(height);
    forall i | 0 <= i < n
      ensures ChunkTop(height, i) < ChunkBottom(height, i) <= height
      ensures i < n - 1 ==> ChunkBottom(height, i) == ChunkTop(height, i + 1) + ChunkOverlap
      ensures ChunkBottom(height, i) - ChunkTop(height, i) <= c + ChunkOverlap
    {
      assert (i + 1) * c == i * c + c;
      BandsAscend(c, i + 1, n);
      if i < n - 1 {
        BandsAscend(c, i + 2, n);
        assert (i + 1) * c + ChunkOverlap <= height;
      }
    }
    assert (n - 1 + 1) * c + ChunkOverlap >= height;
  }

  /** The band that holds row `y`: the one it falls in by division, or the last. */
  lemma CoveringBand(h: nat, n: nat, c: nat, y: nat) returns (i: nat)
    requires 2 <= n <= MaxChunks && c >= 2000 && n * c <= h < n * c + n && y < h
    ensures i < n && i * c <= y && y < Min(h, (i + 1) * c + ChunkOverlap)
  {
    var q := y / c;
    RowBand(c, q, y);
    if q < n {
      i := q;
    } else {
      i := n - 1;
      BandsAscend(c, n, q);
      assert (i + 1) * c == n * c;
    }
  }

  /** Every row of a cut page lies in some band. */
  lemma ChunksCover(height: nat, y: nat)
    requires IsOversize(height) && y < height
    ensures exists i | 0 <= i < ChunkCount(height) :: ChunkTop(height, i) <= y < ChunkBottom(height, i)
  {
    ChunkHeightFacts(height);
    var i := CoveringBand(height, ChunkCount(height), ChunkHeight(height), y);
    assert ChunkTop(height, i) <= y < ChunkBottom(height, i);
  }

  // ---------------------------------------------------------------------------
  // Reading a cut page

  /** The texts read from bands `0 .. k-1`, in band order. */
  function ChunkTexts(page: PageImage, ocr: Ocr, k: nat): (texts: seq<string>)
    requires page.height > 0
    ensures |texts| == k
  {
    if k == 0 then []
    else ChunkTexts(page, ocr, k - 1)
         + [OcrText(ocr, Band(page, ChunkTop(page.height, k - 1), ChunkBottom(page.height, k - 1)))]
  }

  /** The text of a cut page: the non-blank band texts, in band order, one per line. */
  function ChunkedText(page: PageImage, ocr: Ocr): string
    requires page.height > 0
  {
    Join(FilterSeq(ChunkTexts(page, ocr, ChunkCount(page.height)), HasText), "\n")
  }

  /** The bounds the loop computes for band `i` are the band's own. */
  lemma ChunkBounds(height: nat, i: nat, chunkHeight: nat)
    requires height > 0 && chunkHeight == ChunkHeight(height)
    ensures i * chunkHeight == ChunkTop(height, i)
    ensures Min(height, (i + 1) * chunkHeight + ChunkOverlap) == ChunkBottom(height, i)
  { }

  /** `_process_chunks`. */
  method ProcessChunks(page: PageImage, ocr: Ocr) returns (text: string)
    requires page.height > 0
    ensures text == ChunkedText(page, ocr)
  {
    var height := page.height;
    var numChunks := Min(MaxChunks, (height + MaxChunkHeight - 1) / MaxChunkHeight);
    assert numChunks == ChunkCount(height);
    var chunkHeight := height / numChunks;
    assert chunkHeight == ChunkHeight(height);
    var results: seq<string> := [];
    for i := 0 to numChunks
      invariant results == FilterSeq(ChunkTexts(page, ocr, i), HasText)
    {
      ChunkBounds(height, i, chunkHeight);
      var startY := i * chunkHeight;
      var endY := Min(height, (i + 1) * chunkHeight + ChunkOverlap);
      var chunkText := OcrText(ocr, Band(page, startY, endY));
      assert ChunkTexts(page, ocr, i + 1) == ChunkTexts(page, ocr, i) + [chunkText];
      FilterSeqSnoc(ChunkTexts(page, ocr, i), chunkText, HasText);
      if !IsBlank(chunkText) {
        results := results + [chunkText];
      }
    }
    text := Join(results, "\n");
  }

  lemma {:induction false} BlankJoin(parts: seq<string>, sep: string)
    requires IsBlank(sep)
    requires forall k | 0 <= k < |parts| :: IsBlank(parts[k])
    ensures IsBlank(Join(parts, sep))
    decreases |parts|
  {
    if |parts| > 1 {
      BlankJoin(parts[1..], sep);
    }
  }

  lemma BlankContains(s: string, t: string)
    requires IsBlank(s) && Contains(s, t)
    ensures IsBlank(t)
  {
    var i :| 0 <= i <= |s| && OccursAt(s, t, i);
    forall j | 0 <= j < |t| ensures IsSpace(t[j]) {
      assert t[j] == s[i..i + |t|][j] == s[i + j];
    }
  }

  /**
   * A cut page reads as blank exactly when every band reads as blank, and in
   * particular when the OCR engine fails on every band.
   */
  lemma ChunkedTextBlank(page: PageImage, ocr: Ocr)
    requires page.height > 0
    ensures IsBlank(ChunkedText(page, ocr)) ==>
              forall i | 0 <= i < ChunkCount(page.height) :: IsBlank(ChunkTexts(page, ocr, ChunkCount(page.height))[i])
    ensures (forall i | 0 <= i < ChunkCount(page.height) :: IsBlank(ChunkTexts(page, ocr, ChunkCount(page.height))[i]))
            ==> IsBlank(ChunkedText(page, ocr))
  {
    var texts := ChunkTexts(page, ocr, ChunkCount(page.height));
    var kept := FilterSeq(texts, HasText);
    assert ChunkedText(page, ocr) == Join(kept, "\n");
    if forall i | 0 <= i < |texts| :: IsBlank(texts[i]) {
      forall k | 0 <= k < |kept| ensures IsBlank(kept[k]) {
        FilterSeqElements(texts, HasText, k);
      }
      BlankJoin(kept, "\n");
    } else {
      var i :| 0 <= i < |texts| && !IsBlank(texts[i]);
      KeptTextShows(texts, i);
    }
  }

  /** A non-blank band text makes the joined kept texts non-blank. */
  lemma KeptTextShows(texts: seq<string>, i: nat)
    requires i < |texts| && !IsBlank(texts[i])
    ensures !IsBlank(Join(FilterSeq(texts, HasText), "\n"))
  {
    var kept := FilterSeq(texts, HasText);
    FilterSeqKeeps(texts, HasText, texts[i]);
    var k :| 0 <= k < |kept| && kept[k] == texts[i];
    assert OccursAt(kept[k], kept[k], 0);
    ContainsJoinElement(kept, "\n", k, kept[k]);
    if IsBlank(Join(kept, "\n")) {
      BlankContains(Join(kept, "\n"), kept[k]);
    }
  }

  /** An OCR failure on a band contributes nothing. */
  lemma FailedBandReadsEmpty(page: PageImage, ocr: Ocr, i: nat)
    requires page.height > 0 && i < ChunkCount(page.height)
    requires ocr(Band(page, ChunkTop(page.height, i), ChunkBottom(page.height, i))).Err?
    ensures ChunkTexts(page, ocr, ChunkCount(page.height))[i] == ""
  {
    ChunkTextsPrefix(page, ocr, i + 1, ChunkCount(page.height));
  }

  lemma {:induction false} ChunkTextsPrefix(page: PageImage, ocr: Ocr, k: nat, m: nat)
    requires page.height > 0 && k <= m
    ensures ChunkTexts(page, ocr, m)[..k] == ChunkTexts(page, ocr, k)
    decreases m - k
  {
    if k < m {
      ChunkTextsPrefix(page, ocr, k, m - 1);
      assert ChunkTexts(page, ocr, m)[..m - 1] == ChunkTexts(page, ocr, m - 1);
    } else {
      assert ChunkTexts(page, ocr, m)[..m] == ChunkTexts(page, ocr, m);
    }
  }

  // ---------------------------------------------------------------------------
  // Reading a page that is not cut

  /** The first text of greatest yield, as Python's `max` with a key picks it. */
  function BestIndex(texts: seq<string>): (r: nat)
    requires |texts| >= 1
    ensures r < |texts|
    ensures forall j | 0 <= j < |texts| :: Yield(texts[j]) <= Yield(texts[r])
    ensures forall j | 0 <= j < r :: Yield(texts[j]) < Yield(texts[r])
  {
    if |texts| == 1 then 0
    else
      var r := BestIndex(texts[..|texts| - 1]);
      assert forall j | 0 <= j < |texts| - 1 :: texts[..|texts| - 1][j] == texts[j];
      if Yield(texts[|texts| - 1]) > Yield(texts[r]) then |texts| - 1 else r
  }

  /** The readings of the raw, contrast-enhanced and sharpened page, in that order. */
  function VariantTexts(page: PageImage, ocr: Ocr): (texts: seq<string>)
    ensures |texts| == 3
  {
    [OcrText(ocr, Whole(page, Raw)), OcrText(ocr, Whole(page, MoreContrast)), OcrText(ocr, Whole(page, Sharpened))]
  }

  /** `_process_small_image`: the reading with the most characters, the earliest on a tie. */
  function SmallImageText(page: PageImage, ocr: Ocr): (r: string)
    ensures r in VariantTexts(page, ocr)
    ensures forall t | t in VariantTexts(page, ocr) :: Yield(t) <= Yield(r)
    ensures Yield(OcrText(ocr, Whole(page, Raw))) == Yield(r) ==> r == OcrText(ocr, Whole(page, Raw))
    ensures var texts := VariantTexts(page, ocr);
            || r == texts[0]
            || (Yield(texts[0]) < Yield(r) && r == texts[1])
            || (Yield(texts[0]) < Yield(r) && Yield(texts[1]) < Yield(r) && r == texts[2])
  {
    var texts := VariantTexts(page, ocr);
    var i := BestIndex(texts);
    assert i > 0 ==> Yield(texts[0]) < Yield(texts[i]);
    texts[i]
  }

  /** The text of one page, by the path `_process_page` chooses. */
  function PageText(page: PageImage, ocr: Ocr): string {
    if IsOversize(page.height) then ChunkedText(page, ocr) else SmallImageText(page, ocr)
  }

  /** `_process_page`. */
  method ProcessPage(page: PageImage, ocr: Ocr) returns (text: string)
    ensures IsOversize(page.height) ==> text == ChunkedText(page, ocr)
    ensures !IsOversize(page.height) ==> text in VariantTexts(page, ocr)
    ensures text == PageText(page, ocr)
  {
    if page.height > 12000 {
      text := ProcessChunks(page, ocr);
    } else {
      text := SmallImageText(page, ocr);
    }
  }

  // ---------------------------------------------------------------------------
  // Rasterising a PDF

  /** The rasteriser at a resolution: the page images, or the text of the exception it raised. */
  type Rasterizer = nat -> Result<seq<PageImage>, string>

  /**
   * The test that classifies a failure as an oversized image: the message
   * holds "exceeds limit", or holds "decompression bomb" once lower-cased.
   */
  predicate TooLargeMessage(message: string) {
    Contains(message, "exceeds limit") || Contains(LowerAscii(message), "decompression bomb")
  }

  /** "decompression bomb" is recognised in any ASCII letter case, wherever it stands in the message. */
  lemma DecompressionBombAnyCase(before: string, phrase: string, after: string)
    requires LowerAscii(phrase) == "decompression bomb"
    ensures TooLargeMessage(before + phrase + after)
  {
    LowerAsciiAppend(before, phrase);
    LowerAsciiAppend(before + phrase, after);
    ContainsMiddle(LowerAscii(before), LowerAscii(phrase), LowerAscii(after));
  }

  /** The attempt at `dpi` failed, and its message classifies it as too large. */
  predicate TooLargeAt(rasterize: Rasterizer, dpi: nat) {
    rasterize(dpi).Err? && TooLargeMessage(rasterize(dpi).error)
  }

  /** Why a conversion fails. */
  datatype ConvertError =
    | UnsupportedFileType(suffix: string)
    | RasterizeFailed(message: string)
    | TooLargeAtEveryDpi
    | ImageLoadFailed(message: string)

  /** The text of the exception a failed conversion raises. */
  function ErrorMessage(e: ConvertError): string {
    match e
    case UnsupportedFileType(suffix) => "不支持的文件类型: " + suffix
    case RasterizeFailed(message) => message
    case TooLargeAtEveryDpi => "PDF转换失败：即使在最低DPI下图像仍然过大"
    case ImageLoadFailed(message) => "图片文件加载失败: " + message
  }

  /** The resolutions tried, in order. */
  function DpiLevels(dpi: nat): seq<nat> {
    [dpi, 250, 200, 150]
  }

  /** The outcome of trying `levels` in order. */
  function Ladder(levels: seq<nat>, rasterize: Rasterizer): Result<seq<PageImage>, ConvertError> {
    if levels == [] then Err(TooLargeAtEveryDpi)
    else match rasterize(levels[0])
      case Ok(images) => Ok(images)
      case Err(message) =>
        if TooLargeMessage(message) then Ladder(levels[1..], rasterize) else Err(RasterizeFailed(message))
  }

  /** `_safe_convert_pdf`. */
  method SafeConvertPdf(dpi: nat, rasterize: Rasterizer) returns (r: Result<seq<PageImage>, ConvertError>)
    ensures r == Ladder(DpiLevels(dpi), rasterize)
  {
    var dpiLevels := [dpi, 250, 200, 150];
    for i := 0 to |dpiLevels|
      invariant Ladder(dpiLevels, rasterize) == Ladder(dpiLevels[i..], rasterize)
    {
      assert dpiLevels[i..][1..] == dpiLevels[i + 1..];
      var attempt := rasterize(dpiLevels[i]);
      match attempt
      case Ok(images) =>
        return Ok(images);
      case Err(message) =>
        if TooLargeMessage(message) {
          continue;
        }
        // any other error is raised again at once
        return Err(RasterizeFailed(message));
    }
    return Err(TooLargeAtEveryDpi);
  }

  /**
   * The ladder succeeds with the images of the first resolution that does
   * not fail; every resolution before it was too large.
   */
  lemma {:induction false} LadderSuccess(levels: seq<nat>, rasterize: Rasterizer)
    requires Ladder(levels, rasterize).Ok?
    ensures exists k | 0 <= k < |levels| ::
              && rasterize(levels[k]) == Ok(Ladder(levels, rasterize).value)
              && forall j | 0 <= j < k :: TooLargeAt(rasterize, levels[j])
    decreases |levels|
  {
    if rasterize(levels[0]).Err? {
      LadderSuccess(levels[1..], rasterize);
      var k :| 0 <= k < |levels[1..]| && rasterize(levels[1..][k]) == Ok(Ladder(levels[1..], rasterize).value)
               && forall j | 0 <= j < k :: TooLargeAt(rasterize, levels[1..][j]);
      assert rasterize(levels[k + 1]) == Ok(Ladder(levels, rasterize).value);
      forall j | 0 <= j < k + 1 ensures TooLargeAt(rasterize, levels[j]) {
        if j > 0 {
          assert levels[j] == levels[1..][j - 1];
        }
      }
    } else {
      assert rasterize(levels[0]) == Ok(Ladder(levels, rasterize).value);
    }
  }

  /** A failure whose message does not classify it as too large is raised at once. */
  lemma {:induction false} LadderRaises(levels: seq<nat>, rasterize: Rasterizer, k: nat)
    requires k < |levels| && rasterize(levels[k]).Err? && !TooLargeMessage(rasterize(levels[k]).error)
    requires forall j | 0 <= j < k :: TooLargeAt(rasterize, levels[j])
    ensures Ladder(levels, rasterize) == Err(RasterizeFailed(rasterize(levels[k]).error))
    decreases k
  {
    if k > 0 {
      LadderRaises(levels[1..], rasterize, k - 1);
    }
  }

  /** The ladder gives up exactly when every resolution is too large. */
  lemma {:induction false} LadderExhausted(levels: seq<nat>, rasterize: Rasterizer)
    ensures Ladder(levels, rasterize) == Err(TooLargeAtEveryDpi) <==>
              forall j | 0 <= j < |levels| :: TooLargeAt(rasterize, levels[j])
    decreases |levels|
  {
    if levels != [] {
      LadderExhausted(levels[1..], rasterize);
      if forall j | 0 <= j < |levels[1..]| :: TooLargeAt(rasterize, levels[1..][j]) {
        forall j | 1 <= j < |levels| ensures TooLargeAt(rasterize, levels[j]) {
          assert levels[j] == levels[1..][j - 1];
        }
      }
    }
  }

  // ---------------------------------------------------------------------------
  // Assembly

  /** The marker that opens page `n` in the assembled text. */
  function PageMarker(n: nat): string {
    "\n--- 第 " + Decimal(n) + " 页 ---\n"
  }

  function PageBlock(n: nat, text: string): string {
    PageMarker(n) + text + "\n"
  }

  /** The line the marker puts into the text, as the line filter sees it. */
  function MarkerLine(n: nat): (line: string)
    ensures PageMarker(n) == "\n" + line + "\n"
  {
    "--- 第 " + Decimal(n) + " 页 ---"
  }

  lemma MarkerHeadSymbols()
    ensures CountWhere("--- 第 ", HybridFilter.IsUpperOrSymbol) == 5
  {
    var head := "--- 第 ";
    var p := HybridFilter.IsUpperOrSymbol;
    assert p('-') && p(' ');
    HybridFilter.WideCharNotSymbol('第');
    assert head[6..] == "" && head[5..] == " " && head[4..] == "第 ";
    assert CountWhere(head[5..], p) == 1;
    assert CountWhere(head[4..], p) == 1;
    assert head[3..] == " 第 " && CountWhere(head[3..], p) == 2;
    assert head[2..] == "- 第 " && CountWhere(head[2..], p) == 3;
    assert head[1..] == "-- 第 " && CountWhere(head[1..], p) == 4;
  }

  lemma MarkerTailSymbols()
    ensures CountWhere(" 页 ---", HybridFilter.IsUpperOrSymbol) == 5
  {
    var tail := " 页 ---";
    var p := HybridFilter.IsUpperOrSymbol;
    assert p('-') && p(' ');
    HybridFilter.WideCharNotSymbol('页');
    assert tail[6..] == "" && tail[5..] == "-";
    assert CountWhere(tail[5..], p) == 1;
    assert tail[4..] == "--" && CountWhere(tail[4..], p) == 2;
    assert tail[3..] == "---" && CountWhere(tail[3..], p) == 3;
    assert tail[2..] == " ---" && CountWhere(tail[2..], p) == 4;
    assert tail[1..] == "页 ---" && CountWhere(tail[1..], p) == 4;
  }

  /** A page number holds no upper-case letter, blank or symbol. */
  lemma DigitsNotSymbols(digits: string)
    requires AllDigits(digits)
    ensures CountWhere(digits, HybridFilter.IsUpperOrSymbol) == 0
  {
    forall i | 0 <= i < |digits| ensures !HybridFilter.IsUpperOrSymbol(digits[i]) {
      assert '0' <= digits[i] <= '9';
    }
    CountWhereNone(digits, HybridFilter.IsUpperOrSymbol);
  }

  /** Ten dashes and blanks on a line of twelve characters plus the page number's digits. */
  lemma MarkerLineCount(n: nat)
    ensures CountWhere(MarkerLine(n), HybridFilter.IsUpperOrSymbol) == 10
    ensures |MarkerLine(n)| == 12 + |Decimal(n)|
  {
    var digits := Decimal(n);
    var head := "--- 第 ";
    var tail := " 页 ---";
    assert MarkerLine(n) == head + digits + tail;
    CountWhereConcat(head, digits, HybridFilter.IsUpperOrSymbol);
    CountWhereConcat(head + digits, tail, HybridFilter.IsUpperOrSymbol);
    DigitsNotSymbols(digits);
    MarkerHeadSymbols();
    MarkerTailSymbols();
  }

  /**
   * The line filter's symbol-ratio test catches the marker line exactly for
   * pages below 100: ten dashes and blanks outweigh 70% of the line only
   * while the page number has at most two digits.
   */
  lemma MarkerLineSymbolRatio(n: nat)
    ensures HybridFilter.TooManyUpperAndSymbols(MarkerLine(n)) <==> n < 100
    ensures n < 100 ==> HybridFilter.IsGarbageContent(MarkerLine(n))
  {
    MarkerLineCount(n);
    SevenTenthsClose(|MarkerLine(n)|);
  }

  /** The texts of pages `1 .. |pages|`, in page order. */
  function PageTexts(pages: seq<PageImage>, ocr: Ocr): (texts: seq<string>)
    ensures |texts| == |pages|
  {
    if pages == [] then [] else PageTexts(pages[..|pages| - 1], ocr) + [PageText(pages[|pages| - 1], ocr)]
  }

  /** The non-blank pages' blocks, in page order; page `k` holds `texts[k - 1]`. */
  function Assembled(texts: seq<string>): string {
    if texts == [] then ""
    else
      var last := texts[|texts| - 1];
      Assembled(texts[..|texts| - 1]) + (if IsBlank(last) then "" else PageBlock(|texts|, last))
  }

  /** The page numbers that get a block, in the order they appear. */
  function MarkedPages(texts: seq<string>): (pages: seq<nat>)
    ensures forall k | 0 <= k < |pages| :: 1 <= pages[k] <= |texts|
  {
    if texts == [] then []
    else MarkedPages(texts[..|texts| - 1]) + (if IsBlank(texts[|texts| - 1]) then [] else [|texts|])
  }

  /** Pages are marked in increasing order. */
  lemma {:induction false} MarkedPagesIncrease(texts: seq<string>)
    ensures forall k, m | 0 <= k < m < |MarkedPages(texts)| :: MarkedPages(texts)[k] < MarkedPages(texts)[m]
    decreases |texts|
  {
    if texts != [] {
      MarkedPagesIncrease(texts[..|texts| - 1]);
    }
  }

  /** The blocks of the given pages, in order. */
  function Blocks(texts: seq<string>, pages: seq<nat>): (r: seq<string>)
    requires forall k | 0 <= k < |pages| :: 1 <= pages[k] <= |texts|
    ensures |r| == |pages|
  {
    seq(|pages|, k requires 0 <= k < |pages| => PageBlock(pages[k], texts[pages[k] - 1]))
  }

  lemma {:induction false} ConcatSnoc(parts: seq<string>, x: string)
    ensures Concat(parts + [x]) == Concat(parts) + x
  {
    ConcatAppend(parts, [x]);
    assert Concat([x]) == x + Concat([]);
  }

  lemma ConcatBlock(parts: seq<string>, a: string, b: string, c: string)
    ensures Concat(parts + [a, b, c]) == Concat(parts) + (a + b + c)
  {
    ConcatAppend(parts, [a, b, c]);
    assert [a, b, c][1..] == [b, c] && [b, c][1..] == [c] && [c][1..] == [];
    assert Concat([c]) == c + "";
    assert Concat([a, b, c]) == a + (b + (c + ""));
  }

  /** Blocks of pages up to `n` depend only on the first `n` texts. */
  lemma BlocksPrefix(texts: seq<string>, n: nat, pages: seq<nat>)
    requires n <= |texts|
    requires forall k | 0 <= k < |pages| :: 1 <= pages[k] <= n
    ensures Blocks(texts, pages) == Blocks(texts[..n], pages)
  {
    assert forall k | 0 <= k < |pages| :: texts[..n][pages[k] - 1] == texts[pages[k] - 1];
  }

  lemma AssembledSnoc(texts: seq<string>, x: string)
    ensures Assembled(texts + [x]) == Assembled(texts) + (if IsBlank(x) then "" else PageBlock(|texts| + 1, x))
  {
    var all := texts + [x];
    assert all[..|all| - 1] == texts && all[|all| - 1] == x && |all| == |texts| + 1;
  }

  lemma BlocksSnoc(texts: seq<string>, pages: seq<nat>, p: nat)
    requires forall k | 0 <= k < |pages| :: 1 <= pages[k] <= |texts|
    requires 1 <= p <= |texts|
    ensures Blocks(texts, pages + [p]) == Blocks(texts, pages) + [PageBlock(p, texts[p - 1])]
  {
    var all := pages + [p];
    assert forall k | 0 <= k < |pages| :: all[k] == pages[k];
  }

  /** The assembled text is the blocks of the marked pages, in page order. */
  lemma {:induction false} AssembledBlocks(texts: seq<string>)
    ensures Assembled(texts) == Concat(Blocks(texts, MarkedPages(texts)))
    decreases |texts|
  {
    if texts != [] {
      var n := |texts| - 1;
      var before := MarkedPages(texts[..n]);
      AssembledBlocks(texts[..n]);
      BlocksPrefix(texts, n, before);
      if IsBlank(texts[n]) {
        assert Assembled(texts) == Assembled(texts[..n]) + "";
        assert MarkedPages(texts) == before + [];
        assert before + [] == before;
        assert Assembled(texts[..n]) + "" == Assembled(texts[..n]);
      } else {
        assert Assembled(texts) == Assembled(texts[..n]) + PageBlock(n + 1, texts[n]);
        assert MarkedPages(texts) == before + [n + 1];
        BlocksSnoc(texts, before, n + 1);
        ConcatSnoc(Blocks(texts, before), PageBlock(n + 1, texts[n]));
      }
    }
  }

  /** A page is marked exactly when its text is not blank. */
  lemma {:induction false} MarkedPagesExact(texts: seq<string>, p: nat)
    requires 1 <= p <= |texts|
    ensures p in MarkedPages(texts) <==> !IsBlank(texts[p - 1])
    decreases |texts|
  {
    var init := texts[..|texts| - 1];
    if p < |texts| {
      MarkedPagesExact(init, p);
      assert init[p - 1] == texts[p - 1];
    }
  }

  /** Blank pages leave no trace: a document of blank pages assembles to nothing. */
  lemma {:induction false} AssembledAllBlank(texts: seq<string>)
    requires forall k | 0 <= k < |texts| :: IsBlank(texts[k])
    ensures Assembled(texts) == ""
    decreases |texts|
  {
    if texts != [] {
      AssembledAllBlank(texts[..|texts| - 1]);
    }
  }

  // ---------------------------------------------------------------------------
  // Capacity guard

  /** The unfiltered text replaces a filtered text of fewer than 4096 characters. */
  function CapacityGuard(raw: string, filtered: string): (r: string)
    ensures r == raw || r == filtered
    ensures Yield(r) >= CapacityThreshold || r == raw
    ensures Yield(r) >= Min(CapacityThreshold, Yield(raw))
    ensures Yield(filtered) < CapacityThreshold ==> r == raw
    ensures Yield(filtered) >= CapacityThreshold ==> r == filtered
  {
    if Yield(filtered) < CapacityThreshold then raw else filtered
  }

  /** The result of `convert` for the given pages: filtered, unless too little survives. */
  function ConvertedText(pages: seq<PageImage>, ocr: Ocr): string {
    var raw := Assembled(PageTexts(pages, ocr));
    CapacityGuard(raw, HybridFilter.MainContent(raw))
  }

  // ---------------------------------------------------------------------------
  // File type

  function DropTrailingSlashes(path: string): (r: string)
    ensures r == [] || r[|r| - 1] != '/'
    ensures |r| <= |path| && r == path[..|r|]
  {
    if path != [] && path[|path| - 1] == '/' then DropTrailingSlashes(path[..|path| - 1]) else path
  }

  /** The text after the last `/`. */
  function LastComponent(path: string): (r: string)
    ensures '/' !in r
  {
    if path == [] || path[|path| - 1] == '/' then [] else LastComponent(path[..|path| - 1]) + [path[|path| - 1]]
  }

  /**
   * The path without the trailing slashes and trailing `.` components that
   * `PurePath` drops: `x/./` becomes `x`, and `.` becomes the empty path.
   */
  function TrimTail(path: string): (r: string)
    ensures r == [] || (r[|r| - 1] != '/' && LastComponent(r) != ".")
    ensures |r| <= |path| && r == path[..|r|]
    decreases |path|
  {
    var base := DropTrailingSlashes(path);
    if LastComponent(base) == "." then TrimTail(base[..|base| - 1]) else base
  }

  /** A path that ends in a name other than `.` is its own tail. */
  lemma TrimTailStays(path: string)
    requires path != [] && path[|path| - 1] != '/' && LastComponent(path) != "."
    ensures TrimTail(path) == path
  {
  }

  lemma TrimTailSlash(path: string)
    ensures TrimTail(path + "/") == TrimTail(path)
  {
    assert (path + "/")[..|path|] == path;
    assert DropTrailingSlashes(path + "/") == DropTrailingSlashes(path);
  }

  /** A trailing `.` component is dropped with the slash before it. */
  lemma TrimTailDot(path: string)
    ensures TrimTail(path + "/.") == TrimTail(path)
  {
    var p := path + "/.";
    assert p == (path + "/") + ".";
    assert p[..|p| - 1] == path + "/";
    LastComponentAppend(path + "/", ".");
    assert LastComponent(p) == ".";
    assert DropTrailingSlashes(p) == p;
    TrimTailSlash(path);
  }

  /** `Path(path).name`: the last component that is neither empty nor `.`. */
  function FileName(path: string): (r: string)
    ensures '/' !in r && r != "."
  {
    LastComponent(TrimTail(path))
  }

  /** The index of the last `.` in `name`, if any. */
  function LastDot(name: string): (r: Option<nat>)
    ensures r.Some? ==> r.value < |name| && name[r.value] == '.' && '.' !in name[r.value + 1..]
    ensures r.None? ==> '.' !in name
  {
    if name == [] then None
    else if name[|name| - 1] == '.' then Some(|name| - 1)
    else
      var r := LastDot(name[..|name| - 1]);
      assert r.Some? ==> name[r.value + 1..] == name[..|name| - 1][r.value + 1..] + [name[|name| - 1]];
      assert r.None? ==> name == name[..|name| - 1] + [name[|name| - 1]];
      r
  }

  /** `PurePath.suffix`: from the last dot, unless it is the first or the last character. */
  function Suffix(name: string): string {
    match LastDot(name)
    case Some(i) => if 0 < i < |name| - 1 then name[i..] else ""
    case None => ""
  }

  datatype FileType = Pdf | Image

  const ImageSuffixes: seq<string> := [".jpg", ".jpeg", ".png", ".bmp", ".tiff", ".tif"]

  /** `_detect_file_type`. */
  function DetectFileType(path: string): (r: Result<FileType, ConvertError>)
    ensures r == Ok(Pdf) <==> LowerAscii(Suffix(FileName(path))) == ".pdf"
    ensures r == Ok(Image) <==> LowerAscii(Suffix(FileName(path))) in ImageSuffixes
    ensures r.Err? ==> r.error == UnsupportedFileType(LowerAscii(Suffix(FileName(path))))
  {
    var suffix := LowerAscii(Suffix(FileName(path)));
    if suffix == ".pdf" then Ok(Pdf)
    else if suffix in ImageSuffixes then Ok(Image)
    else Err(UnsupportedFileType(suffix))
  }

  lemma {:induction false} LastComponentAppend(path: string, ext: string)
    requires '/' !in ext
    ensures LastComponent(path + ext) == LastComponent(path) + ext
    decreases |ext|
  {
    if ext != [] {
      var init := ext[..|ext| - 1];
      LastComponentAppend(path, init);
      assert (path + ext)[..|path + ext| - 1] == path + init;
    } else {
      assert path + ext == path;
    }
  }

  lemma {:induction false} LastDotAppend(name: string, ext: string)
    requires ext != [] && ext[0] == '.' && '.' !in ext[1..]
    ensures LastDot(name + ext) == Some(|name|)
    decreases |ext|
  {
    if |ext| == 1 {
      assert (name + ext)[|name|] == '.';
    } else {
      var init := ext[..|ext| - 1];
      assert init[1..] == ext[1..|ext| - 1];
      assert ext[|ext| - 1] in ext[1..];
      LastDotAppend(name, init);
      assert (name + ext)[..|name + ext| - 1] == name + init;
    }
  }

  /**
   * A file named `stem + ext`, where `ext` is a dot and at least one further
   * character without dots or slashes, has suffix `ext`, whatever the case of
   * its letters.
   */
  lemma SuffixOfExtension(stem: string, ext: string)
    requires stem != [] && stem[|stem| - 1] != '/'
    requires |ext| >= 2 && ext[0] == '.' && '.' !in ext[1..] && '/' !in ext
    ensures Suffix(FileName(stem + ext)) == ext
  {
    assert (stem + ext)[|stem + ext| - 1] == ext[|ext| - 1];
    LastComponentAppend(stem, ext);
    TrimTailStays(stem + ext);
    var name := LastComponent(stem);
    assert name != [];
    LastDotAppend(name, ext);
    assert (name + ext)[|name|..] == ext;
  }

  /** Upper-case letters in the extension do not matter: `report.PDF` is a PDF. */
  lemma DetectPdfAnyCase(stem: string, ext: string)
    requires stem != [] && stem[|stem| - 1] != '/'
    requires |ext| >= 2 && ext[0] == '.' && '.' !in ext[1..] && '/' !in ext
    requires LowerAscii(ext) == ".pdf"
    ensures DetectFileType(stem + ext) == Ok(Pdf)
  {
    SuffixOfExtension(stem, ext);
  }

  /** A file whose extension is an image one in any letter case, such as `scans/page.TIF`, is an image. */
  lemma DetectImageAnyCase(stem: string, ext: string)
    requires stem != [] && stem[|stem| - 1] != '/'
    requires |ext| >= 2 && ext[0] == '.' && '.' !in ext[1..] && '/' !in ext
    requires LowerAscii(ext) in ImageSuffixes
    ensures DetectFileType(stem + ext) == Ok(Image)
  {
    SuffixOfExtension(stem, ext);
  }

  /** A file name without a dot has no suffix and is refused. */
  lemma DetectNoSuffix(path: string)
    requires '.' !in FileName(path)
    ensures DetectFileType(path) == Err(UnsupportedFileType(""))
  {
  }

  // ---------------------------------------------------------------------------
  // Conversion

  /**
   * `convert`: the text written to the output file. The file itself, and the
   * output path the method returns, are not modelled.
   */
  method Convert(inputPath: string, rasterize: Rasterizer, loadImage: Result<PageImage, string>, ocr: Ocr,
                 dpi: nat := DefaultDpi)
    returns (r: Result<string, ConvertError>)
    ensures DetectFileType(inputPath).Err? ==> r == Err(DetectFileType(inputPath).error)
    ensures DetectFileType(inputPath) == Ok(Pdf) ==>
              r == (match Ladder(DpiLevels(dpi), rasterize)
                    case Ok(pages) => Ok(ConvertedText(pages, ocr))
                    case Err(e) => Err(e))
    ensures DetectFileType(inputPath) == Ok(Image) ==>
              r == (match loadImage
                    case Ok(page) => Ok(ConvertedText([page], ocr))
                    case Err(message) => Err(ImageLoadFailed(message)))
  {
    var fileType := DetectFileType(inputPath);
    if fileType.Err? {
      return Err(fileType.error);
    }
    var images: seq<PageImage>;
    if fileType.value == Pdf {
      var rasterized := SafeConvertPdf(dpi, rasterize);
      if rasterized.Err? {
        return Err(rasterized.error);
      }
      images := rasterized.value;
    } else {
      if loadImage.Err? {
        return Err(ImageLoadFailed(loadImage.error));
      }
      images := [loadImage.value];
    }
    var finalText := ConvertPages(images, ocr);
    return Ok(finalText);
  }

  /**
   * The part of `convert` after the images are obtained: read every page,
   * assemble, filter, and apply the capacity guard.
   */
  method ConvertPages(images: seq<PageImage>, ocr: Ocr) returns (finalText: string)
    ensures finalText == ConvertedText(images, ocr)
  {
    var allText: seq<string> := [];
    for i := 0 to |images|
      invariant Concat(allText) == Assembled(PageTexts(images[..i], ocr))
    {
      assert images[..i + 1][..i] == images[..i];
      var pageNum := i + 1;
      var text := ProcessPage(images[i], ocr);
      ghost var texts := PageTexts(images[..i], ocr);
      assert PageTexts(images[..i + 1], ocr) == texts + [text];
      AssembledSnoc(texts, text);
      if !IsBlank(text) {
        ConcatBlock(allText, PageMarker(pageNum), text, "\n");
        allText := allText + [PageMarker(pageNum), text, "\n"];
      }
    }
    assert images[..|images|] == images;
    var rawText := Concat(allText);
    var filteredText := HybridFilter.ExtractMainContent(rawText);
    if Yield(filteredText) < CapacityThreshold {
      finalText := rawText;
    } else {
      finalText := filteredText;
    }
  }
}
