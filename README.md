# pdf2txt: a verified model of the OCR text pipeline

pdf2txt turns scanned PDF files and images into plain text. The scanned pages
are rasterised and read by an OCR engine. The page texts are joined behind page
markers (`--- 第 n 页 ---`). A content filter then keeps the article and drops
page furniture, OCR noise and reader comments. This project models in Dafny the
parts of that pipeline that are logic rather than image processing, and proves
properties of them:

- `TextUtil` (`text_util.dfy`) holds the Python string and number operations the code
  relies on, with their properties:
  - `str.strip`, `str.split('\n')`, `sep.join`, `str(n)`;
  - the product of a length with a float constant, rounded as an IEEE double;
  - the character classes behind the regular expressions;
  - the "character count" that ignores blanks and line breaks.
- `HybridFilter` (`hybrid_filter.dfy`) models the hybrid line classifier of
  `content_filter_hybrid.py`. It has two scans. The boundary scan is a
  three-flag state machine for text containing 划重点. The conservative scan
  handles all other text. Each scan is a method with a loop, proved equal to a
  left fold of a step function. The properties are lemmas about the steps and
  the folds.
- `DjgFilter` (`djg_filter.dfy`) models the DJG plug-in filter. It classifies
  each line, then merges the kept lines into paragraphs. Both loops are methods
  proved against folds.
- `BaseFilter` (`base_filter.dfy`) models the base-class contract:
  - the name and description fields;
  - `get_info` and `__str__`;
  - dispatch of `extract_main_content`.
- `FilterRegistry` (`filter_registry.dfy`) models the registry:
  - `FilterManager` is a class whose table and key order the loader updates in
    place;
  - `get_filter` with its `default` fallback and its error message;
  - `list_filters`.
- `EnhancedConverter` (`enhanced_converter.dfy`) models the enhanced converter:
  - band geometry for tall pages, and the band loop;
  - the best of three readings for other pages;
  - the DPI fallback ladder;
  - page assembly, which drops blank pages;
  - the 4096-character guard;
  - file-type detection from the path suffix.
- `Pdf2Txt` (`pdf2txt.dfy`) models the original converter:
  - per-page reading that never fails;
  - page numbering;
  - the sort by page number of results that arrive in any order;
  - assembly of every page, blank ones included;
  - `with_suffix('.txt')`.

The OCR engine, the rasteriser and image loading are parameters of the model
(functions from their input to a text or an error). A Python exception becomes
the `Err` case of a `Result`.

Where the project's documentation and its code disagree, the model follows the
code:

- The enhanced converter drops a page whose text is blank, marker included
  (`pdf2txt_enhanced.py:59`). The documentation says no page is dropped. See
  `EnhancedConverter.MarkedPagesExact`.
- In the boundary scan, the continuation test comes before the comment test
  (`content_filter_hybrid.py:48`). So inside an open key-points section, a
  reader-comment line can be emitted. This happens when the last line
  emitted so far (not the line before it in the input) is a numbered point.
  It also happens when the comment line itself is more than 5 characters
  long and more than 30% CJK. `HybridFilter.BoundaryKeySectionAccepts` states
  the rule; `HybridFilter.CommentAfterKeyPointsIsEmitted` shows one such line
  after the 划重点 line.
- In the conservative scan, a line in skip mode that looks like article text is
  emitted even when it does not end skip mode
  (`content_filter_hybrid.py:109-119`). See `HybridFilter.ConservativeStepRules`.
- Page markers are not always dropped by the line filter. The symbol-ratio test
  catches a marker line only for pages below 100. See
  `EnhancedConverter.MarkerLineSymbolRatio`.
- The DJG filter classifies lines and merges paragraphs. It does not truncate
  the text at an end marker.
- No `default` filter module ships. So `get_filter()` without a name fails with
  the list of available filters (see `FilterRegistry.ShippedRegistry`).

## Model

| member | source | states |
|---|---|---|
| `TextUtil.Strip` | content_filter_hybrid.py:29 | The result has no white space at either end and is no longer than the input. |
| `TextUtil.StripOccurs` | content_filter_hybrid.py:29 | The stripped line is the piece of the input between leading and trailing white space, all of which is white space. |
| `TextUtil.StripEmpty` | content_filter_hybrid.py:11 | `s.strip()` is empty exactly when `s` is blank. |
| `TextUtil.StripIdempotent` | content_filter_hybrid.py:29 | Stripping twice is stripping once. |
| `TextUtil.Split` | content_filter_hybrid.py:22 | Splitting gives at least one piece, and no piece holds the separator. |
| `TextUtil.JoinSplit` | content_filter_hybrid.py:22 | Splitting on a character and joining again with it gives the text back. |
| `TextUtil.SplitJoin` | content_filter_hybrid.py:86 | Joining pieces free of the separator and splitting again gives the pieces back. |
| `TextUtil.YieldCounts` | pdf2txt_enhanced.py:71-72 | The "character count" with blanks and line breaks removed equals the number of other characters. |
| `TextUtil.LowerAscii` | pdf2txt_enhanced.py:212 | Lower-casing keeps the length and maps each upper-case letter to lower case, leaving other characters alone. |
| `TextUtil.Decimal` | pdf2txt_enhanced.py:60 | `str(n)` is a non-empty string of digits that denotes `n`, with no leading zero unless `n` is 0. It has one digit exactly below 10 and at most two exactly below 100. |
| `TextUtil.DecimalInjective` | pdf2txt_enhanced.py:60 | Two numbers are written the same exactly when they are equal. |
| `TextUtil.RoundToDouble` | content_filter_hybrid.py:158 | Rounding a natural number to a double leaves numbers below 2^53 alone, and is off by at most a 2^-53 fraction of the number. |
| `TextUtil.DroppedBitsOf` | content_filter_hybrid.py:158 | A number has 53 significant bits above the k bits a double drops exactly when it lies between 2^(52+k) and 2^(53+k). |
| `TextUtil.SevenTenthsClose` | content_filter_hybrid.py:158 | `n * 0.7` in floating point is within `4n / 2^53` of the exact `7n/10`. |
| `TextUtil.SixTenthsClose` | filters/djg.py:163 | `n * 0.6` in floating point is within `4n / 2^53` of the exact `6n/10`. |
| `TextUtil.StrippedNonBlankElements` | content_filter_hybrid.py:28-31 | Every line a scan looks at is the non-empty, already stripped form of some input line. |
| `HybridFilter.ChineseRatio` | content_filter_hybrid.py:208-212 | The ratio is 0 for the empty line and lies between 0 and 1. |
| `HybridFilter.RatioExceedsMeans` | content_filter_hybrid.py:134-135 | The cross-multiplied test used in the model holds exactly when the ratio exceeds the fraction. |
| `HybridFilter.WideCharNotSymbol` | content_filter_hybrid.py:157 | No non-ASCII character other than white space is in the upper-case-and-symbol class. |
| `HybridFilter.GarbageContentCases` | content_filter_hybrid.py:154-181 | A line is garbage exactly when it shows one of the patterns: more upper-case letters, blanks and symbols than the double `len(line) * 0.7` on a line longer than 10; a date stamp; two upper-case runs; an upper-case block; `Qtr`, `DATA`, `ABIES` or `AIEEE`; an `E 制` ending; or fewer than 5 characters with one outside ASCII letters, digits and CJK. |
| `HybridFilter.SeventyPercentOffTies` | content_filter_hybrid.py:157-159 | When the count is not exactly 7/10 of the length, the float test agrees with the exact 70% test for every line shorter than 2^47 characters. |
| `HybridFilter.SeventyPercentTies` | content_filter_hybrid.py:157-159 | At a tie the rounding decides. 63 such characters in a 90-character line make it garbage, because `90 * 0.7` is just below 63. 14 in a 20-character line do not, because `20 * 0.7` is exactly 14. |
| `HybridFilter.ExtractWithKeyPointsBoundary` | content_filter_hybrid.py:20-86 | The loop's output is the lines the boundary fold emits over the stripped input lines, joined by line breaks. |
| `HybridFilter.BoundaryStepAppendsAtMostLine` | content_filter_hybrid.py:28-84 | One iteration emits nothing or exactly the non-empty line it was given. |
| `HybridFilter.BoundaryOutputIsSubsequence` | content_filter_hybrid.py:22-86 | The emitted lines are stripped non-blank input lines, in input order. |
| `HybridFilter.BoundaryKeyPointsLine` | content_filter_hybrid.py:34-38 | A 划重点 line is always emitted and reopens the key-points section, even in skip mode. |
| `HybridFilter.BoundaryStepKeepsSkip` | content_filter_hybrid.py:57-75 | No iteration clears skip mode. |
| `HybridFilter.BoundarySkipSticky` | content_filter_hybrid.py:57-75 | Once skip mode is on after some prefix of the input, it stays on for every longer prefix. |
| `HybridFilter.BoundaryEmitWhileSkipping` | content_filter_hybrid.py:34-50 | In skip mode, only 划重点 lines and numbered or continuation lines of an open section are emitted. |
| `HybridFilter.BoundaryKeySectionHasHeader` | content_filter_hybrid.py:34-38 | Whenever the scan is inside a key-points section, something (the 划重点 line) has been emitted. |
| `HybridFilter.BoundaryStepKeepsHeader` | content_filter_hybrid.py:34-38 | One iteration keeps the invariant "inside a section implies output non-empty". |
| `HybridFilter.BoundaryKeySectionAccepts` | content_filter_hybrid.py:41-50 | Inside an open section, a numbered line or a continuation is emitted and the section stays open, whatever else the line holds. |
| `HybridFilter.BoundaryKeySectionCloses` | content_filter_hybrid.py:52-84 | In a reachable state, any other line ends the section. A garbage line is dropped; a comment line is dropped and sets skip mode; any other line goes to the general rules and is emitted unless skipping. |
| `HybridFilter.BoundaryKeySectionDecides` | content_filter_hybrid.py:41-66 | Inside an open section every line is either accepted with the section still open, or ends the section. |
| `HybridFilter.CommentAfterKeyPointsIsEmitted` | content_filter_hybrid.py:41-61 | The comment line `用户留言: 很赞` right after the 划重点 line is emitted and leaves the section open. |
| `HybridFilter.KeyPointsHeaderOpensSection` | content_filter_hybrid.py:34-38 | A leading 划重点 line opens the section and is emitted. |
| `HybridFilter.CommentAfterSectionEndSkipsRest` | content_filter_hybrid.py:68-75 | After the section has ended, a comment line sets skip mode and the next ordinary line is dropped. |
| `HybridFilter.ExtractWithoutKeyPoints` | content_filter_hybrid.py:88-121 | The loop's output is the lines the conservative fold emits over the stripped input lines, joined by line breaks. |
| `HybridFilter.ConservativeStepAppendsAtMostLine` | content_filter_hybrid.py:94-119 | One iteration emits nothing, or the line itself when it is neither garbage nor a comment marker. |
| `HybridFilter.ConservativeOutputIsSubsequence` | content_filter_hybrid.py:90-121 | The emitted lines are stripped non-blank input lines, in input order. |
| `HybridFilter.ConservativeStepRules` | content_filter_hybrid.py:99-119 | Garbage is dropped; a comment marker is dropped and sets skip mode. In skip mode a line is emitted exactly when it looks like article text, and skip mode ends exactly when it is also a recovery line. Outside skip mode every other line is emitted. |
| `HybridFilter.ConservativeRecovery` | content_filter_hybrid.py:109-114 | In skip mode, a clean line of 21 to 299 characters whose CJK ratio is above 0.6 is emitted and ends skip mode. |
| `HybridFilter.ConservativeOutputClean` | content_filter_hybrid.py:99-106 | No emitted line is garbage or a comment marker. |
| `HybridFilter.ConservativeKeepsCleanLines` | content_filter_hybrid.py:94-119 | On stripped clean lines the conservative scan keeps every line and never enters skip mode. |
| `HybridFilter.ExtractMainContent` | content_filter_hybrid.py:9-18 | Blank text gives the empty text. Other text goes through the boundary scan when it contains 划重点 and through the conservative scan otherwise. |
| `HybridFilter.MainContentLines` | content_filter_hybrid.py:9-18 | The output is empty, or its lines are stripped non-blank input lines in input order. |
| `HybridFilter.MainContentIdempotentWithoutKeyPoints` | content_filter_hybrid.py:88-121 | For text without 划重点, filtering the output again changes nothing. |
| `DjgFilter.DjgKeepRules` | filters/djg.py:33-57 | Header and footer lines are never kept. Otherwise chapter titles are kept. Any other kept line is not a UI element, not metadata, looks like article text and has at least 5 characters. |
| `DjgFilter.PageNumberNeverKept` | filters/djg.py:64-68 | A line of digits alone is never kept, although it could look like a numbered title. |
| `DjgFilter.RepeatedCharacterIsGibberish` | filters/djg.py:155-159 | Five equal characters in a row, other than line breaks, make a line gibberish. |
| `DjgFilter.SixtyPercentOffTies` | filters/djg.py:161-164 | When the special-character count is not exactly 6/10 of the length, the float test agrees with the exact 60% test for every line shorter than 2^47 characters. |
| `DjgFilter.SixtyPercentTies` | filters/djg.py:161-164 | `5 * 0.6` and `90 * 0.6` are exactly 3 and 54, so a count equal to them is not more than 60%. |
| `DjgFilter.MergeParagraphs` | filters/djg.py:168-196 | The merge loop returns the paragraphs of the fold joined with one blank inside a paragraph and a blank line between paragraphs. |
| `DjgFilter.MergeStepWellFormed` | filters/djg.py:176-190 | One merge step keeps the paragraphs well formed. Each is non-empty, a title stands alone, every later line is mergeable, and every new paragraph starts for a reason. |
| `DjgFilter.MergeRunWellFormed` | filters/djg.py:176-194 | The merge fold keeps that invariant over any number of lines. |
| `DjgFilter.ParagraphsShape` | filters/djg.py:168-211 | The paragraphs hold exactly the given lines in order. None is empty, a title is a paragraph of its own, and each line after a paragraph's first is shorter than 30 or starts with a lower-case letter or Chinese punctuation. Conversely, a paragraph follows another only after a title, at a title, or at a line of 30 or more characters that starts with neither. |
| `DjgFilter.MergedTextEmpty` | filters/djg.py:170-171 | No lines give the empty text. |
| `DjgFilter.OneParagraphRun` | filters/djg.py:198-205 | Short lines without titles all stay in one open paragraph. |
| `DjgFilter.MergedTextOneParagraph` | filters/djg.py:176-196 | Such lines come out joined by single blanks. |
| `DjgFilter.ExtractMainContent` | filters/djg.py:17-62 | Blank text gives the empty text; otherwise the result is the merged kept lines. |
| `DjgFilter.FilterLines` | filters/djg.py:30-57 | The loop collects exactly the stripped, non-blank lines that the classifier keeps, in input order. |
| `DjgFilter.KeepLine` | filters/djg.py:38-57 | The checks, in their order, keep a line exactly when the keep decision holds for it. |
| `DjgFilter.KeptLinesExact` | filters/djg.py:30-60 | A line is kept exactly when it is a stripped non-blank input line that passes the classifier, and the paragraphs hold the kept lines in order. |
| `BaseFilter.Instantiate` | filters/base_filter.py:16-19 | A new filter is named after its class. A plug-in that sets no description of its own has the base description. |
| `BaseFilter.GetInfo` | filters/base_filter.py:34-40 | The info has exactly the keys `name`, `description` and `class`, mapped to the filter's name, its description and its class name. |
| `BaseFilter.ToString` | filters/base_filter.py:42-43 | The rendering is the name, then `: `, then the description. |
| `BaseFilter.Extract` | filters/base_filter.py:21-32 | A DJG filter extracts what `DJGContentFilter.extract_main_content` returns, so the empty text on blank input. A plug-in filter extracts what its own code returns. |
| `BaseFilter.InfoOfInstance` | filters/base_filter.py:34-40 | For a new filter, `name` and `class` agree on the class name, and `description` is the class's description. |
| `BaseFilter.DjgDescription` | filters/djg.py:13-15 | The DJG filter replaces the base description, and renders as `DJGContentFilter: ` followed by its description. |
| `BaseFilter.ToStringInjective` | filters/base_filter.py:42-43 | For equal names, equal renderings mean equal descriptions, and the reverse. |
| `FilterRegistry.FirstFilterClassFrom` | filters/__init__.py:40-48 | The first filter class among the attributes is found, and none is found exactly when there is none. |
| `FilterRegistry.FilterManager.constructor` | filters/__init__.py:16-18 | A new manager holds the registry loaded from the modules, with its key order consistent. |
| `FilterRegistry.FilterManager.LoadFilters` | filters/__init__.py:20-51 | The loader's nested loop leaves the table and key order the loading fold produces, and keeps them consistent: the order lists each key of the table once. |
| `FilterRegistry.FilterManager.GetFilter` | filters/__init__.py:53-64 | A registered name gives an instance of its class. An unknown name falls back to `default`. Failure happens exactly when neither exists, with the message listing the available names. |
| `FilterRegistry.FilterManager.ListFilters` | filters/__init__.py:66-68 | The listing is the registered names in insertion order. It holds every registered name once and nothing else. |
| `FilterRegistry.LoadStepConsistent` | filters/__init__.py:46 | Registering a module keeps the table and its key order in step. |
| `FilterRegistry.LoadedConsistent` | filters/__init__.py:20-51 | After loading, the key order lists exactly the table's keys, each once. |
| `FilterRegistry.LoadedNames` | filters/__init__.py:25-48 | A name is registered exactly when some module with that stem loads and contributes a filter class. |
| `FilterRegistry.LoadedOrder` | filters/__init__.py:25-46 | Names registered by the first modules lead the final listing in the same order. Registering a name again does not move it. |
| `FilterRegistry.LoadedClass` | filters/__init__.py:29-46 | The class under a name is that of the last contributing module with that stem. |
| `FilterRegistry.SkippedNeverRegistered` | filters/__init__.py:25-27 | `__init__` and `base_filter` are never registered. |
| `FilterRegistry.FirstClassWins` | filters/__init__.py:40-48 | A module contributes its first filter class, whatever follows it. |
| `FilterRegistry.ShippedRegistry` | filters/__init__.py:25-48 | The shipped directory registers `djg` alone, and no `default` exists. |
| `FilterRegistry.NotFoundMessageListsNames` | filters/__init__.py:62 | The error message lists every available name as `repr` writes it inside the printed list. |
| `FilterRegistry.Repr` | filters/__init__.py:62 | `repr` of a name is quoted by `"` when the name holds `'` and no `"`, otherwise by `'`. |
| `FilterRegistry.ReprBodyRoundTrip` | filters/__init__.py:62 | Reading the escapes back gives the name: back-slash, quote, tab, newline, carriage return and `\xhh` control escapes are undone. |
| `FilterRegistry.ReprInjective` | filters/__init__.py:62 | Two names print alike exactly when they are equal. |
| `FilterRegistry.ReprPlain` | filters/__init__.py:62 | A name without `'`, back-slash or control characters prints as itself between single quotes. |
| `FilterRegistry.ReprApostropheName` | filters/__init__.py:62 | A name with `'` but no `"`, back-slash or control characters prints as itself between double quotes. |
| `FilterRegistry.ReprApostrophe` | filters/__init__.py:62 | The stem `it's` prints as `"it's"`. |
| `EnhancedConverter.ChunkCount` | pdf2txt_enhanced.py:156 | The band count is at most 6 and at least 1. Below 6 it is the ceiling of height over 10000; at 6 the page is taller than 50000. |
| `EnhancedConverter.ChunkHeightFacts` | pdf2txt_enhanced.py:156-157 | A cut page has at least two bands of at least 2000 rows, and the rows left over are fewer than the bands. |
| `EnhancedConverter.ChunkGeometry` | pdf2txt_enhanced.py:156-165 | There are 2 to 6 bands. The first starts at row 0 and the last ends at the bottom. Every band is non-empty and within the page, and each band overlaps the next by exactly 50 rows. A band spans at most the stride plus 50 rows, and the stride exceeds 10000 rows only on pages taller than 60000. |
| `EnhancedConverter.ChunksCover` | pdf2txt_enhanced.py:163-167 | Every row of a cut page lies in some band. |
| `EnhancedConverter.ProcessChunks` | pdf2txt_enhanced.py:151-177 | The band loop returns the non-blank band readings in band order, one per line. |
| `EnhancedConverter.ChunkedTextBlank` | pdf2txt_enhanced.py:171-177 | A cut page reads as blank exactly when every band reads as blank. |
| `EnhancedConverter.FailedBandReadsEmpty` | pdf2txt_enhanced.py:196-207 | An OCR failure on a band reads as the empty text. |
| `EnhancedConverter.BestIndex` | pdf2txt_enhanced.py:146 | The index chosen has the greatest character count, and every earlier index has a smaller one. |
| `EnhancedConverter.SmallImageText` | pdf2txt_enhanced.py:123-149 | The text chosen is one of the three readings, and none has more characters. It is the earliest such reading in the order raw, contrast-enhanced, sharpened. |
| `EnhancedConverter.ProcessPage` | pdf2txt_enhanced.py:112-121 | Pages taller than 12000 rows are read in bands; others by the best of three readings. |
| `EnhancedConverter.SafeConvertPdf` | pdf2txt_enhanced.py:91-110 | The loop's outcome is that of trying the resolutions `dpi`, 250, 200 and 150 in order. The loop moves on only when the exception text says the image is too large; any other exception is raised again at once. |
| `EnhancedConverter.LadderSuccess` | pdf2txt_enhanced.py:95-103 | Success returns the images of the first resolution that works. Every earlier resolution failed with a message that holds "exceeds limit", or "decompression bomb" in any letter case. |
| `EnhancedConverter.LadderRaises` | pdf2txt_enhanced.py:101-107 | A failure whose message has neither phrase is raised at once, with its own message. Every earlier failure was a too-large one. |
| `EnhancedConverter.LadderExhausted` | pdf2txt_enhanced.py:101-110 | The ladder gives up exactly when every resolution fails with a too-large message. |
| `EnhancedConverter.DecompressionBombAnyCase` | pdf2txt_enhanced.py:102 | A message holding "decompression bomb" in any ASCII letter case, anywhere, counts as too large. |
| `EnhancedConverter.MarkerLine` | pdf2txt_enhanced.py:60 | The page marker is the marker line between two line breaks. |
| `EnhancedConverter.MarkerLineCount` | pdf2txt_enhanced.py:60 | A marker line has ten dashes and blanks in 12 characters plus the page number's digits. |
| `EnhancedConverter.MarkerLineSymbolRatio` | pdf2txt_enhanced.py:60-68 | The filter's symbol-ratio test catches a marker line exactly for pages below 100, and such a line is garbage. |
| `EnhancedConverter.MarkedPagesIncrease` | pdf2txt_enhanced.py:56-62 | Markers appear in increasing page order. |
| `EnhancedConverter.AssembledBlocks` | pdf2txt_enhanced.py:54-65 | The assembled text is the marker, text and line break of each marked page, in page order. |
| `EnhancedConverter.MarkedPagesExact` | pdf2txt_enhanced.py:59-62 | A page gets a marker exactly when its text is not blank. |
| `EnhancedConverter.AssembledAllBlank` | pdf2txt_enhanced.py:59-65 | A document of blank pages assembles to the empty text. |
| `EnhancedConverter.CapacityGuard` | pdf2txt_enhanced.py:70-79 | The result is the filtered text when at least 4096 characters survive the filter, and the raw text otherwise. It never has fewer than the smaller of 4096 and the raw text's count. |
| `EnhancedConverter.DetectFileType` | pdf2txt_enhanced.py:209-219 | A path is a PDF exactly when its lower-cased suffix is `.pdf` and an image exactly when it is one of the six image suffixes. Anything else fails, naming the suffix. |
| `EnhancedConverter.SuffixOfExtension` | pdf2txt_enhanced.py:211-212 | A file named stem plus an extension has that extension as its suffix. |
| `EnhancedConverter.DetectPdfAnyCase` | pdf2txt_enhanced.py:212-215 | A file whose extension is `.pdf` in any letter case, such as `report.PDF`, is a PDF. |
| `EnhancedConverter.DetectImageAnyCase` | pdf2txt_enhanced.py:216-217 | A file whose extension is one of the image extensions in any letter case, such as `scans/page.TIF`, is an image. |
| `EnhancedConverter.DetectNoSuffix` | pdf2txt_enhanced.py:218-219 | A file name without a dot is refused with an empty suffix. |
| `EnhancedConverter.Convert` | pdf2txt_enhanced.py:36-89 | The resolution defaults to 300 dpi, as in the constructor. An unsupported type fails. A PDF's rasterising failure or an image's load failure is passed on. Otherwise the result is the converted text of the pages. |
| `EnhancedConverter.ConvertPages` | pdf2txt_enhanced.py:54-79 | Reading, assembly, filtering and the guard give the converted text of the pages. |
| `Pdf2Txt.ProcessSinglePage` | pdf2txt.py:48-65 | The page number is kept. A successful reading gives the OCR text stripped, which has no white space at either end and occurs in the OCR text. A failure gives the note `第n页识别失败: ` followed by the message. |
| `Pdf2Txt.FailureNoteNames` | pdf2txt.py:63-65 | Two failure notes are equal exactly when their pages and messages are. |
| `Pdf2Txt.SortByPage` | pdf2txt.py:94 | The sorted results are in page order and a permutation of the input. |
| `Pdf2Txt.PageNumbered` | pdf2txt.py:86 | Image k (from 0) is page k + 1. |
| `Pdf2Txt.ProcessedPagesStrict` | pdf2txt.py:86 | The per-page results in page order have strictly increasing page numbers. |
| `Pdf2Txt.SortedUnique` | pdf2txt.py:88-94 | A page-sorted permutation of a strictly increasing sequence is that sequence. |
| `Pdf2Txt.SortedArrival` | pdf2txt.py:86-94 | Whatever order the parallel results arrive in, sorting restores page order. |
| `Pdf2Txt.AssembleResults` | pdf2txt.py:95-103 | The assembly loop returns each result's marker, text and line break, in order. |
| `Pdf2Txt.EveryPageMarked` | pdf2txt.py:97-100 | Every page's marker appears in the text, blank pages included. |
| `Pdf2Txt.AssembledAgrees` | pdf2txt.py:95-103 | Where no page is blank, both converters assemble the same text. |
| `Pdf2Txt.WithTxtSuffix` | pdf2txt.py:73-74 | Renaming fails exactly when the path has an empty file name. |
| `Pdf2Txt.WithTxtSuffixReplaces` | pdf2txt.py:73-74 | `stem.ext` becomes `stem.txt` for any extension, and the new name's suffix is `.txt`. |
| `Pdf2Txt.WithTxtSuffixAppends` | pdf2txt.py:73-74 | A name without a suffix gets `.txt` appended after trailing slashes and `.` components are dropped, and the new suffix is `.txt`. |
| `Pdf2Txt.WithTxtSuffixAppendsToPath` | pdf2txt.py:73-74 | A path ending in a suffix-less name becomes the path plus `.txt`: `scan` gives `scan.txt`, and `dir/.bashrc` gives `dir/.bashrc.txt`. |
| `Pdf2Txt.WithTxtSuffixDot` | pdf2txt.py:73-74 | `.` has an empty name, so renaming it fails. |
| `Pdf2Txt.WithTxtSuffixTrailingDot` | pdf2txt.py:73-74 | A trailing `/.` changes neither the name nor the renamed path, so `x/.` becomes `x.txt`. |
| `EnhancedConverter.TrimTailDot` | pdf2txt_enhanced.py:211-212 | A trailing `.` component is dropped with its slash, as `PurePath` drops it. |
| `Pdf2Txt.Convert` | pdf2txt.py:67-111 | A missing file fails. A rasteriser failure reads `PDF转换失败: ` followed by the message. Otherwise the text is the assembly of every page's result in page order, and the output path is the one given or the input with suffix `.txt`. |

## Left out

- OCR, rasterising and image loading are parameters: Tesseract, `pdf2image` and PIL. Their outputs and exceptions come from these functions.
- Image preprocessing is not modelled: `_process_image`, the contrast and sharpness enhancement, and `ImageProcessor`. A page is only its identity and size; the preprocessing variants are separate OCR inputs.
- `image_processor.py` and `batch_convert.py` are not part of this model.
- Parallel execution and the progress bar in `pdf2txt.py` are left out. The parallel map is modelled by what it delivers: the per-page results in some order.
- Writing the output file, `print` output and both command-line `main` functions are left out. So is the enhanced converter's default output name (`<stem>_converted.txt`).
- The module-level `get_filter` and `list_filters` wrappers and the global manager (`filters/__init__.py:71-82`) only forward to one `FilterManager`, and are not modelled separately.
- Scanning the directory and importing the plug-ins are replaced by a list of module entries. Each entry gives the stem, whether the import succeeds, and the attributes in `dir` order.
- Regular-expression classes are approximated:
  - `\d` is ASCII digits only (Python also matches other Unicode digits);
  - `\w` is ASCII letters, digits, `_` and CJK ideographs (Python matches every Unicode letter and digit);
  - `\s` and `str.strip` use Python's exact white-space set.
- `EnhancedConverter.DetectFileType`: `str.lower()` is modelled for ASCII letters only. Suffixes with non-ASCII upper-case letters are not lower-cased.
- Paths are `/`-separated strings. Trailing slashes and trailing `.` components are dropped, as `PurePath` drops them. Inner `.` components and repeated inner slashes are not normalised. So the missing-file message shows the path as given rather than `str(Path)`, and a renamed path keeps them where Python would remove them (`a/./b.pdf` gives `a/./b.txt`, which names the same file as `a/b.txt`).
- `FilterRegistry.Repr`: non-ASCII characters are written as they are. Python's `repr` also escapes the non-ASCII characters Unicode does not class as printable, such as U+00A0 as `\xa0`; the model does not.
- `Pdf2Txt.WithTxtSuffix`: Python raises `ValueError` for an empty file name. The model returns an error with its own wording.
- `HybridFilter.RatioExceeds`: this test, and the ratio tests of the DJG filter, divide in floating point and compare the quotient with 0.1, 0.3, 0.4, 0.5 or 0.6. The model compares the exact fractions by cross-multiplication. The two agree on lines shorter than about 10^15 characters, but that agreement is not proved. The two float products, `len(line) * 0.7` and `len(line) * 0.6`, are modelled in IEEE double arithmetic. `10000 * 1.2` is exactly 12000.0 as a double, so the oversize test is `height > 12000`.
- `Pdf2Txt.SortByPage`: Python's sort is stable. The model proves order and permutation but not stability. Page numbers are distinct, so `SortedArrival` makes the order of equal keys irrelevant.
- `EnhancedConverter.Convert` returns the text that would be written. It does not return the output path, which the method only echoes.
