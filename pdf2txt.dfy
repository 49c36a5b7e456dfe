/**
 * The original PDF-to-text converter.
 *
 * Pages are numbered from 1 in the order the rasteriser returns them, read
 * in parallel, and the per-page results, which may arrive in any order, are
 * sorted by page number. Every page then contributes its marker and its
 * text, even when the text is empty. A page whose reading fails contributes
 * an error note in place of its text.
 *
 * The rasteriser and the preprocessing-plus-OCR reading of a page are
 * oracles. The parallel map is modelled by its guarantee: the results arrive
 * as some permutation of the per-page results.
 */
module Pdf2Txt {
  import opened TextUtil
  import opened EnhancedConverter

  /** Reading one page: preprocessing and OCR, or the message of the exception raised. */
  type Reader = PageImage -> Result<string, string>

  /** `(page_num, text)`. */
  datatype PageResult = PageResult(page: nat, text: string)

  /** The note that stands for the text of a page whose reading failed. */
  function FailureNote(page: nat, message: string): string {
    "第" + Decimal(page) + "页识别失败: " + message
  }

  /** Different pages or messages give different notes: the note names both. */
  lemma FailureNoteNames(page: nat, message: string, page': nat, message': string)
    ensures FailureNote(page, message) == FailureNote(page', message') <==> page == page' && message == message'
  {
    var d, d' := Decimal(page), Decimal(page');
    var s, s' := FailureNote(page, message), FailureNote(page', message');
    if s == s' {
      var tail, tail' := "页识别失败: " + message, "页识别失败: " + message';
      assert s == "第" + (d + tail) && s' == "第" + (d' + tail');
      assert d + tail == s[1..] == d' + tail';
      DigitsThenRest(d, tail, d', tail');
      DecimalInjective(page, page');
      assert message == tail[7..] == message';
    }
  }

  /** `process_single_page`: the stripped text, or the failure note; it never fails itself. */
  function ProcessSinglePage(page: nat, image: PageImage, read: Reader): (r: PageResult)
    ensures r.page == page
    ensures read(image).Ok? ==> Strip(r.text) == r.text && Contains(read(image).value, r.text)
    ensures read(image).Ok? ==> r.text == Strip(read(image).value)
    ensures read(image).Err? ==> StartsWith(r.text, "第" + Decimal(page) + "页识别失败: ")
    ensures read(image).Err? ==> r.text == FailureNote(page, read(image).error)
  {
    match read(image)
    case Ok(text) =>
      StripIdempotent(text);
      StripOccurs(text);
      PageResult(page, Strip(text))
    case Err(message) =>
      assert (("第" + Decimal(page) + "页识别失败: ") + message)[..|"第" + Decimal(page) + "页识别失败: "|]
             == "第" + Decimal(page) + "页识别失败: ";
      PageResult(page, FailureNote(page, message))
  }

  /** The per-page results in page order: page `k` is `images[k - 1]`. */
  function ProcessedPages(images: seq<PageImage>, read: Reader): seq<PageResult> {
    seq(|images|, k requires 0 <= k < |images| => ProcessSinglePage(k + 1, images[k], read))
  }

  // ---------------------------------------------------------------------------
  // Sorting by page

  predicate SortedByPage(rs: seq<PageResult>) {
    forall i, j | 0 <= i < j < |rs| :: rs[i].page <= rs[j].page
  }

  predicate StrictlyByPage(rs: seq<PageResult>) {
    forall i, j | 0 <= i < j < |rs| :: rs[i].page < rs[j].page
  }

  /** `x` placed before the first result whose page is not smaller. */
  function Insert(x: PageResult, rs: seq<PageResult>): (r: seq<PageResult>)
    requires SortedByPage(rs)
    ensures SortedByPage(r)
    ensures multiset(r) == multiset(rs) + multiset{x}
  {
    if rs == [] || x.page <= rs[0].page then [x] + rs
    else
      var tail := Insert(x, rs[1..]);
      InsertSorted(rs[0], rs[1..], x, tail);
      assert rs == [rs[0]] + rs[1..];
      [rs[0]] + tail
  }

  /** Every element of the tail comes from `rest` or is `x`, so none precedes `head`. */
  lemma InsertSorted(head: PageResult, rest: seq<PageResult>, x: PageResult, tail: seq<PageResult>)
    requires forall k | 0 <= k < |rest| :: head.page <= rest[k].page
    requires head.page < x.page
    requires SortedByPage(tail) && multiset(tail) == multiset(rest) + multiset{x}
    ensures SortedByPage([head] + tail)
  {
    forall k | 0 <= k < |tail| ensures head.page <= tail[k].page {
      assert tail[k] in multiset(tail);
      if tail[k] != x {
        assert tail[k] in multiset(rest);
      }
    }
  }

  /** `results.sort(key=lambda x: x[0])`. */
  function SortByPage(rs: seq<PageResult>): (r: seq<PageResult>)
    ensures SortedByPage(r)
    ensures multiset(r) == multiset(rs)
  {
    if rs == [] then []
    else
      assert rs == [rs[0]] + rs[1..];
      Insert(rs[0], SortByPage(rs[1..]))
  }

  lemma PageNumbered(images: seq<PageImage>, read: Reader, k: nat)
    requires k < |images|
    ensures |ProcessedPages(images, read)| == |images|
    ensures ProcessedPages(images, read)[k].page == k + 1
  {
    assert ProcessedPages(images, read)[k] == ProcessSinglePage(k + 1, images[k], read);
  }

  /** The results in page order are strictly increasing in page number. */
  lemma ProcessedPagesStrict(images: seq<PageImage>, read: Reader)
    ensures StrictlyByPage(ProcessedPages(images, read))
  {
    var rs := ProcessedPages(images, read);
    forall i, j | 0 <= i < j < |rs| ensures rs[i].page < rs[j].page {
      PageNumbered(images, read, i);
      PageNumbered(images, read, j);
    }
  }

  /** Both sequences start with the result of the smallest page. */
  lemma SameHead(a: seq<PageResult>, b: seq<PageResult>)
    requires StrictlyByPage(a) && SortedByPage(b)
    requires multiset(a) == multiset(b) && a != []
    ensures b != [] && a[0] == b[0]
  {
    assert |b| == |multiset(b)| == |a|;
    assert b[0] in multiset(a);
    var j :| 0 <= j < |a| && a[j] == b[0];
    assert a[0] in multiset(b);
    var i :| 0 <= i < |b| && b[i] == a[0];
    assert b[0].page <= b[i].page;
    assert a[0].page <= a[j].page;
    assert j == 0;
  }

  lemma StrictTail(a: seq<PageResult>)
    requires StrictlyByPage(a) && a != []
    ensures StrictlyByPage(a[1..])
  {
    forall i, j | 0 <= i < j < |a| - 1 ensures a[1..][i].page < a[1..][j].page {
      assert a[1..][i] == a[i + 1] && a[1..][j] == a[j + 1];
    }
  }

  lemma SortedTail(b: seq<PageResult>)
    requires SortedByPage(b) && b != []
    ensures SortedByPage(b[1..])
  {
    forall i, j | 0 <= i < j < |b| - 1 ensures b[1..][i].page <= b[1..][j].page {
      assert b[1..][i] == b[i + 1] && b[1..][j] == b[j + 1];
    }
  }

  /** Dropping a common head keeps the contents equal. */
  lemma TailContents(a: seq<PageResult>, b: seq<PageResult>)
    requires multiset(a) == multiset(b) && a != [] && b != [] && a[0] == b[0]
    ensures multiset(a[1..]) == multiset(b[1..])
  {
    assert a == [a[0]] + a[1..] && b == [b[0]] + b[1..];
    assert multiset(a[1..]) == multiset(a) - multiset{a[0]};
    assert multiset(b[1..]) == multiset(b) - multiset{b[0]};
  }

  /**
   * A sequence sorted by page that holds the same results as one strictly
   * increasing in page number is that sequence.
   */
  lemma {:induction false} SortedUnique(a: seq<PageResult>, b: seq<PageResult>)
    requires StrictlyByPage(a) && SortedByPage(b)
    requires multiset(a) == multiset(b)
    ensures a == b
    decreases |a|
  {
    if a == [] {
      assert |b| == |multiset(b)| == 0;
    } else {
      SameHead(a, b);
      StrictTail(a);
      SortedTail(b);
      TailContents(a, b);
      SortedUnique(a[1..], b[1..]);
      assert a == [a[0]] + a[1..] && b == [b[0]] + b[1..];
    }
  }

  /** Whatever order the results arrive in, sorting restores page order. */
  lemma SortedArrival(images: seq<PageImage>, read: Reader, arrival: seq<PageResult>)
    requires multiset(arrival) == multiset(ProcessedPages(images, read))
    ensures SortByPage(arrival) == ProcessedPages(images, read)
  {
    ProcessedPagesStrict(images, read);
    SortedUnique(ProcessedPages(images, read), SortByPage(arrival));
  }

  // ---------------------------------------------------------------------------
  // Assembly

  /** Every result's marker and text, in order; empty texts included. */
  function AssembledAll(rs: seq<PageResult>): string {
    if rs == [] then ""
    else AssembledAll(rs[..|rs| - 1]) + PageBlock(rs[|rs| - 1].page, rs[|rs| - 1].text)
  }

  /** Every page's marker appears in the assembled text, blank pages included. */
  lemma {:induction false} EveryPageMarked(rs: seq<PageResult>, k: nat)
    requires k < |rs|
    ensures Contains(AssembledAll(rs), PageMarker(rs[k].page))
    decreases |rs|
  {
    var init := rs[..|rs| - 1];
    if k < |init| {
      EveryPageMarked(init, k);
      assert init[k] == rs[k];
      ContainsInLeft(AssembledAll(init), PageBlock(rs[|rs| - 1].page, rs[|rs| - 1].text), PageMarker(rs[k].page));
    } else {
      var marker := PageMarker(rs[k].page);
      var block := PageBlock(rs[k].page, rs[k].text);
      assert OccursAt(marker, marker, 0);
      ContainsInLeft(marker, rs[k].text + "\n", marker);
      assert block == marker + (rs[k].text + "\n");
      ContainsInRight(AssembledAll(init), block, marker);
    }
  }

  /** Where no page is blank, both converters assemble the same text. */
  lemma {:induction false} AssembledAgrees(rs: seq<PageResult>, texts: seq<string>)
    requires |rs| == |texts|
    requires forall k | 0 <= k < |rs| :: rs[k] == PageResult(k + 1, texts[k]) && !IsBlank(texts[k])
    ensures AssembledAll(rs) == Assembled(texts)
    decreases |rs|
  {
    if rs != [] {
      AssembledAgrees(rs[..|rs| - 1], texts[..|texts| - 1]);
    }
  }

  /** The loop that joins the sorted results into the final text. */
  method AssembleResults(results: seq<PageResult>) returns (finalText: string)
    ensures finalText == AssembledAll(results)
  {
    var fullText: seq<string> := [];
    for i := 0 to |results|
      invariant Concat(fullText) == AssembledAll(results[..i])
    {
      assert results[..i + 1][..i] == results[..i];
      var pageNum := results[i].page;
      var text := results[i].text;
      ConcatBlock(fullText, PageMarker(pageNum), text, "\n");
      fullText := fullText + [PageMarker(pageNum), text, "\n"];
    }
    assert results[..|results|] == results;
    finalText := Concat(fullText);
  }

  // ---------------------------------------------------------------------------
  // Output path

  /** `Path.with_suffix('.txt')`: the suffix of the file name replaced, or `.txt` appended. */
  function WithTxtSuffix(path: string): (r: Result<string, string>)
    ensures r.Err? <==> FileName(path) == ""
  {
    var name := FileName(path);
    if name == "" then Err(path + " has an empty name")
    else
      var base := TrimTail(path);
      var suffix := Suffix(name);
      if |suffix| <= |base| then Ok(base[..|base| - |suffix|] + ".txt") else Ok(base + ".txt")
  }

  /** `book.pdf` becomes `book.txt`, and so does any other suffix. */
  lemma WithTxtSuffixReplaces(stem: string, ext: string)
    requires stem != [] && stem[|stem| - 1] != '/'
    requires |ext| >= 2 && ext[0] == '.' && '.' !in ext[1..] && '/' !in ext
    ensures WithTxtSuffix(stem + ext) == Ok(stem + ".txt")
    ensures Suffix(FileName(stem + ".txt")) == ".txt"
  {
    SuffixOfExtension(stem, ext);
    assert (stem + ext)[|stem + ext| - 1] == ext[|ext| - 1];
    LastComponentAppend(stem, ext);
    TrimTailStays(stem + ext);
    assert (stem + ext)[..|stem + ext| - |ext|] == stem;
    SuffixOfExtension(stem, ".txt");
  }

  /**
   * A name without a suffix gets `.txt` appended, after the trailing slashes
   * and `.` components are dropped: `scan` becomes `scan.txt` and
   * `dir/.bashrc` becomes `dir/.bashrc.txt`. The new name's suffix is `.txt`.
   */
  lemma WithTxtSuffixAppends(path: string)
    requires FileName(path) != "" && Suffix(FileName(path)) == ""
    ensures WithTxtSuffix(path) == Ok(TrimTail(path) + ".txt")
    ensures Suffix(FileName(TrimTail(path) + ".txt")) == ".txt"
  {
    var name := FileName(path);
    var base := TrimTail(path);
    assert name == LastComponent(base) && base != [];
    assert |Suffix(name)| == 0 <= |base|;
    assert WithTxtSuffix(path) == Ok(base[..|base| - 0] + ".txt");
    assert base[..|base| - 0] == base;
    SuffixOfExtension(base, ".txt");
  }

  /** On a path that ends in its name, nothing is dropped before appending. */
  lemma WithTxtSuffixAppendsToPath(path: string)
    requires path != [] && path[|path| - 1] != '/' && LastComponent(path) != "."
    requires FileName(path) != "" && Suffix(FileName(path)) == ""
    ensures WithTxtSuffix(path) == Ok(path + ".txt")
  {
    TrimTailStays(path);
    WithTxtSuffixAppends(path);
  }

  /** `.` has an empty name and cannot be renamed. */
  lemma WithTxtSuffixDot()
    ensures WithTxtSuffix(".").Err?
  {
    assert LastComponent(".") == ".";
    assert TrimTail(".") == "";
  }

  /** A trailing `/.` changes neither the name nor the renamed path: `x/.` becomes `x.txt`. */
  lemma WithTxtSuffixTrailingDot(path: string)
    ensures FileName(path + "/.") == FileName(path)
    ensures WithTxtSuffix(path + "/.").Ok? ==> WithTxtSuffix(path + "/.") == WithTxtSuffix(path)
  {
    TrimTailDot(path);
  }

  // ---------------------------------------------------------------------------
  // Conversion

  /** What `convert` produces: the output path and the text written there. */
  datatype Conversion = Conversion(outputPath: string, text: string)

  /**
   * `PDF2TXT.convert`. `arrival` is the order in which the parallel map
   * delivers the per-page results: some permutation of them.
   */
  method Convert(pdfPath: string, pdfExists: bool, outputPath: Option<string>,
                 rasterized: Result<seq<PageImage>, string>, read: Reader, arrival: seq<PageResult>)
    returns (r: Result<Conversion, string>)
    requires rasterized.Ok? ==> multiset(arrival) == multiset(ProcessedPages(rasterized.value, read))
    ensures !pdfExists ==> r == Err("PDF文件不存在: " + pdfPath)
    ensures pdfExists && outputPath.None? && WithTxtSuffix(pdfPath).Err? ==> r == Err(WithTxtSuffix(pdfPath).error)
    ensures r.Ok? ==> rasterized.Ok? && r.value.text == AssembledAll(ProcessedPages(rasterized.value, read))
    ensures r.Ok? && outputPath.None? ==> Ok(r.value.outputPath) == WithTxtSuffix(pdfPath)
    ensures r.Ok? && outputPath.Some? ==> r.value.outputPath == outputPath.value
    ensures pdfExists && rasterized.Err? ==>
              (r == Err("PDF转换失败: " + rasterized.error) || (outputPath.None? && WithTxtSuffix(pdfPath).Err?))
    ensures pdfExists && rasterized.Ok? && (outputPath.Some? || WithTxtSuffix(pdfPath).Ok?) ==> r.Ok?
  {
    if !pdfExists {
      return Err("PDF文件不存在: " + pdfPath);
    }
    var output: string;
    if outputPath.None? {
      var renamed := WithTxtSuffix(pdfPath);
      if renamed.Err? {
        return Err(renamed.error);
      }
      output := renamed.value;
    } else {
      output := outputPath.value;
    }
    if rasterized.Err? {
      return Err("PDF转换失败: " + rasterized.error);
    }
    var images := rasterized.value;
    var results := SortByPage(arrival);
    SortedArrival(images, read, arrival);
    var text := AssembleResults(results);
    return Ok(Conversion(output, text));
  }
}
