/**
 * The document text pipeline, `extract_text_from_pdf` in server.py. The
 * document library is not modelled: an opened document is the sequence of
 * its pages, each with the text layer `get_text()` returns and the outcome
 * of rendering it to an image at 2x zoom (which may raise, or give an image
 * file the OCR adapter then reads).
 */
module PdfPipeline {
  import opened Wrappers
  import opened Text
  import opened ImageOcr

  /** Rendering a page to a PNG in the temporary directory. */
  datatype Raster = RenderFailed(message: string) | Rendered(image: ImageFile)

  datatype Page = Page(embedded: string, raster: Raster)

  /** `fitz.open` either raises or yields the document's pages. */
  datatype PdfDocument = Unopenable(message: string) | Opened(pages: seq<Page>)

  /** Where a page's text came from: its text layer, or OCR of its image. */
  datatype Source = Embedded | Ocr

  /** One entry of `all_text`, before rendering: 0-based page index, source
      and body text. */
  datatype Segment = Segment(page: nat, source: Source, body: string)

  /** What one iteration of the page loop does: it raises, or it appends at
      most one segment. */
  datatype Step = Abort(message: string) | Keep(segment: Option<Segment>)

  /** The state after a prefix of the pages: the loop raised, or it holds the
      segments appended so far and the `processed_pages` counter. */
  datatype LoopState = Aborted(message: string) | Scanned(segments: seq<Segment>, processed: nat)

  /** The dictionary the tool returns, one constructor per shape. */
  datatype PdfResult =
    | PdfOk(text: string, language: string, pdfPath: string,
            totalPages: int, processedPages: nat, wordCount: nat)
    | PdfNotFound(error: string, text: string)
    | PdfFailed(error: string, text: string, pdfPath: string)

  /** A page whose stripped text layer is longer than this is not OCRed. */
  const MinEmbeddedChars: nat := 50

  const PdfNotFoundPrefix: string := "PDF-Datei nicht gefunden: "

  /** `str(e)` of the `UnboundLocalError` that reading `page_num` after a
      loop over no pages raises. */
  const UnboundPageNum: string := "cannot access local variable 'page_num' where it is not associated with a value"

  function SourceSuffix(source: Source): string {
    match source
    case Embedded => ""
    case Ocr => " (OCR)"
  }

  /** The marker line of a segment, with the 1-based page number. */
  function Heading(seg: Segment): string {
    "=== Seite " + NatToString(seg.page + 1) + SourceSuffix(seg.source) + " ==="
  }

  /** The string appended to `all_text`: marker line, newline, body. */
  function Render(seg: Segment): string {
    Heading(seg) + "\n" + seg.body
  }

  function RenderAll(segs: seq<Segment>): (xs: seq<string>)
    ensures |xs| == |segs|
  {
    seq(|segs|, k requires 0 <= k < |segs| => Render(segs[k]))
  }

  /** The file name the page image is saved under; the temporary directory
      it lives in is not modelled. */
  function PageImagePath(pageNum: nat): string {
    "page_" + NatToString(pageNum) + ".png"
  }

  function OptionToSeq(o: Option<Segment>): (s: seq<Segment>)
    ensures |s| <= 1
  {
    match o
    case None => []
    case Some(seg) => [seg]
  }

  /** One iteration of the page loop, for page `pageNum`. The OCR adapter is
      called with the project directory set and an existing file, since the
      loop has just saved it. A segment, when there is one, belongs to this
      page and has a non-empty body. */
  function PageStep(root: string, language: string, pageNum: nat, page: Page): (st: Step)
    ensures st.Abort? <==> |Strip(page.embedded)| <= MinEmbeddedChars && page.raster.RenderFailed?
    ensures st.Keep? && st.segment.Some? ==>
      st.segment.value.page == pageNum && st.segment.value.body != ""
  {
    var pageText := Strip(page.embedded);
    if |pageText| > MinEmbeddedChars then
      Keep(Some(Segment(pageNum, Embedded, pageText)))
    else
      match page.raster
      case RenderFailed(message) => Abort(message)
      case Rendered(image) =>
        var result := ExtractTextFromImage(Some(root), PageImagePath(pageNum), language, true, image);
        if result.ImageOk? && result.text != "" then
          Keep(Some(Segment(pageNum, Ocr, result.text)))
        else if pageText != "" then
          Keep(Some(Segment(pageNum, Embedded, pageText)))
        else
          Keep(None)
  }

  /** The step of every page, in index order. */
  function Steps(root: string, language: string, pages: seq<Page>): (steps: seq<Step>)
    ensures |steps| == |pages|
    ensures Indexed(steps)
  {
    seq(|pages|, j requires 0 <= j < |pages| => PageStep(root, language, j, pages[j]))
  }

  /** Every segment a step appends belongs to the page of that step. */
  predicate Indexed(steps: seq<Step>) {
    forall j :: 0 <= j < |steps| && steps[j].Keep? && steps[j].segment.Some? ==>
      steps[j].segment.value.page == j
  }

  /** The page loop: the steps taken one after the other, in page order,
      until one raises. */
  function Run(steps: seq<Step>): LoopState
    decreases |steps|
  {
    if steps == [] then Scanned([], 0)
    else
      var last := |steps| - 1;
      match Run(steps[..last])
      case Aborted(message) => Aborted(message)
      case Scanned(segs, processed) =>
        match steps[last]
        case Abort(message) => Aborted(message)
        case Keep(segment) => Scanned(segs + OptionToSeq(segment), processed + 1)
  }

  /** The result `extract_text_from_pdf` returns, as a function of its
      inputs. */
  function ExtractPdf(root: Option<string>, pdfPath: string, language: string,
                      fileExists: bool, doc: PdfDocument): PdfResult
  {
    if root.None? then PdfFailed(NoProjectDir, "", pdfPath)
    else if !fileExists then PdfNotFound(PdfNotFoundPrefix + pdfPath, "")
    else
      match doc
      case Unopenable(message) => PdfFailed(message, "", pdfPath)
      case Opened(pages) =>
        match Run(Steps(root.value, language, pages))
        case Aborted(message) => PdfFailed(message, "", pdfPath)
        case Scanned(segs, processed) =>
          if pages == [] then PdfFailed(UnboundPageNum, "", pdfPath)
          else
            var text := Join(RenderAll(segs), "\n\n");
            PdfOk(text, language, pdfPath, |pages| - 1, processed, WordCount(text))
  }

  /** The page loop of `extract_text_from_pdf` (server.py:166-199): it
      appends to `all_text`, counts `processed_pages` and leaves `page_num`
      at the last index, unbound when there are no pages; `raised` is the
      message of an exception that ends it early. */
  method PageLoop(root: string, language: string, pages: seq<Page>)
      returns (raised: Option<string>, allText: seq<string>, processedPages: nat, pageNum: Option<nat>)
    ensures raised.Some? <==> Run(Steps(root, language, pages)).Aborted?
    ensures raised.Some? ==> raised.value == Run(Steps(root, language, pages)).message
    ensures raised.None? ==>
      && allText == RenderAll(Run(Steps(root, language, pages)).segments)
      && processedPages == Run(Steps(root, language, pages)).processed
      && pageNum == if pages == [] then None else Some(|pages| - 1)
  {
    allText, processedPages, pageNum := [], 0, None;
    ghost var done: seq<Step> := [];
    ghost var segs: seq<Segment> := [];
    var i := 0;
    while i < |pages|
      invariant 0 <= i <= |pages| && |done| == i && StepsOf(root, language, pages, done)
      invariant Run(done) == Scanned(segs, processedPages)
      invariant allText == RenderAll(segs)
      invariant pageNum == if i == 0 then None else Some(i - 1)
    {
      pageNum := Some(i);
      var page := pages[i];
      var pageText := Strip(page.embedded);
      var step: Step;
      if |pageText| > MinEmbeddedChars {
        step := Keep(Some(Segment(i, Embedded, pageText)));
      } else if page.raster.RenderFailed? {
        step := Abort(page.raster.message);
      } else {
        var result := ExtractTextFromImage(Some(root), PageImagePath(i), language, true, page.raster.image);
        if result.ImageOk? && result.text != "" {
          step := Keep(Some(Segment(i, Ocr, result.text)));
        } else if pageText != "" {
          step := Keep(Some(Segment(i, Embedded, pageText)));
        } else {
          step := Keep(None);
        }
      }
      assert step == PageStep(root, language, i, page);
      Advance(root, language, pages, done, segs, processedPages, step);
      done := done + [step];
      match step {
        case Abort(message) =>
          RunThrough(root, language, pages, done);
          return Some(message), allText, processedPages, pageNum;
        case Keep(segment) =>
          RenderAllSnoc(segs, segment);
          if segment.Some? {
            allText := allText + [Render(segment.value)];
          }
          segs := segs + OptionToSeq(segment);
      }
      processedPages := processedPages + 1;
      i := i + 1;
    }
    RunThrough(root, language, pages, done);
    raised := None;
  }

  /** Rendering one more optional segment. */
  lemma RenderAllSnoc(segs: seq<Segment>, segment: Option<Segment>)
    ensures RenderAll(segs + OptionToSeq(segment))
         == RenderAll(segs) + (if segment.Some? then [Render(segment.value)] else [])
  {
    if segment.None? {
      assert segs + OptionToSeq(segment) == segs;
    }
  }

  /** One more iteration keeps the loop invariant: `done` stays the steps of
      a prefix of the pages, and the state is the run of those steps. */
  lemma Advance(root: string, language: string, pages: seq<Page>, done: seq<Step>,
                segs: seq<Segment>, processed: nat, step: Step)
    requires |done| < |pages| && StepsOf(root, language, pages, done)
    requires Run(done) == Scanned(segs, processed)
    requires step == PageStep(root, language, |done|, pages[|done|])
    ensures StepsOf(root, language, pages, done + [step])
    ensures Run(done + [step]) == match step
      case Abort(message) => Aborted(message)
      case Keep(segment) => Scanned(segs + OptionToSeq(segment), processed + 1)
  {
    RunSnoc(done, step);
    assert (done + [step])[..|done|] == done;
  }

  /** Running one more step. */
  lemma RunSnoc(done: seq<Step>, step: Step)
    ensures Run(done + [step]) == match Run(done)
      case Aborted(message) => Aborted(message)
      case Scanned(segs, processed) =>
        match step
        case Abort(message) => Aborted(message)
        case Keep(segment) => Scanned(segs + OptionToSeq(segment), processed + 1)
  {
  }

  /** `done` holds the steps of the first `|done|` pages. */
  predicate StepsOf(root: string, language: string, pages: seq<Page>, done: seq<Step>)
    decreases |done|
  {
    |done| <= |pages| &&
    (done == [] ||
     (StepsOf(root, language, pages, done[..|done| - 1]) &&
      done[|done| - 1] == PageStep(root, language, |done| - 1, pages[|done| - 1])))
  }

  lemma {:induction false} StepsOfPrefix(root: string, language: string, pages: seq<Page>, done: seq<Step>)
    requires StepsOf(root, language, pages, done)
    ensures done == Steps(root, language, pages)[..|done|]
    decreases |done|
  {
    if done != [] {
      var n := |done|;
      var steps := Steps(root, language, pages);
      StepsOfPrefix(root, language, pages, done[..n - 1]);
      assert steps[n - 1] == done[n - 1];
      assert steps[..n] == steps[..n - 1] + [steps[n - 1]];
      assert done == done[..n - 1] + [done[n - 1]];
    }
  }

  /** The steps of a prefix of the pages; once it has raised, the rest of the
      pages do not change the outcome. */
  lemma RunThrough(root: string, language: string, pages: seq<Page>, done: seq<Step>)
    requires StepsOf(root, language, pages, done)
    requires |done| == |pages| || Run(done).Aborted?
    ensures Run(Steps(root, language, pages)) == Run(done)
  {
    var steps := Steps(root, language, pages);
    StepsOfPrefix(root, language, pages, done);
    if |done| < |pages| {
      AbortIsFinal(steps, |done|);
    } else {
      assert steps == done;
    }
  }

  /** `extract_text_from_pdf`: the two guards, opening the document, the page
      loop, and the result built from `all_text`, `page_num` and
      `processed_pages`. */
  method ExtractTextFromPdf(root: Option<string>, pdfPath: string, language: string,
                            fileExists: bool, doc: PdfDocument) returns (r: PdfResult)
    ensures r == ExtractPdf(root, pdfPath, language, fileExists, doc)
  {
    if root.None? {
      return PdfFailed(NoProjectDir, "", pdfPath);
    }
    if !fileExists {
      return PdfNotFound(PdfNotFoundPrefix + pdfPath, "");
    }
    if doc.Unopenable? {
      return PdfFailed(doc.message, "", pdfPath);
    }
    var raised, allText, processedPages, pageNum := PageLoop(root.value, language, doc.pages);
    if raised.Some? {
      return PdfFailed(raised.value, "", pdfPath);
    }
    if pageNum.None? {
      return PdfFailed(UnboundPageNum, "", pdfPath);
    }
    var combinedText := Join(allText, "\n\n");
    r := PdfOk(combinedText, language, pdfPath, pageNum.value, processedPages, WordCount(combinedText));
  }

  /** Once the loop has raised, the later pages do not matter. */
  lemma {:induction false} AbortIsFinal(steps: seq<Step>, n: nat)
    requires n <= |steps| && Run(steps[..n]).Aborted?
    ensures Run(steps) == Run(steps[..n])
    decreases |steps| - n
  {
    if n < |steps| {
      assert steps[..n + 1][..n] == steps[..n];
      AbortIsFinal(steps, n + 1);
    } else {
      assert steps[..n] == steps;
    }
  }

  // ---------------------------------------------------------------------
  // One page

  /** A page with more than 50 stripped characters of text layer gives one
      segment with that text, and its image is never looked at: any other
      raster outcome gives the same step. */
  lemma LongPageUsesEmbedded(root: string, language: string, pageNum: nat, page: Page, other: Raster)
    requires |Strip(page.embedded)| > MinEmbeddedChars
    ensures PageStep(root, language, pageNum, page) == Keep(Some(Segment(pageNum, Embedded, Strip(page.embedded))))
    ensures PageStep(root, language, pageNum, page.(raster := other)) == PageStep(root, language, pageNum, page)
  {
  }

  /** A short page whose image is recognised as non-empty text gives an OCR
      segment with the stripped recognition. */
  lemma ShortPageUsesOcr(root: string, language: string, pageNum: nat, page: Page)
    requires |Strip(page.embedded)| <= MinEmbeddedChars
    requires page.raster.Rendered? && page.raster.image.Decoded?
    requires page.raster.image.recognized.Answered?
    requires Strip(page.raster.image.recognized.value) != ""
    ensures PageStep(root, language, pageNum, page)
         == Keep(Some(Segment(pageNum, Ocr, Strip(page.raster.image.recognized.value))))
  {
  }

  /** A short page whose image yields no text (undecodable, the engine
      raised, or only whitespace was recognised) falls back to its stripped
      text layer, and contributes no segment when that is empty. */
  lemma ShortPageFallsBack(root: string, language: string, pageNum: nat, page: Page)
    requires |Strip(page.embedded)| <= MinEmbeddedChars && page.raster.Rendered?
    requires var image := page.raster.image;
      image.Undecodable? || image.recognized.Raised? || Strip(image.recognized.value) == ""
    ensures PageStep(root, language, pageNum, page)
         == if Strip(page.embedded) != "" then Keep(Some(Segment(pageNum, Embedded, Strip(page.embedded))))
            else Keep(None)
  {
  }

  // ---------------------------------------------------------------------
  // The page loop

  /** `processed_pages` counts every page the loop went through, whichever
      branch it took. */
  lemma {:induction false} RunProcessed(steps: seq<Step>)
    requires Run(steps).Scanned?
    ensures Run(steps).processed == |steps|
    decreases |steps|
  {
    if steps != [] {
      RunProcessed(steps[..|steps| - 1]);
    }
  }

  /** Segments come in strictly increasing page order, each for a page of the
      document, so there is at most one per page. */
  lemma {:induction false} RunOrdered(steps: seq<Step>)
    requires Indexed(steps) && Run(steps).Scanned?
    ensures var segs := Run(steps).segments;
      && |segs| <= |steps|
      && (forall k :: 0 <= k < |segs| ==> segs[k].page < |steps|)
      && (forall k, l :: 0 <= k < l < |segs| ==> segs[k].page < segs[l].page)
    decreases |steps|
  {
    if steps != [] {
      var last := |steps| - 1;
      assert Indexed(steps[..last]);
      RunOrdered(steps[..last]);
    }
  }

  /** Every segment is what its own page's step appended, no step raised, and
      every page whose step appends a segment has one. */
  lemma RunContents(steps: seq<Step>)
    requires Indexed(steps) && Run(steps).Scanned?
    ensures var segs := Run(steps).segments;
      && (forall j :: 0 <= j < |steps| ==> steps[j].Keep?)
      && (forall k :: 0 <= k < |segs| ==>
            segs[k].page < |steps| && steps[segs[k].page] == Keep(Some(segs[k])))
      && (forall j :: 0 <= j < |steps| && steps[j].segment.Some? ==>
            exists k :: 0 <= k < |segs| && segs[k].page == j)
  {
    RunAborts(steps);
    RunSegmentsFromSteps(steps);
    RunSegmentsComplete(steps);
  }

  lemma {:induction false} RunSegmentsFromSteps(steps: seq<Step>)
    requires Indexed(steps) && Run(steps).Scanned?
    ensures var segs := Run(steps).segments;
      forall k :: 0 <= k < |segs| ==>
        segs[k].page < |steps| && steps[segs[k].page] == Keep(Some(segs[k]))
    decreases |steps|
  {
    if steps != [] {
      var last := |steps| - 1;
      var prefix := steps[..last];
      assert Indexed(prefix);
      RunSegmentsFromSteps(prefix);
      var segs := Run(steps).segments;
      var prev := Run(prefix).segments;
      assert segs == prev + OptionToSeq(steps[last].segment);
      forall k | 0 <= k < |prev| ensures steps[prev[k].page] == prefix[prev[k].page] {
      }
    }
  }

  lemma {:induction false} RunSegmentsComplete(steps: seq<Step>)
    requires Indexed(steps) && Run(steps).Scanned?
    ensures var segs := Run(steps).segments;
      forall j :: 0 <= j < |steps| && steps[j].Keep? && steps[j].segment.Some? ==>
        exists k :: 0 <= k < |segs| && segs[k].page == j
    decreases |steps|
  {
    if steps != [] {
      var last := |steps| - 1;
      var prefix := steps[..last];
      assert Indexed(prefix);
      RunSegmentsComplete(prefix);
      var segs := Run(steps).segments;
      var prev := Run(prefix).segments;
      assert segs == prev + OptionToSeq(steps[last].segment);
      forall j | 0 <= j < |steps| && steps[j].Keep? && steps[j].segment.Some?
        ensures exists k :: 0 <= k < |segs| && segs[k].page == j
      {
        if j < last {
          assert prefix[j] == steps[j];
          var k :| 0 <= k < |prev| && prev[k].page == j;
          assert segs[k] == prev[k];
        } else {
          assert segs[|prev|].page == j;
        }
      }
    }
  }

  /** The loop raises exactly when some page's step raises, and then with the
      message of the first such page. */
  lemma {:induction false} RunAborts(steps: seq<Step>)
    ensures Run(steps).Aborted? <==> exists j :: 0 <= j < |steps| && steps[j].Abort?
    ensures Run(steps).Aborted? ==>
      exists j :: 0 <= j < |steps| && steps[j] == Abort(Run(steps).message) &&
        forall i :: 0 <= i < j ==> steps[i].Keep?
    decreases |steps|
  {
    if steps != [] {
      var last := |steps| - 1;
      var prefix := steps[..last];
      RunAborts(prefix);
      assert forall j :: 0 <= j < last ==> prefix[j] == steps[j];
    }
  }

  /** A document whose every page has more than 50 stripped characters of
      text layer is never OCRed: one embedded segment per page, in order. */
  lemma {:induction false} AllLongPages(root: string, language: string, pages: seq<Page>)
    requires forall j :: 0 <= j < |pages| ==> |Strip(pages[j].embedded)| > MinEmbeddedChars
    ensures Run(Steps(root, language, pages))
         == Scanned(seq(|pages|, j requires 0 <= j < |pages| => Segment(j, Embedded, Strip(pages[j].embedded))),
                    |pages|)
    decreases |pages|
  {
    if pages != [] {
      var last := |pages| - 1;
      var prefix := pages[..last];
      AllLongPages(root, language, prefix);
      assert Steps(root, language, pages)[..last] == Steps(root, language, prefix);
    }
  }

  // ---------------------------------------------------------------------
  // The tool result

  /** When the project directory is unset or the file is missing, the
      document is never opened: the result does not depend on it, is a
      failure, and has empty text. */
  lemma PdfGuards(root: Option<string>, pdfPath: string, language: string,
                  fileExists: bool, doc1: PdfDocument, doc2: PdfDocument)
    requires root.None? || !fileExists
    ensures ExtractPdf(root, pdfPath, language, fileExists, doc1)
         == ExtractPdf(root, pdfPath, language, fileExists, doc2)
    ensures !ExtractPdf(root, pdfPath, language, fileExists, doc1).PdfOk?
    ensures ExtractPdf(root, pdfPath, language, fileExists, doc1).text == ""
  {
  }

  /** A document with no pages is a failure: the loop never binds
      `page_num`, and reading it for `total_pages` raises. */
  lemma ZeroPagesFail(root: string, pdfPath: string, language: string)
    ensures ExtractPdf(Some(root), pdfPath, language, true, Opened([]))
         == PdfFailed(UnboundPageNum, "", pdfPath)
  {
  }

  /** Every failure carries empty text, and a success comes from an opened,
      non-empty document whose loop did not raise. Its `total_pages` is the
      last page index, one less than `processed_pages`, which is the page
      count; its text is the rendered segments joined by a blank line; its
      word count is the number of tokens of that text; and the text is empty
      exactly when no page contributed a segment. */
  lemma PdfResultShape(root: Option<string>, pdfPath: string, language: string,
                       fileExists: bool, doc: PdfDocument)
    ensures var r := ExtractPdf(root, pdfPath, language, fileExists, doc);
      !r.PdfOk? ==> r.text == ""
    ensures var r := ExtractPdf(root, pdfPath, language, fileExists, doc);
      r.PdfOk? ==>
        && root.Some? && fileExists && doc.Opened? && |doc.pages| >= 1
        && Run(Steps(root.value, language, doc.pages)).Scanned?
        && var segs := Run(Steps(root.value, language, doc.pages)).segments;
        && r.totalPages == |doc.pages| - 1
        && r.processedPages == |doc.pages| == r.totalPages + 1
        && r.text == Join(RenderAll(segs), "\n\n")
        && r.wordCount == |Split(r.text)|
        && (r.text == "" <==> segs == [])
  {
    var r := ExtractPdf(root, pdfPath, language, fileExists, doc);
    if r.PdfOk? {
      RunProcessed(Steps(root.value, language, doc.pages));
      var segs := Run(Steps(root.value, language, doc.pages)).segments;
      JoinEmpty(RenderAll(segs), "\n\n");
      if segs != [] {
        assert RenderAll(segs)[0] == Render(segs[0]);
      }
    }
  }

  /** The converse: with the project directory set, an existing file and an
      opened document of at least one page, the document succeeds unless
      some page with a short text layer fails to render. A page whose OCR
      fails, or whose image does not decode, never fails the document. */
  lemma PdfSucceeds(root: string, pdfPath: string, language: string, pages: seq<Page>)
    requires pages != []
    requires forall j :: 0 <= j < |pages| ==>
      |Strip(pages[j].embedded)| > MinEmbeddedChars || pages[j].raster.Rendered?
    ensures ExtractPdf(Some(root), pdfPath, language, true, Opened(pages)).PdfOk?
  {
    RunAborts(Steps(root, language, pages));
  }

  /** The two-page case: a long first page and a blank second page whose
      OCR fails. The document still succeeds with both pages processed, and
      the blank page contributes no segment at all: the text is the first
      page's segment alone. */
  lemma BlankPageWithFailedOcr(root: string, pdfPath: string, language: string,
                               first: Page, second: Page)
    requires |Strip(first.embedded)| > MinEmbeddedChars
    requires AllSpace(second.embedded)
    requires second.raster.Rendered?
    requires second.raster.image.Undecodable? || second.raster.image.recognized.Raised?
    ensures var r := ExtractPdf(Some(root), pdfPath, language, true, Opened([first, second]));
      && r.PdfOk? && r.processedPages == 2 && r.totalPages == 1
      && r.text == Render(Segment(0, Embedded, Strip(first.embedded)))
  {
    var seg := Segment(0, Embedded, Strip(first.embedded));
    var steps := Steps(root, language, [first, second]);
    StripEmpty(second.embedded);
    LongPageUsesEmbedded(root, language, 0, first, first.raster);
    ShortPageFallsBack(root, language, 1, second);
    assert steps == [Keep(Some(seg)), Keep(None)];
    assert steps[..1][..0] == [];
    assert Run(steps[..1]) == Scanned([seg], 1);
    assert Run(steps) == Scanned([seg], 2);
    assert RenderAll([seg]) == [Render(seg)];
  }

  // ---------------------------------------------------------------------
  // Word counts

  /** The tokens of a marker line: `===`, `Seite`, the page number, `(OCR)`
      for an OCR segment, `===`. */
  lemma HeadingTokens(seg: Segment)
    ensures Split(Heading(seg)) ==
      match seg.source
      case Embedded => ["===", "Seite", NatToString(seg.page + 1), "==="]
      case Ocr => ["===", "Seite", NatToString(seg.page + 1), "(OCR)", "==="]
  {
    var n := NatToString(seg.page + 1);
    HeadingSpaced(seg);
    if seg.source == Ocr {
      SplitJoinWords(["===", "Seite", n, "(OCR)", "==="]);
    } else {
      SplitJoinWords(["===", "Seite", n, "==="]);
    }
  }

  /** The marker line is its tokens with a single space between each. */
  lemma HeadingSpaced(seg: Segment)
    ensures Heading(seg) == Join(match seg.source
      case Embedded => ["===", "Seite", NatToString(seg.page + 1), "==="]
      case Ocr => ["===", "Seite", NatToString(seg.page + 1), "(OCR)", "==="], " ")
  {
    if seg.source == Ocr {
      OcrMarkerSpaced(NatToString(seg.page + 1));
    } else {
      PlainMarkerSpaced(NatToString(seg.page + 1));
    }
  }

  lemma PlainMarkerSpaced(n: string)
    ensures "=== Seite " + n + " ===" == Join(["===", "Seite", n, "==="], " ")
  {
    var ws := ["===", "Seite", n, "==="];
    assert Join(ws[2..], " ") == n + " " + Join(["==="], " ");
    assert Join(ws[1..], " ") == "Seite" + " " + Join(ws[2..], " ");
  }

  lemma OcrMarkerSpaced(n: string)
    ensures "=== Seite " + n + " (OCR)" + " ===" == Join(["===", "Seite", n, "(OCR)", "==="], " ")
  {
    var ws := ["===", "Seite", n, "(OCR)", "==="];
    assert Join(ws[3..], " ") == "(OCR)" + " " + Join(["==="], " ");
    assert Join(ws[2..], " ") == n + " " + Join(ws[3..], " ");
    assert Join(ws[1..], " ") == "Seite" + " " + Join(ws[2..], " ");
  }

  function MarkerWords(seg: Segment): nat {
    if seg.source == Ocr then 5 else 4
  }

  /** A rendered segment has the marker's tokens and then its body's. */
  lemma RenderWords(seg: Segment)
    ensures WordCount(Render(seg)) == MarkerWords(seg) + WordCount(seg.body)
  {
    HeadingTokens(seg);
    SplitConcat(Heading(seg), "\n", seg.body);
  }

  function SegmentWords(segs: seq<Segment>): nat {
    if segs == [] then 0 else MarkerWords(segs[0]) + WordCount(segs[0].body) + SegmentWords(segs[1..])
  }

  function TotalWords(xs: seq<string>): nat {
    if xs == [] then 0 else WordCount(xs[0]) + TotalWords(xs[1..])
  }

  lemma {:induction false} ConcatLength(xs: seq<string>)
    ensures |Concat(SplitEach(xs))| == TotalWords(xs)
  {
    if xs != [] {
      ConcatLength(xs[1..]);
      assert SplitEach(xs) == [Split(xs[0])] + SplitEach(xs[1..]);
    }
  }

  lemma {:induction false} RenderedWords(segs: seq<Segment>)
    ensures TotalWords(RenderAll(segs)) == SegmentWords(segs)
  {
    if segs != [] {
      RenderWords(segs[0]);
      assert RenderAll(segs)[1..] == RenderAll(segs[1..]);
      RenderedWords(segs[1..]);
    }
  }

  /** The reported word count of a successful document is the marker tokens
      of its segments plus the tokens of their bodies. */
  lemma PdfWordCount(root: Option<string>, pdfPath: string, language: string,
                     fileExists: bool, doc: PdfDocument)
    requires ExtractPdf(root, pdfPath, language, fileExists, doc).PdfOk?
    ensures ExtractPdf(root, pdfPath, language, fileExists, doc).wordCount
         == SegmentWords(Run(Steps(root.value, language, doc.pages)).segments)
  {
    var segs := Run(Steps(root.value, language, doc.pages)).segments;
    SplitJoin(RenderAll(segs), "\n\n");
    ConcatLength(RenderAll(segs));
    RenderedWords(segs);
  }
}
