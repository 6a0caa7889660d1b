/** The two extraction routines of the report server: the one that fuses
    page text with OCR text of embedded images, and the text-only one.
    Their effects on the file system and their calls into the PDF, image and
    OCR libraries are inputs (`Environment`, `Page`, `Image`) or outputs
    (`saved`, `written`). */
module Extraction {
  import opened Attempts
  import opened Naming
  import opened Fusion

  /** What the outside world does during one call of the fusing extractor. */
  datatype Environment = Environment(
    sourceExists: bool,            // whether the PDF path exists
    makeImageDir: Outcome,         // ensuring the image directory exists (creating it if missing)
    document: Attempt<seq<Page>>,  // opening and parsing the PDF
    writeText: Outcome)            // writing the output text file

  /** What one call of the fusing extractor returns (`message`, `text`) and
      does (`saved`: image files written, in order; `written`: the content of
      the output text file, when it was written). */
  datatype Report = Report(message: string, text: Option<string>, saved: seq<string>, written: Option<string>)

  function MissingMessage(path: string): string {
    "Error: The file '" + path + "' does not exist."
  }

  function ErrorMessage(error: string): string {
    "An error occurred: " + error
  }

  function GraphicsSavedMessage(outputPath: string): string {
    "Text and image data extracted and saved to '" + outputPath + "'."
  }

  function TextSavedMessage(outputPath: string): string {
    "Text extracted and saved to '" + outputPath + "'."
  }

  /** The report of the fusing extractor, step by step in the order the
      source takes them; any exception ends the call with an error message
      and no text. */
  function Extract(pdfPath: string, outputTxtPath: string, imageOutputDir: string, env: Environment): Report {
    if !env.sourceExists then Report(MissingMessage(pdfPath), None, [], None)
    else if env.makeImageDir.Fail? then Report(ErrorMessage(env.makeImageDir.error), None, [], None)
    else if env.document.Raised? then Report(ErrorMessage(env.document.error), None, [], None)
    else
      var r := Run(imageOutputDir, env.document.value);
      if r.failure.Some? then Report(ErrorMessage(r.failure.value), None, r.saved, None)
      else if env.writeText.Fail? then Report(ErrorMessage(env.writeText.error), None, r.saved, None)
      else Report(GraphicsSavedMessage(outputTxtPath), Some(r.text), r.saved, Some(r.text))
  }

  /** The first exception a call raises after the source was found, in the
      order of its steps. */
  function FirstException(env: Environment): Option<string> {
    if env.makeImageDir.Fail? then Some(env.makeImageDir.error)
    else if env.document.Raised? then Some(env.document.error)
    else if DocumentError(env.document.value).Some? then DocumentError(env.document.value)
    else if env.writeText.Fail? then Some(env.writeText.error)
    else None
  }

  /** A run ended by an exception on page `p` after `i + 1` images: the rest
      of the document is not looked at. */
  lemma AbortOnImage(dir: string, pages: seq<Page>, p: nat, i: nat, start: Progress)
    requires p < |pages| && i < |pages[p].images|
    requires PagesUpTo(dir, pages, p).failure.None? && pages[p].text.Done?
    requires start == PagesUpTo(dir, pages, p).(text := PagesUpTo(dir, pages, p).text + pages[p].text.value)
    requires ImagesUpTo(dir, p, pages[p].images, i + 1, start).failure.Some?
    ensures Run(dir, pages) == ImagesUpTo(dir, p, pages[p].images, i + 1, start)
  {
    ImagesStay(dir, p, pages[p].images, i + 1, |pages[p].images|, start);
    PagesStay(dir, pages, p + 1, |pages|);
  }

  /** `pdf_to_text_with_graphics`: walk the pages in order, appending each
      page's text and then, for each of its images, save the image and append
      an OCR block naming the saved file. */
  method PdfToTextWithGraphics(pdfPath: string, outputTxtPath: string, imageOutputDir: string, env: Environment)
    returns (message: string, text: Option<string>, saved: seq<string>, written: Option<string>)
    ensures Report(message, text, saved, written) == Extract(pdfPath, outputTxtPath, imageOutputDir, env)
  {
    if !env.sourceExists {
      return MissingMessage(pdfPath), None, [], None;
    }
    if env.makeImageDir.Fail? {
      return ErrorMessage(env.makeImageDir.error), None, [], None;
    }
    if env.document.Raised? {
      return ErrorMessage(env.document.error), None, [], None;
    }
    var pages := env.document.value;
    var extracted := "";
    saved := [];
    var p := 0;
    while p < |pages|
      invariant 0 <= p <= |pages|
      invariant PagesUpTo(imageOutputDir, pages, p) == Progress(extracted, saved, None)
    {
      var page := pages[p];
      if page.text.Raised? {
        PagesStay(imageOutputDir, pages, p + 1, |pages|);
        return ErrorMessage(page.text.error), None, saved, None;
      }
      extracted := extracted + page.text.value;
      ghost var start := Progress(extracted, saved, None);
      var i := 0;
      while i < |page.images|
        invariant 0 <= i <= |page.images|
        invariant ImagesUpTo(imageOutputDir, p, page.images, i, start) == Progress(extracted, saved, None)
      {
        var image := page.images[i];
        var imageFileName := ImageFileName(imageOutputDir, p, i, image.ext);
        assert ImagesUpTo(imageOutputDir, p, page.images, i + 1, start) ==
               StepImage(imageOutputDir, p, i, image, Progress(extracted, saved, None));
        if image.stage.OcrFailed? || image.stage.Recognized? {
          saved := saved + [imageFileName];
        }
        if !image.stage.Recognized? {
          AbortOnImage(imageOutputDir, pages, p, i, start);
          return ErrorMessage(image.stage.error), None, saved, None;
        }
        extracted := extracted + OcrBlock(imageFileName, image.stage.ocrText);
        i := i + 1;
      }
      assert page.images[..|page.images|] == page.images;
      p := p + 1;
    }
    assert Run(imageOutputDir, pages) == Progress(extracted, saved, None);
    if env.writeText.Fail? {
      return ErrorMessage(env.writeText.error), None, saved, None;
    }
    written := Some(extracted);
    return GraphicsSavedMessage(outputTxtPath), Some(extracted), saved, written;
  }

  // ---------------------------------------------------------------------
  // What the fusing extractor promises
  // ---------------------------------------------------------------------

  /** A missing source gives an error naming the path, no text, and no effect. */
  lemma MissingSourceReport(pdfPath: string, outputTxtPath: string, imageOutputDir: string, env: Environment)
    requires !env.sourceExists
    ensures Extract(pdfPath, outputTxtPath, imageOutputDir, env) ==
            Report("Error: The file '" + pdfPath + "' does not exist.", None, [], None)
  {
  }

  /** Text is returned exactly when the source exists and no step raises. */
  lemma ExtractSucceedsIff(pdfPath: string, outputTxtPath: string, imageOutputDir: string, env: Environment)
    ensures Extract(pdfPath, outputTxtPath, imageOutputDir, env).text.Some? <==>
            env.sourceExists && env.makeImageDir.Pass? && env.document.Done? &&
            AllReadable(env.document.value) && env.writeText.Pass?
  {
    if env.document.Done? {
      RunFailsWithFirstError(imageOutputDir, env.document.value);
      DocumentErrorNone(env.document.value);
    }
  }

  /** On success the text is the fused document text, the output file holds
      that same text, the message names the output file, and every image was
      saved under its own name in page and image order. */
  lemma ExtractSuccess(pdfPath: string, outputTxtPath: string, imageOutputDir: string, env: Environment)
    requires env.sourceExists && env.makeImageDir.Pass? && env.document.Done?
    requires AllReadable(env.document.value) && env.writeText.Pass?
    ensures var r := Extract(pdfPath, outputTxtPath, imageOutputDir, env);
            r.text == Some(DocumentText(imageOutputDir, env.document.value)) &&
            r.written == r.text &&
            r.message == "Text and image data extracted and saved to '" + outputTxtPath + "'." &&
            r.saved == AllNames(imageOutputDir, env.document.value)
  {
    RunReadable(imageOutputDir, env.document.value);
  }

  /** Any exception discards all text built so far: the message carries the
      first exception raised, nothing is returned and the output file is not
      written. */
  lemma ExtractFailure(pdfPath: string, outputTxtPath: string, imageOutputDir: string, env: Environment)
    requires env.sourceExists && FirstException(env).Some?
    ensures var r := Extract(pdfPath, outputTxtPath, imageOutputDir, env);
            r.text.None? && r.written.None? &&
            r.message == "An error occurred: " + FirstException(env).value
  {
    if env.makeImageDir.Pass? && env.document.Done? {
      RunFailsWithFirstError(imageOutputDir, env.document.value);
    }
  }

  /** Whatever happens, the image files written are distinct and are, in
      order, the first of the document's image names; none is written unless
      the document was opened. */
  lemma ExtractSavesInOrder(pdfPath: string, outputTxtPath: string, imageOutputDir: string, env: Environment)
    ensures var r := Extract(pdfPath, outputTxtPath, imageOutputDir, env);
            Distinct(r.saved) &&
            (env.document.Done? ==> r.saved <= AllNames(imageOutputDir, env.document.value)) &&
            (!env.sourceExists || env.makeImageDir.Fail? || env.document.Raised? ==> r.saved == [])
  {
    if env.document.Done? {
      RunSavesInOrder(imageOutputDir, env.document.value);
      RunSavesDistinct(imageOutputDir, env.document.value);
    }
  }

  /** The returned text, when there is one, is exactly what was written to
      the output file. */
  lemma WrittenIsReturned(pdfPath: string, outputTxtPath: string, imageOutputDir: string, env: Environment)
    ensures var r := Extract(pdfPath, outputTxtPath, imageOutputDir, env);
            r.written == r.text && (r.text.Some? <==> r.message == GraphicsSavedMessage(outputTxtPath))
  {
    var r := Extract(pdfPath, outputTxtPath, imageOutputDir, env);
    var head := "Text and image data extracted and saved to '";
    assert head[0] == 'T';
    assert GraphicsSavedMessage(outputTxtPath) == head + (outputTxtPath + "'.");
    if r.text.None? {
      if env.sourceExists {
        assert r.message == "An error occurred: " + r.message[19..];
        assert r.message[0] == 'A';
      } else {
        assert r.message == "Error: The file '" + (pdfPath + "' does not exist.");
        assert r.message[0] == 'E';
      }
    }
  }

  // ---------------------------------------------------------------------
  // The text-only extractor
  // ---------------------------------------------------------------------

  /** What the outside world does during one call of the text-only extractor. */
  datatype TextEnvironment = TextEnvironment(
    sourceExists: bool,                      // whether the PDF path exists
    reader: Attempt<seq<Attempt<string>>>,   // opening the file and reading its pages' texts
    writeText: Outcome)                      // writing the output text file

  predicate AllDone(texts: seq<Attempt<string>>) {
    forall i :: 0 <= i < |texts| ==> texts[i].Done?
  }

  function Values(texts: seq<Attempt<string>>): (values: seq<string>)
    requires AllDone(texts)
    ensures |values| == |texts|
  {
    seq(|texts|, i requires 0 <= i < |texts| => texts[i].value)
  }

  /** The first exception raised while reading the pages, in page order. */
  function FirstRaised(texts: seq<Attempt<string>>): Option<string> {
    if texts == [] then None
    else if texts[0].Raised? then Some(texts[0].error)
    else FirstRaised(texts[1..])
  }

  /** Reading the text of a page raises after all previous pages were read:
      that is the first exception. */
  lemma {:induction false} FirstRaisedAt(texts: seq<Attempt<string>>, k: nat)
    requires k < |texts| && AllDone(texts[..k]) && texts[k].Raised?
    ensures FirstRaised(texts) == Some(texts[k].error)
  {
    if k > 0 {
      assert texts[0] == texts[..k][0];
      assert texts[1..][..k - 1] == texts[..k][1..];
      FirstRaisedAt(texts[1..], k - 1);
    }
  }

  /** No page raises exactly when all of them are read. */
  lemma {:induction false} FirstRaisedNone(texts: seq<Attempt<string>>)
    ensures FirstRaised(texts).None? <==> AllDone(texts)
  {
    if texts != [] {
      FirstRaisedNone(texts[1..]);
      assert forall i :: 1 <= i < |texts| ==> texts[i] == texts[1..][i - 1];
    }
  }

  lemma ValuesSnoc(texts: seq<Attempt<string>>, k: nat)
    requires k < |texts| && AllDone(texts[..k + 1])
    ensures AllDone(texts[..k]) && Values(texts[..k + 1]) == Values(texts[..k]) + [texts[k].value]
  {
  }

  /** `pdf_to_text`: the texts of the pages, concatenated in page order with
      nothing between them; any exception gives an error and no text. */
  method PdfToText(pdfPath: string, outputTxtPath: string, env: TextEnvironment)
    returns (message: string, text: Option<string>, written: Option<string>)
    ensures !env.sourceExists ==>
              message == MissingMessage(pdfPath) && text.None? && written.None?
    ensures env.sourceExists && env.reader.Raised? ==>
              message == ErrorMessage(env.reader.error) && text.None? && written.None?
    ensures env.sourceExists && env.reader.Done? && FirstRaised(env.reader.value).Some? ==>
              message == ErrorMessage(FirstRaised(env.reader.value).value) && text.None? && written.None?
    ensures env.sourceExists && env.reader.Done? && AllDone(env.reader.value) && env.writeText.Fail? ==>
              message == ErrorMessage(env.writeText.error) && text.None? && written.None?
    ensures env.sourceExists && env.reader.Done? && AllDone(env.reader.value) && env.writeText.Pass? ==>
              message == TextSavedMessage(outputTxtPath) &&
              text == Some(Flatten(Values(env.reader.value))) && written == text
  {
    if !env.sourceExists {
      return MissingMessage(pdfPath), None, None;
    }
    if env.reader.Raised? {
      return ErrorMessage(env.reader.error), None, None;
    }
    var texts := env.reader.value;
    FirstRaisedNone(texts);
    var extracted := "";
    var k := 0;
    while k < |texts|
      invariant 0 <= k <= |texts|
      invariant AllDone(texts[..k])
      invariant extracted == Flatten(Values(texts[..k]))
    {
      if texts[k].Raised? {
        FirstRaisedAt(texts, k);
        return ErrorMessage(texts[k].error), None, None;
      }
      assert AllDone(texts[..k + 1]) by {
        assert forall i :: 0 <= i < k ==> texts[..k + 1][i] == texts[..k][i];
      }
      ValuesSnoc(texts, k);
      FlattenSnoc(Values(texts[..k]), texts[k].value);
      extracted := extracted + texts[k].value;
      k := k + 1;
    }
    assert texts[..|texts|] == texts;
    if env.writeText.Fail? {
      return ErrorMessage(env.writeText.error), None, None;
    }
    written := Some(extracted);
    return TextSavedMessage(outputTxtPath), Some(extracted), written;
  }

  function PageTexts(pages: seq<Page>): (texts: seq<Attempt<string>>)
    ensures |texts| == |pages|
  {
    seq(|pages|, p requires 0 <= p < |pages| => pages[p].text)
  }

  /** On a document without images, the fusing extractor returns what the
      text-only extractor returns for the same page texts. */
  lemma TextOnlyDocumentsAgree(dir: string, pages: seq<Page>)
    requires forall p :: 0 <= p < |pages| ==> pages[p].text.Done? && pages[p].images == []
    ensures AllReadable(pages) && AllDone(PageTexts(pages))
    ensures Run(dir, pages) == Progress(Flatten(Values(PageTexts(pages))), [], None)
  {
    assert AllReadable(pages);
    RunReadable(dir, pages);
    forall p | 0 <= p < |pages| ensures Contributions(dir, pages)[p] == Values(PageTexts(pages))[p] {
      PageWithoutImages(dir, p, pages[p], Start);
    }
    assert Contributions(dir, pages) == Values(PageTexts(pages));
    EmptyFlatten(NamesByPage(dir, pages));
  }

  lemma {:induction false} EmptyFlatten<T>(parts: seq<seq<T>>)
    requires forall p :: 0 <= p < |parts| ==> parts[p] == []
    ensures Flatten(parts) == []
  {
    if parts != [] {
      EmptyFlatten(parts[1..]);
    }
  }
}
