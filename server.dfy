/** The `/extract` endpoint: save the upload, run the fusing extractor on it
    and choose the response. Request parsing and the saving of the upload are
    one input: the uploaded file's name, or the exception they raised. */
module Server {
  import opened Attempts
  import opened Naming
  import opened Fusion
  import opened Extraction

  const UploadDir := "uploads"
  const OutputTxtPath := "output_with_graphics.txt"
  const ImageOutputDir := "extracted_images"

  /** The JSON body: the message and text on success, otherwise an error. */
  datatype Body = Extracted(message: string, extractedText: string) | Failure(error: string)

  datatype Response = Response(status: int, body: Body)

  /** The response for what the extractor returned: the text must be present
      and non-empty (truthy) for 200; otherwise the message goes back as an
      error with 400. */
  function Respond(message: string, text: Option<string>): (r: Response)
    ensures r.status == 200 || r.status == 400
    ensures r.status == 200 <==> text.Some? && text.value != ""
    ensures r.status == 200 ==> r.body == Extracted(message, text.value)
    ensures r.status == 400 ==> r.body == Failure(message)
  {
    if text.Some? && text.value != "" then Response(200, Extracted(message, text.value))
    else Response(400, Failure(message))
  }

  /** `extract_pdf`: 500 exactly when receiving the upload raised; 200
      exactly when the run raised nothing and the fused text is non-empty,
      with that text in the body; 400 otherwise, including every exception
      of the run itself, which the extractor turns into an error message. */
  method ExtractPdf(upload: Attempt<string>, env: Environment) returns (r: Response)
    ensures upload.Raised? ==> r == Response(500, Failure(upload.error))
    ensures upload.Done? ==>
              var report := Extract(Join(UploadDir, upload.value), OutputTxtPath, ImageOutputDir, env);
              r == Respond(report.message, report.text)
    ensures r.status == 500 <==> upload.Raised?
    ensures r.status == 200 <==>
              upload.Done? && env.sourceExists && env.makeImageDir.Pass? && env.document.Done? &&
              AllReadable(env.document.value) && env.writeText.Pass? &&
              DocumentText(ImageOutputDir, env.document.value) != ""
    ensures r.status == 200 ==>
              r.body == Extracted(GraphicsSavedMessage(OutputTxtPath), DocumentText(ImageOutputDir, env.document.value))
  {
    if upload.Raised? {
      return Response(500, Failure(upload.error));
    }
    var pdfPath := Join(UploadDir, upload.value);
    var message, text, saved, written := PdfToTextWithGraphics(pdfPath, OutputTxtPath, ImageOutputDir, env);
    ExtractSucceedsIff(pdfPath, OutputTxtPath, ImageOutputDir, env);
    if text.Some? {
      ExtractSuccess(pdfPath, OutputTxtPath, ImageOutputDir, env);
    }
    r := Respond(message, text);
  }

  /** A run that succeeds but finds no text at all is answered with 400, and
      the success message is sent back as the error. */
  lemma EmptyTextGets400(upload: Attempt<string>, env: Environment)
    requires upload.Done? && env.sourceExists && env.makeImageDir.Pass? && env.document.Done?
    requires AllReadable(env.document.value) && env.writeText.Pass?
    requires DocumentText(ImageOutputDir, env.document.value) == ""
    ensures var report := Extract(Join(UploadDir, upload.value), OutputTxtPath, ImageOutputDir, env);
            Respond(report.message, report.text) == Response(400, Failure(GraphicsSavedMessage(OutputTxtPath)))
  {
    ExtractSuccess(Join(UploadDir, upload.value), OutputTxtPath, ImageOutputDir, env);
  }

  /** An exception inside the run is answered with 400, never 500, and the
      body carries the first exception's message. */
  lemma RunExceptionGets400(upload: Attempt<string>, env: Environment)
    requires upload.Done? && env.sourceExists && FirstException(env).Some?
    ensures var report := Extract(Join(UploadDir, upload.value), OutputTxtPath, ImageOutputDir, env);
            Respond(report.message, report.text) ==
            Response(400, Failure("An error occurred: " + FirstException(env).value))
  {
    ExtractFailure(Join(UploadDir, upload.value), OutputTxtPath, ImageOutputDir, env);
  }

  /** The first image of the first page is saved as `page1_img1` in the image directory. */
  lemma FirstImageName()
    ensures ImageFileName(ImageOutputDir, 0, 0, "png") == "extracted_images/page1_img1.png"
  {
  }

  /** A two-page document: page 1 reads "Hello" and holds one PNG image whose
      OCR text is "World"; page 2 is empty. The text is page 1's text and one
      OCR block; page 2 adds nothing. */
  lemma HelloWorldDocument(upload: Attempt<string>)
    requires upload.Done?
    ensures var pages := [Page(Done("Hello"), [Image("png", Recognized("World"))]), Page(Done(""), [])];
            var env := Environment(true, Pass, Done(pages), Pass);
            var report := Extract(Join(UploadDir, upload.value), OutputTxtPath, ImageOutputDir, env);
            report.text == Some("Hello" + OcrBlock("extracted_images/page1_img1.png", "World")) &&
            report.saved == ["extracted_images/page1_img1.png"] &&
            Respond(report.message, report.text).status == 200
  {
    var pages := [Page(Done("Hello"), [Image("png", Recognized("World"))]), Page(Done(""), [])];
    var name := "extracted_images/page1_img1.png";
    FirstImageName();
    var first := Progress("Hello" + OcrBlock(name, "World"), [name], None);
    assert "" + "Hello" == "Hello";
    assert StepPage(ImageOutputDir, 0, pages[0], Start) ==
           ImagesUpTo(ImageOutputDir, 0, pages[0].images, 1, Progress("Hello", [], None));
    assert ImagesUpTo(ImageOutputDir, 0, pages[0].images, 1, Progress("Hello", [], None)) == first;
    assert PagesUpTo(ImageOutputDir, pages, 1) == first;
    assert first.text + "" == first.text;
    assert PagesUpTo(ImageOutputDir, pages, 2) == first;
  }
}
