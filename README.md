# Report server text fusion, modelled in Dafny

This project models the extraction core of the report server `report-server.py`.

- `pdf_to_text_with_graphics` walks a PDF's pages in order. It appends each page's native text. For each embedded image it saves the image as `page{p}_img{i}.{ext}` in the image directory, with both numbers counted from 1, and appends an OCR block naming that file. It then writes the accumulated text to the output file and returns it with a message.
- `pdf_to_text` is the text-only variant. It concatenates the page texts with nothing between them.
- `extract_pdf` is the `/extract` endpoint. It runs the fusing extractor on the upload and chooses between 200, 400 and 500.

The PDF, image and OCR libraries, and the file system, are not modelled. The model takes what they deliver or raise as input:

- A document is a sequence of `Page`s.
- A page holds its native text, or the exception reading it raised.
- A page holds its embedded `Image`s in order.
- An image holds its extension and the stage its handling reached: unreadable, save failed, OCR failed, or recognised with the OCR text.
- An `Environment` says whether the source exists, and whether creating the image directory, opening the document and writing the output file raised.

The model returns what the source returns (the message and the text, or no text). It also returns what the source does to the file system: `saved` lists the image files written, in order, and `written` is the content of the output text file.

Modules:

- `Attempts` holds the value and exception wrappers.
- `Naming` holds Python's decimal rendering of an `int`, POSIX `os.path.join`, and the image file name scheme.
- `Fusion` has two descriptions of a run. `Run` is the left fold the loops compute: the first exception stops everything. `DocumentText`, `AllNames` and `DocumentError` are reference descriptions: each page's text followed by its OCR blocks, pages in order. Lemmas link the two.
- `Extraction` holds the two extractor methods, with their loops and invariants, and `Extract`, the function the fusing method is proved against.
- `Server` holds the status-code choice and the endpoint.

Four behaviours of the code are easy to miss, and the model keeps them:

- The code has no per-page or per-image failure isolation. One `try`/`except` around the whole function turns any exception into an error message and no text.
- Such an exception reaches the endpoint as a normal return without text, so it is answered with 400, not 500. 500 comes only from exceptions in the endpoint itself: reading the upload, creating `uploads`, saving the file.
- A run that succeeds but finds no text is answered with 400. The success message is sent back as the error.
- Image files saved before an exception stay on disk even though the text is discarded. `saved` records them.

## Model

| member | source | states |
|---|---|---|
| `Naming.DigitsWellFormed` | report-server.py:35 | the decimal rendering of a page or image number is a non-empty run of digits with no leading zero except for 0 |
| `Naming.DigitsValueOfDigits` | report-server.py:35 | reading the decimal rendering back gives the number: the rendering loses nothing |
| `Naming.DigitsInjective` | report-server.py:35 | two different numbers never render to the same digits |
| `Naming.JoinCancels` | report-server.py:35 | `os.path.join` with the same directory gives the same path for two relative names only if the names are equal |
| `Naming.ImageBaseNameInjective` | report-server.py:35 | `page{p+1}_img{i+1}.{ext}` determines the page position, the image position and the extension |
| `Naming.ImageFileNameInjective` | report-server.py:35 | inside one output directory, two different (page, image) positions never get the same file name |
| `Fusion.PageNamesDistinct` | report-server.py:27-35 | the images of one page are saved under pairwise different names |
| `Fusion.AllNamesDistinct` | report-server.py:22-35 | no two images of a document, on the same page or on different pages, share a file name |
| `Fusion.RunSavesInOrder` | report-server.py:22-36 | whether or not a run raises, the files it saves are, in order, a prefix of the document's image names in page and image order |
| `Fusion.RunSavesDistinct` | report-server.py:22-36 | a run never saves two images under the same name, so no saved image overwrites another |
| `Fusion.RunReadable` | report-server.py:20-40 | when no step raises, the text is the concatenation, in page order, of each page's native text followed by one OCR block per image in image order, and every image is saved |
| `Fusion.RunFailsWithFirstError` | report-server.py:22-40 | a run fails exactly when some page text or image raises, and it carries the first such exception in page and image order |
| `Fusion.DocumentErrorNone` | report-server.py:22-40 | a document raises nothing exactly when every page text and every image can be read, saved and recognised |
| `Fusion.PageWithoutImages` | report-server.py:24-27 | a page with no images contributes exactly its native text and saves nothing |
| `Fusion.ImagesUpToReadable` | report-server.py:27-40 | handling a page's images that all succeed appends their blocks `"\n[Image Text from " + file + "]:\n" + ocr + "\n"` in image order |
| `Fusion.PagesStay` | report-server.py:22-49 | once an exception is raised, no later page changes the text or the saved files |
| `Extraction.PdfToTextWithGraphics` | report-server.py:11-49 | the nested page and image loops return, save and write exactly what `Extract` describes, with invariants tying the accumulated text and saved files to the fold over the pages handled so far |
| `Extraction.MissingSourceReport` | report-server.py:13-14 | a missing source gives the error message naming the path, no text, no saved image and no written file |
| `Extraction.ExtractSucceedsIff` | report-server.py:12-49 | text is returned exactly when the source exists and no step raises: directory creation, opening, any page or image, writing |
| `Extraction.ExtractSuccess` | report-server.py:20-46 | on success the text is the fused document text, the output file holds that same text, the message names the output path, and all images were saved in order |
| `Extraction.ExtractFailure` | report-server.py:48-49 | any exception discards all partial text: no text, no written output, and the message carries the first exception raised |
| `Extraction.ExtractSavesInOrder` | report-server.py:16-36 | saved image files are distinct and in document order, and none is saved unless the document was opened |
| `Extraction.WrittenIsReturned` | report-server.py:43-46 | the returned text always equals what was written to the output file, and the success message appears exactly when text is returned |
| `Extraction.FirstRaisedAt` | report-server.py:62-64 | a page text that raises after all earlier pages were read is the first exception of the text-only run |
| `Extraction.FirstRaisedNone` | report-server.py:62-64 | the text-only run raises no page exception exactly when every page text is read |
| `Extraction.PdfToText` | report-server.py:51-72 | the text-only extractor returns the page texts concatenated in order with no separator, writes that same text, and gives the missing-file or first-exception message and no text otherwise |
| `Extraction.TextOnlyDocumentsAgree` | report-server.py:62-64 | on a document without images, the fusing run's text equals the text-only concatenation of the page texts, and it saves nothing |
| `Server.Respond` | report-server.py:91-94 | 200 with the message and text exactly when the text is present and non-empty; otherwise 400 with the message as the error |
| `Server.ExtractPdf` | report-server.py:74-97 | 500 exactly when receiving or saving the upload raised; 200 exactly when the run raised nothing and the fused text is non-empty, with that text in the body; 400 otherwise |
| `Server.EmptyTextGets400` | report-server.py:91-94 | a successful run that finds no text is answered with 400, with the success message in the error field |
| `Server.RunExceptionGets400` | report-server.py:89-94 | an exception inside the extractor is answered with 400, never 500, carrying the first exception's message |
| `Server.FirstImageName` | report-server.py:35 | the first image of the first page in `extracted_images` is `extracted_images/page1_img1.png` |
| `Server.HelloWorldDocument` | report-server.py:20-40 | a page "Hello" with one image reading "World", then an empty page: the text is "Hello" and one OCR block, one image is saved, and the endpoint answers 200 |

## Left out

- `test.py` is not part of this model: CLIP feature scoring (floating-point softmax over a vision-language model), EasyOCR and the FastAPI upload handler are foreign models and I/O.
- PyMuPDF and PyPDF2 parsing, image-reference resolution and PIL decoding are inputs. The model sees only the page texts, the image extensions and the OCR strings they would produce, or the exception they would raise.
- The Tesseract call is an input: each image carries the OCR text it would return.
- The two extractors use different PDF libraries. `pdf_to_text` therefore takes its own sequence of page texts, and `TextOnlyDocumentsAgree` assumes both libraries deliver the same texts.
- An exception from `page.get_images` is not a separate input. It behaves like a failure on the page's first image: the page text is appended, nothing is saved, and the run ends with that exception.
- Exception texts (`str(e)`) are opaque strings given with the input.
- The image bytes written by `image.save` are not modelled, only the names of the files written.
- If the output file opens and then the write raises, the file may be left truncated on disk. The model records the failed write as no file written.
- `os.path.join` is modelled with POSIX rules. Windows path rules are not modelled.
- Flask request parsing, creating the `uploads` directory, saving the upload and starting the server are one input to `ExtractPdf`: the uploaded file's name, or the exception raised. Whether the saved file exists afterwards is an input.
- The JSON encoding of response bodies is not modelled. A body is a datatype holding the same fields.
