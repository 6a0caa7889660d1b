/** The fusion of a document's native page text with the text recognised in
    its embedded images, as `pdf_to_text_with_graphics` builds it.

    A document is the sequence of its pages in order; a page is its native
    text and the sequence of its embedded images in order. Every step that
    can raise in the source carries its outcome as data: a page whose text
    layer cannot be read holds `Raised`, and an image holds the stage at which
    its handling raised, if any. */
module Fusion {
  import opened Attempts
  import opened Naming

  /** How far the handling of one embedded image gets. */
  datatype ImageStage =
    | Unreadable(error: string)   // extracting or decoding the image raised: nothing is saved
    | SaveFailed(error: string)   // saving the decoded image raised
    | OcrFailed(error: string)    // the image was saved, then OCR raised
    | Recognized(ocrText: string) // saved, and OCR returned this text

  /** An embedded image: the extension reported for it, and how its handling ends. */
  datatype Image = Image(ext: string, stage: ImageStage)

  /** A page: its native text (or the exception reading it raised) and its images. */
  datatype Page = Page(text: Attempt<string>, images: seq<Image>)

  /** What a run has produced so far: the accumulated text, the names of the
      image files saved, in order, and the exception that ended the run, if any. */
  datatype Progress = Progress(text: string, saved: seq<string>, failure: Option<string>)

  const Start := Progress("", [], None)

  /** The block appended for one image: its file name, then its OCR text. */
  function OcrBlock(fileName: string, ocrText: string): string {
    "\n[Image Text from " + fileName + "]:\n" + ocrText + "\n"
  }

  /** The error raised while handling an image, if any. */
  function StageError(stage: ImageStage): Option<string> {
    if stage.Recognized? then None else Some(stage.error)
  }

  // ---------------------------------------------------------------------
  // The run as the loops compute it: a left fold over pages and images in
  // which the first exception ends all further processing.
  // ---------------------------------------------------------------------

  /** Handle image `index` of page `page`. */
  function StepImage(dir: string, page: nat, index: nat, image: Image, acc: Progress): Progress {
    if acc.failure.Some? then acc
    else
      var name := ImageFileName(dir, page, index, image.ext);
      match image.stage
      case Unreadable(e) => acc.(failure := Some(e))
      case SaveFailed(e) => acc.(failure := Some(e))
      case OcrFailed(e) => acc.(saved := acc.saved + [name], failure := Some(e))
      case Recognized(t) => acc.(text := acc.text + OcrBlock(name, t), saved := acc.saved + [name])
  }

  /** Handle the first `n` images of page `page`, starting from `acc`. */
  function ImagesUpTo(dir: string, page: nat, images: seq<Image>, n: nat, acc: Progress): Progress
    requires n <= |images|
  {
    if n == 0 then acc
    else StepImage(dir, page, n - 1, images[n - 1], ImagesUpTo(dir, page, images, n - 1, acc))
  }

  /** Handle page number `index`: append its text, then handle its images. */
  function StepPage(dir: string, index: nat, page: Page, acc: Progress): Progress {
    if acc.failure.Some? then acc
    else
      match page.text
      case Raised(e) => acc.(failure := Some(e))
      case Done(t) => ImagesUpTo(dir, index, page.images, |page.images|, acc.(text := acc.text + t))
  }

  /** Handle the first `n` pages. */
  function PagesUpTo(dir: string, pages: seq<Page>, n: nat): Progress
    requires n <= |pages|
  {
    if n == 0 then Start else StepPage(dir, n - 1, pages[n - 1], PagesUpTo(dir, pages, n - 1))
  }

  /** The whole run over a document whose images are saved in `dir`. */
  function Run(dir: string, pages: seq<Page>): Progress {
    PagesUpTo(dir, pages, |pages|)
  }

  // ---------------------------------------------------------------------
  // The reference description: the document text is the concatenation, in
  // page order, of each page's contribution, and a page contributes its
  // native text followed by one OCR block per image in image order.
  // ---------------------------------------------------------------------

  function Flatten<T>(parts: seq<seq<T>>): seq<T> {
    if parts == [] then [] else parts[0] + Flatten(parts[1..])
  }

  predicate PageReadable(page: Page) {
    page.text.Done? && forall i :: 0 <= i < |page.images| ==> page.images[i].stage.Recognized?
  }

  predicate AllReadable(pages: seq<Page>) {
    forall p :: 0 <= p < |pages| ==> PageReadable(pages[p])
  }

  /** The names under which the images of page `index` are saved, in order. */
  function PageNames(dir: string, index: nat, images: seq<Image>): (names: seq<string>)
    ensures |names| == |images|
  {
    seq(|images|, i requires 0 <= i < |images| => ImageFileName(dir, index, i, images[i].ext))
  }

  /** The OCR blocks of the images of page `index`, in order. */
  function PageBlocks(dir: string, index: nat, images: seq<Image>): (blocks: seq<string>)
    requires forall i :: 0 <= i < |images| ==> images[i].stage.Recognized?
    ensures |blocks| == |images|
  {
    seq(|images|, i requires 0 <= i < |images| =>
      OcrBlock(ImageFileName(dir, index, i, images[i].ext), images[i].stage.ocrText))
  }

  function PageContribution(dir: string, index: nat, page: Page): string
    requires PageReadable(page)
  {
    page.text.value + Flatten(PageBlocks(dir, index, page.images))
  }

  function Contributions(dir: string, pages: seq<Page>): (parts: seq<string>)
    requires AllReadable(pages)
    ensures |parts| == |pages|
  {
    seq(|pages|, p requires 0 <= p < |pages| => PageContribution(dir, p, pages[p]))
  }

  /** The text of a document none of whose steps raises. */
  function DocumentText(dir: string, pages: seq<Page>): string
    requires AllReadable(pages)
  {
    Flatten(Contributions(dir, pages))
  }

  function NamesByPage(dir: string, pages: seq<Page>): (parts: seq<seq<string>>)
    ensures |parts| == |pages|
  {
    seq(|pages|, p requires 0 <= p < |pages| => PageNames(dir, p, pages[p].images))
  }

  /** The names of all images of the document, in page and image order. */
  function AllNames(dir: string, pages: seq<Page>): seq<string> {
    Flatten(NamesByPage(dir, pages))
  }

  /** The first exception among a page's images, in image order. */
  function FirstImageError(images: seq<Image>): Option<string> {
    if images == [] then None
    else if !images[0].stage.Recognized? then StageError(images[0].stage)
    else FirstImageError(images[1..])
  }

  /** The first exception a page raises: reading its text, then its images. */
  function PageError(page: Page): Option<string> {
    if page.text.Raised? then Some(page.text.error) else FirstImageError(page.images)
  }

  /** The first exception a document raises, in page order. */
  function DocumentError(pages: seq<Page>): Option<string> {
    if pages == [] then None
    else if PageError(pages[0]).Some? then PageError(pages[0])
    else DocumentError(pages[1..])
  }

  // ---------------------------------------------------------------------
  // Lemmas
  // ---------------------------------------------------------------------

  lemma {:induction false} FlattenSnoc<T>(parts: seq<seq<T>>, last: seq<T>)
    ensures Flatten(parts + [last]) == Flatten(parts) + last
  {
    if parts != [] {
      assert (parts + [last])[1..] == parts[1..] + [last];
      FlattenSnoc(parts[1..], last);
    }
  }

  /** Once an exception has been raised on a page, later images change nothing. */
  lemma {:induction false} ImagesStay(dir: string, page: nat, images: seq<Image>, k: nat, n: nat, acc: Progress)
    requires k <= n <= |images|
    requires ImagesUpTo(dir, page, images, k, acc).failure.Some?
    ensures ImagesUpTo(dir, page, images, n, acc) == ImagesUpTo(dir, page, images, k, acc)
    decreases n
  {
    if n > k {
      ImagesStay(dir, page, images, k, n - 1, acc);
    }
  }

  /** Once an exception has been raised, later pages change nothing. */
  lemma {:induction false} PagesStay(dir: string, pages: seq<Page>, k: nat, n: nat)
    requires k <= n <= |pages|
    requires PagesUpTo(dir, pages, k).failure.Some?
    ensures PagesUpTo(dir, pages, n) == PagesUpTo(dir, pages, k)
    decreases n
  {
    if n > k {
      PagesStay(dir, pages, k, n - 1);
    }
  }

  lemma {:induction false} FirstImageErrorSnoc(images: seq<Image>, last: Image)
    ensures FirstImageError(images + [last]) ==
            if FirstImageError(images).Some? then FirstImageError(images) else StageError(last.stage)
  {
    if images != [] {
      assert (images + [last])[1..] == images[1..] + [last];
      FirstImageErrorSnoc(images[1..], last);
    }
  }

  lemma {:induction false} DocumentErrorSnoc(pages: seq<Page>, last: Page)
    ensures DocumentError(pages + [last]) ==
            if DocumentError(pages).Some? then DocumentError(pages) else PageError(last)
  {
    if pages != [] {
      assert (pages + [last])[1..] == pages[1..] + [last];
      DocumentErrorSnoc(pages[1..], last);
    }
  }

  /** Handling a page's images from a clean state fails exactly with the
      first image error, in image order. */
  lemma {:induction false} ImagesUpToError(dir: string, page: nat, images: seq<Image>, n: nat, acc: Progress)
    requires n <= |images| && acc.failure.None?
    ensures ImagesUpTo(dir, page, images, n, acc).failure == FirstImageError(images[..n])
    decreases n
  {
    if n == 0 {
      assert images[..0] == [];
    } else {
      ImagesUpToError(dir, page, images, n - 1, acc);
      assert images[..n] == images[..n - 1] + [images[n - 1]];
      FirstImageErrorSnoc(images[..n - 1], images[n - 1]);
    }
  }

  lemma PageBlocksSnoc(dir: string, page: nat, images: seq<Image>, n: nat)
    requires 0 < n <= |images|
    requires forall i :: 0 <= i < n ==> images[i].stage.Recognized?
    ensures PageBlocks(dir, page, images[..n]) ==
            PageBlocks(dir, page, images[..n - 1]) +
            [OcrBlock(ImageFileName(dir, page, n - 1, images[n - 1].ext), images[n - 1].stage.ocrText)]
  {
  }

  lemma SeqAssoc<T>(a: seq<T>, b: seq<T>, c: seq<T>)
    ensures a + b + c == a + (b + c)
  {
  }

  lemma StepRecognized(dir: string, page: nat, index: nat, image: Image, acc: Progress)
    requires acc.failure.None? && image.stage.Recognized?
    ensures StepImage(dir, page, index, image, acc).failure.None?
    ensures StepImage(dir, page, index, image, acc).text ==
            acc.text + OcrBlock(ImageFileName(dir, page, index, image.ext), image.stage.ocrText)
  {
  }

  /** When no image raises, handling a page's images raises nothing and
      appends the page's OCR blocks to the text, in image order. */
  lemma {:induction false} ImagesUpToReadable(dir: string, page: nat, images: seq<Image>, n: nat, acc: Progress)
    requires n <= |images| && acc.failure.None?
    requires forall i :: 0 <= i < n ==> images[i].stage.Recognized?
    ensures ImagesUpTo(dir, page, images, n, acc).failure.None?
    ensures ImagesUpTo(dir, page, images, n, acc).text == acc.text + Flatten(PageBlocks(dir, page, images[..n]))
    decreases n
  {
    if n == 0 {
      assert images[..0] == [];
    } else {
      ImagesUpToReadable(dir, page, images, n - 1, acc);
      var before := ImagesUpTo(dir, page, images, n - 1, acc);
      var image := images[n - 1];
      assert image.stage.Recognized?;
      var block := OcrBlock(ImageFileName(dir, page, n - 1, image.ext), image.stage.ocrText);
      var blocks := PageBlocks(dir, page, images[..n - 1]);
      StepRecognized(dir, page, n - 1, image, before);
      PageBlocksSnoc(dir, page, images, n);
      FlattenSnoc(blocks, block);
      var all := PageBlocks(dir, page, images[..n]);
      assert Flatten(all) == Flatten(blocks) + block;
      SeqAssoc(acc.text, Flatten(blocks), block);
    }
  }

  /** The images handled so far on a page had their files saved in order: the
      saved names grow by a prefix of the page's names, all of them when
      nothing has raised. */
  lemma {:induction false} ImagesUpToSaved(dir: string, page: nat, images: seq<Image>, n: nat, acc: Progress)
    requires n <= |images| && acc.failure.None?
    ensures var r := ImagesUpTo(dir, page, images, n, acc);
            exists k :: 0 <= k <= n && r.saved == acc.saved + PageNames(dir, page, images)[..k]
    ensures var r := ImagesUpTo(dir, page, images, n, acc);
            r.failure.None? ==> r.saved == acc.saved + PageNames(dir, page, images)[..n]
    decreases n
  {
    var names := PageNames(dir, page, images);
    if n == 0 {
      assert acc.saved == acc.saved + names[..0];
    } else {
      ImagesUpToSaved(dir, page, images, n - 1, acc);
      var before := ImagesUpTo(dir, page, images, n - 1, acc);
      if before.failure.Some? {
        var k :| 0 <= k <= n - 1 && before.saved == acc.saved + names[..k];
        assert ImagesUpTo(dir, page, images, n, acc).saved == acc.saved + names[..k];
      } else {
        assert before.saved == acc.saved + names[..n - 1];
        assert names[..n] == names[..n - 1] + [names[n - 1]];
        var r := ImagesUpTo(dir, page, images, n, acc);
        if images[n - 1].stage.Unreadable? || images[n - 1].stage.SaveFailed? {
          assert r.saved == acc.saved + names[..n - 1];
        } else {
          assert r.saved == acc.saved + names[..n];
        }
      }
    }
  }

  /** Handling a page from a clean state fails exactly with the page's first error. */
  lemma StepPageError(dir: string, index: nat, page: Page, acc: Progress)
    requires acc.failure.None?
    ensures StepPage(dir, index, page, acc).failure == PageError(page)
  {
    if page.text.Done? {
      ImagesUpToError(dir, index, page.images, |page.images|, acc.(text := acc.text + page.text.value));
      assert page.images[..|page.images|] == page.images;
    }
  }

  /** A page none of whose steps raises appends its contribution to the text
      and all its image names to the saved files. */
  lemma StepPageReadable(dir: string, index: nat, page: Page, acc: Progress)
    requires acc.failure.None? && PageReadable(page)
    ensures StepPage(dir, index, page, acc) ==
            Progress(acc.text + PageContribution(dir, index, page),
                     acc.saved + PageNames(dir, index, page.images), None)
  {
    var t := page.text.value;
    ImagesUpToReadable(dir, index, page.images, |page.images|, acc.(text := acc.text + t));
    ImagesUpToSaved(dir, index, page.images, |page.images|, acc.(text := acc.text + t));
    assert page.images[..|page.images|] == page.images;
    assert PageNames(dir, index, page.images)[..|page.images|] == PageNames(dir, index, page.images);
    SeqAssoc(acc.text, t, Flatten(PageBlocks(dir, index, page.images)));
  }

  /** The pages handled so far fail exactly with the first error among them. */
  lemma {:induction false} PagesUpToError(dir: string, pages: seq<Page>, n: nat)
    requires n <= |pages|
    ensures PagesUpTo(dir, pages, n).failure == DocumentError(pages[..n])
    decreases n
  {
    if n == 0 {
      assert pages[..0] == [];
    } else {
      PagesUpToError(dir, pages, n - 1);
      assert pages[..n] == pages[..n - 1] + [pages[n - 1]];
      DocumentErrorSnoc(pages[..n - 1], pages[n - 1]);
      if PagesUpTo(dir, pages, n - 1).failure.None? {
        StepPageError(dir, n - 1, pages[n - 1], PagesUpTo(dir, pages, n - 1));
      }
    }
  }

  lemma ContributionsSnoc(dir: string, pages: seq<Page>, n: nat)
    requires 0 < n <= |pages| && AllReadable(pages)
    ensures Contributions(dir, pages[..n]) ==
            Contributions(dir, pages[..n - 1]) + [PageContribution(dir, n - 1, pages[n - 1])]
  {
  }

  lemma NamesByPageSnoc(dir: string, pages: seq<Page>, n: nat)
    requires 0 < n <= |pages|
    ensures NamesByPage(dir, pages[..n]) ==
            NamesByPage(dir, pages[..n - 1]) + [PageNames(dir, n - 1, pages[n - 1].images)]
  {
  }

  /** When no step raises, the pages handled so far produced the concatenation
      of their contributions and saved all their images, in order. */
  lemma {:induction false} PagesUpToReadable(dir: string, pages: seq<Page>, n: nat)
    requires n <= |pages| && AllReadable(pages)
    ensures PagesUpTo(dir, pages, n) ==
            Progress(DocumentText(dir, pages[..n]), AllNames(dir, pages[..n]), None)
    decreases n
  {
    if n == 0 {
      assert pages[..0] == [];
    } else {
      PagesUpToReadable(dir, pages, n - 1);
      var before := PagesUpTo(dir, pages, n - 1);
      StepPageReadable(dir, n - 1, pages[n - 1], before);
      ContributionsSnoc(dir, pages, n);
      NamesByPageSnoc(dir, pages, n);
      FlattenSnoc(Contributions(dir, pages[..n - 1]), PageContribution(dir, n - 1, pages[n - 1]));
      FlattenSnoc(NamesByPage(dir, pages[..n - 1]), PageNames(dir, n - 1, pages[n - 1].images));
    }
  }

  /** A run fails exactly when some step raises, and then with the first
      exception in page and image order. */
  lemma RunFailsWithFirstError(dir: string, pages: seq<Page>)
    ensures Run(dir, pages).failure == DocumentError(pages)
  {
    PagesUpToError(dir, pages, |pages|);
    assert pages[..|pages|] == pages;
  }

  /** A run that raises nothing produces the document text: each page's
      native text followed by its OCR blocks, pages in order, nothing dropped
      or reordered; and it saves every image under its own name, in order. */
  lemma RunReadable(dir: string, pages: seq<Page>)
    requires AllReadable(pages)
    ensures Run(dir, pages) == Progress(DocumentText(dir, pages), AllNames(dir, pages), None)
  {
    PagesUpToReadable(dir, pages, |pages|);
    assert pages[..|pages|] == pages;
  }

  lemma {:induction false} FirstImageErrorNone(images: seq<Image>)
    ensures FirstImageError(images).None? <==> forall i :: 0 <= i < |images| ==> images[i].stage.Recognized?
  {
    if images != [] {
      FirstImageErrorNone(images[1..]);
      assert forall i :: 1 <= i < |images| ==> images[i] == images[1..][i - 1];
    }
  }

  /** A document raises no exception exactly when every page text and every
      image can be read. */
  lemma {:induction false} DocumentErrorNone(pages: seq<Page>)
    ensures DocumentError(pages).None? <==> AllReadable(pages)
  {
    if pages != [] {
      FirstImageErrorNone(pages[0].images);
      DocumentErrorNone(pages[1..]);
      assert forall p :: 1 <= p < |pages| ==> pages[p] == pages[1..][p - 1];
    }
  }

  /** The image files saved by the pages handled so far are, in order, the
      first of the document's image names: all of them when nothing raised. */
  lemma {:induction false} PagesUpToSaved(dir: string, pages: seq<Page>, n: nat)
    requires n <= |pages|
    ensures PagesUpTo(dir, pages, n).saved <= AllNames(dir, pages[..n])
    ensures PagesUpTo(dir, pages, n).failure.None? ==>
              PagesUpTo(dir, pages, n).saved == AllNames(dir, pages[..n])
    decreases n
  {
    if n == 0 {
      assert pages[..0] == [];
    } else {
      PagesUpToSaved(dir, pages, n - 1);
      var before := PagesUpTo(dir, pages, n - 1);
      var a := AllNames(dir, pages[..n - 1]);
      var page := pages[n - 1];
      var names := PageNames(dir, n - 1, page.images);
      NamesByPageSnoc(dir, pages, n);
      FlattenSnoc(NamesByPage(dir, pages[..n - 1]), names);
      assert AllNames(dir, pages[..n]) == a + names;
      if before.failure.None? && page.text.Done? {
        var acc := before.(text := before.text + page.text.value);
        ImagesUpToSaved(dir, n - 1, page.images, |page.images|, acc);
        var k :| 0 <= k <= |page.images| && PagesUpTo(dir, pages, n).saved == a + names[..k];
        assert names[..|page.images|] == names;
      }
    }
  }

  /** Whatever happens, the files a run saves are, in order, the first of
      the document's image names. */
  lemma RunSavesInOrder(dir: string, pages: seq<Page>)
    ensures Run(dir, pages).saved <= AllNames(dir, pages)
  {
    PagesUpToSaved(dir, pages, |pages|);
    assert pages[..|pages|] == pages;
  }

  predicate Distinct<T(==)>(s: seq<T>) {
    forall j, k :: 0 <= j < k < |s| ==> s[j] != s[k]
  }

  /** The images of one page are saved under pairwise different names. */
  lemma PageNamesDistinct(dir: string, index: nat, images: seq<Image>)
    ensures Distinct(PageNames(dir, index, images))
  {
    var names := PageNames(dir, index, images);
    forall j, k | 0 <= j < k < |names| ensures names[j] != names[k] {
      if names[j] == names[k] {
        ImageFileNameInjective(dir, index, j, images[j].ext, index, k, images[k].ext);
      }
    }
  }

  /** `name` is the file name of an image on one of the first `m` pages. */
  ghost predicate OnPageBelow(dir: string, name: string, m: nat) {
    exists q: nat, i: nat, e: string :: q < m && name == ImageFileName(dir, q, i, e)
  }

  lemma {:induction false} AllNamesOnPagesBelow(dir: string, pages: seq<Page>, m: nat)
    requires m <= |pages|
    ensures forall x :: x in AllNames(dir, pages[..m]) ==> OnPageBelow(dir, x, m)
    decreases m
  {
    if m == 0 {
      assert pages[..0] == [];
    } else {
      AllNamesOnPagesBelow(dir, pages, m - 1);
      var names := PageNames(dir, m - 1, pages[m - 1].images);
      NamesByPageSnoc(dir, pages, m);
      FlattenSnoc(NamesByPage(dir, pages[..m - 1]), names);
      forall x | x in AllNames(dir, pages[..m]) ensures OnPageBelow(dir, x, m) {
        if x in AllNames(dir, pages[..m - 1]) {
          var q: nat, i: nat, e: string :| q < m - 1 && x == ImageFileName(dir, q, i, e);
          assert q < m;
        } else {
          assert x in names;
          var i :| 0 <= i < |names| && names[i] == x;
          assert x == ImageFileName(dir, m - 1, i, pages[m - 1].images[i].ext);
        }
      }
    }
  }

  lemma DistinctConcat<T>(a: seq<T>, b: seq<T>)
    requires Distinct(a) && Distinct(b)
    requires forall k :: 0 <= k < |b| ==> b[k] !in a
    ensures Distinct(a + b)
  {
  }

  /** The names of page `m - 1` differ from every name of an earlier page. */
  lemma PageNamesFresh(dir: string, pages: seq<Page>, m: nat)
    requires 0 < m <= |pages|
    ensures var names := PageNames(dir, m - 1, pages[m - 1].images);
            forall k :: 0 <= k < |names| ==> names[k] !in AllNames(dir, pages[..m - 1])
  {
    AllNamesOnPagesBelow(dir, pages, m - 1);
    var names := PageNames(dir, m - 1, pages[m - 1].images);
    forall k | 0 <= k < |names| ensures names[k] !in AllNames(dir, pages[..m - 1]) {
      var x := names[k];
      if x in AllNames(dir, pages[..m - 1]) {
        var q: nat, i: nat, e: string :| q < m - 1 && x == ImageFileName(dir, q, i, e);
        ImageFileNameInjective(dir, q, i, e, m - 1, k, pages[m - 1].images[k].ext);
      }
    }
  }

  /** No two images of a document share a file name. */
  lemma {:induction false} AllNamesDistinct(dir: string, pages: seq<Page>, m: nat)
    requires m <= |pages|
    ensures Distinct(AllNames(dir, pages[..m]))
    decreases m
  {
    if m == 0 {
      assert pages[..0] == [];
    } else {
      AllNamesDistinct(dir, pages, m - 1);
      var names := PageNames(dir, m - 1, pages[m - 1].images);
      PageNamesDistinct(dir, m - 1, pages[m - 1].images);
      PageNamesFresh(dir, pages, m);
      NamesByPageSnoc(dir, pages, m);
      FlattenSnoc(NamesByPage(dir, pages[..m - 1]), names);
      DistinctConcat(AllNames(dir, pages[..m - 1]), names);
    }
  }

  /** A run never saves two images under the same name, so no saved image
      file overwrites another, whether or not the run raises. */
  lemma RunSavesDistinct(dir: string, pages: seq<Page>)
    ensures Distinct(Run(dir, pages).saved)
  {
    RunSavesInOrder(dir, pages);
    AllNamesDistinct(dir, pages, |pages|);
    assert pages[..|pages|] == pages;
  }

  /** A page without images contributes exactly its native text and saves nothing. */
  lemma PageWithoutImages(dir: string, index: nat, page: Page, acc: Progress)
    requires page.text.Done? && page.images == [] && acc.failure.None?
    ensures PageContribution(dir, index, page) == page.text.value
    ensures StepPage(dir, index, page, acc) == acc.(text := acc.text + page.text.value)
  {
  }
}
