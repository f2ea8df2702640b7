/**
 * The `POST /extract-text` handler, `extract_text` (main.py:20-45): route the
 * upload by filename, recognise its text, strip it, and map every exception
 * raised inside the `try` to a 500 response.
 */
module Handler {
  import opened Wrappers
  import opened PyStr
  import opened Collaborators
  import opened Formats
  import opened Pages

  /** One uploaded file, already read: its client-given name and its bytes. */
  datatype Upload = Upload(filename: string, content: seq<byte>)

  /**
   * An exception caught by `except Exception`: the `HTTPException` the handler
   * raises itself, or one raised by a collaborator, known only by its message.
   */
  datatype Exception =
    | HttpException(status: nat, detail: string)
    | Raised(message: string)

  /** What the client receives: the JSON body `{"filename", "text"}`, or an HTTP error carrying the caught exception. */
  datatype Response =
    | Extracted(filename: string, text: string)
    | HttpError(status: nat, detail: Exception)

  /** A response together with the collaborator calls made to produce it. */
  datatype Run = Run(response: Response, calls: seq<Call>)

  /** The exception raised for a suffix that is neither an image nor a PDF. */
  const UnsupportedFormat: Exception := HttpException(400, "Unsupported file format")

  /**
   * The body of the `try` or the exception it raised, mapped to the response
   * (main.py:42-45): text only when the body succeeded, stripped and beside the
   * filename; every exception, whatever its own status, becomes a 500 carrying it.
   */
  function Respond(filename: string, body: Result<string, Exception>): (r: Response)
    ensures r.Extracted? <==> body.Ok?
    ensures r.Extracted? ==> r.filename == filename && r.text == Strip(body.value)
    ensures r.HttpError? ==> r.status == 500 && r.detail == body.error
  {
    match body
    case Ok(text) => Extracted(filename, Strip(text))
    case Err(e) => HttpError(500, e)
  }

  /**
   * The image branch (main.py:29-30): one decode and no PDF conversion; one
   * OCR call exactly when the decode worked, which a successful body needs.
   */
  function ImageBody(content: seq<byte>, engines: Engines): (r: (Result<string, Exception>, seq<Call>))
    ensures 1 <= |r.1| <= 2 && r.1[0] == OpenImage && ConvertPdf !in r.1
    ensures |r.1| == 2 <==> engines.open(content).Ok?
    ensures |r.1| == 2 ==> r.1[1] == Recognize(engines.open(content).value, Languages)
    ensures r.0.Ok? ==> |r.1| == 2
  {
    match engines.open(content)
    case Err(m) => (Err(Raised(m)), [OpenImage])
    case Ok(image) =>
      var calls := [OpenImage, Recognize(image, Languages)];
      match engines.ocr(image, Languages)
      case Err(m) => (Err(Raised(m)), calls)
      case Ok(text) => (Ok(text), calls)
  }

  /**
   * The PDF branch (main.py:34-37): one conversion and no image decode, then
   * only OCR calls; a successful body recognised every converted page.
   */
  function PdfBody(content: seq<byte>, engines: Engines): (r: (Result<string, Exception>, seq<Call>))
    ensures 1 <= |r.1| && r.1[0] == ConvertPdf && OpenImage !in r.1
    ensures forall i :: 1 <= i < |r.1| ==> r.1[i].Recognize? && r.1[i].lang == Languages
    ensures r.0.Ok? ==> engines.convert(content).Ok? && |r.1| == 1 + |engines.convert(content).value|
  {
    match engines.convert(content)
    case Err(m) => (Err(Raised(m)), [ConvertPdf])
    case Ok(pages) =>
      match FirstFailure(pages, engines.ocr)
      case None => (Ok(PdfText(Texts(pages, engines.ocr))), [ConvertPdf] + Trace(pages))
      case Some(k) => (Err(Raised(engines.ocr(pages[k], Languages).error)), [ConvertPdf] + Trace(pages[..k + 1]))
  }

  /**
   * What `extract_text` does with `upload`, stated page-wise rather than as a
   * loop. An unsupported name calls nothing; otherwise the first call is the
   * decode or the conversion its route asks for, and every later call is OCR.
   */
  function Handle(upload: Upload, engines: Engines): (r: Run)
    ensures r.calls == [] <==> Classify(upload.filename) == Unsupported
    ensures r.calls != [] ==> (r.calls[0] == OpenImage <==> Classify(upload.filename) == ImageRoute)
    ensures r.calls != [] ==> (r.calls[0] == ConvertPdf <==> Classify(upload.filename) == PdfRoute)
    ensures forall i :: 1 <= i < |r.calls| ==> r.calls[i].Recognize?
  {
    var (body, calls) :=
      match Classify(upload.filename)
      case ImageRoute => ImageBody(upload.content, engines)
      case PdfRoute => PdfBody(upload.content, engines)
      case Unsupported => (Err(UnsupportedFormat), []);
    Run(Respond(upload.filename, body), calls)
  }

  /** `extract_text` as written: lower-case, dispatch on the suffix, run the branch, strip, map errors. */
  method ExtractText(upload: Upload, engines: Engines) returns (run: Run)
    ensures run == Handle(upload, engines)
  {
    var filename := Lower(upload.filename);
    var body: Result<string, Exception>;
    var calls: seq<Call>;
    if EndsWithAny(filename, ImageSuffixes) {
      var image := engines.open(upload.content);
      calls := [OpenImage];
      if image.Err? {
        body := Err(Raised(image.error));
      } else {
        var text := engines.ocr(image.value, Languages);
        calls := [OpenImage, Recognize(image.value, Languages)];
        body := if text.Ok? then Ok(text.value) else Err(Raised(text.error));
      }
      assert (body, calls) == ImageBody(upload.content, engines);
    } else if EndsWith(filename, PdfSuffix) {
      var images := engines.convert(upload.content);
      calls := [ConvertPdf];
      if images.Err? {
        body := Err(Raised(images.error));
      } else {
        var text, pageCalls := OcrPages(images.value, engines.ocr);
        calls := calls + pageCalls;
        body := if text.Ok? then Ok(text.value) else Err(Raised(text.error));
      }
      assert (body, calls) == PdfBody(upload.content, engines);
    } else {
      body, calls := Err(UnsupportedFormat), [];
    }
    run := Run(Respond(upload.filename, body), calls);
  }

  // ---------------------------------------------------------------- properties

  /** Every failure reaches the client as a 500, including the 400 raised for an unsupported suffix. */
  lemma FailuresAre500(upload: Upload, engines: Engines)
    ensures Handle(upload, engines).response.HttpError? ==> Handle(upload, engines).response.status == 500
  {
  }

  /** A successful response echoes the filename as uploaded, not lower-cased. */
  lemma SuccessEchoesFilename(upload: Upload, engines: Engines)
    ensures Handle(upload, engines).response.Extracted? ==> Handle(upload, engines).response.filename == upload.filename
  {
  }

  /** An unsupported suffix: no collaborator is called and the 400 comes out wrapped in a 500. */
  lemma UnsupportedRun(upload: Upload, engines: Engines)
    requires Classify(upload.filename) == Unsupported
    ensures Handle(upload, engines) == Run(HttpError(500, UnsupportedFormat), [])
  {
  }

  /**
   * The image route decodes once and, if that works, recognises once; it never
   * converts a PDF. The response is the stripped OCR text, or a 500 with the
   * first exception raised.
   */
  lemma ImageRun(upload: Upload, engines: Engines)
    requires Classify(upload.filename) == ImageRoute
    ensures var run := Handle(upload, engines);
      match engines.open(upload.content)
      case Err(m) => run == Run(HttpError(500, Raised(m)), [OpenImage])
      case Ok(image) =>
        run.calls == [OpenImage, Recognize(image, Languages)]
        && match engines.ocr(image, Languages)
          case Err(m) => run.response == HttpError(500, Raised(m))
          case Ok(text) => run.response == Extracted(upload.filename, Strip(text))
  {
  }

  /** An image whose OCR text is only whitespace gives a successful, empty text. */
  lemma BlankImage(upload: Upload, engines: Engines, image: Image, text: string)
    requires Classify(upload.filename) == ImageRoute
    requires engines.open(upload.content) == Ok(image)
    requires engines.ocr(image, Languages) == Ok(text) && AllSpace(text)
    ensures Handle(upload, engines).response == Extracted(upload.filename, "")
  {
    StripEmpty(text);
  }

  /**
   * A PDF whose pages are all recognised: one conversion, then one OCR call
   * per page in page order, and the stripped concatenation of the page blocks.
   */
  lemma PdfRunRecognised(upload: Upload, engines: Engines, pages: seq<Image>)
    requires Classify(upload.filename) == PdfRoute
    requires engines.convert(upload.content) == Ok(pages)
    requires AllRecognized(pages, engines.ocr)
    ensures Handle(upload, engines) ==
      Run(Extracted(upload.filename, Strip(PdfText(Texts(pages, engines.ocr)))), [ConvertPdf] + Trace(pages))
  {
  }

  /**
   * A PDF whose page `k` is the first to fail: the whole request fails with that
   * page's exception as a 500, no text of earlier pages is returned, and no page
   * after `k` is recognised.
   */
  lemma PdfRunFailsAtPage(upload: Upload, engines: Engines, pages: seq<Image>, k: nat)
    requires Classify(upload.filename) == PdfRoute
    requires engines.convert(upload.content) == Ok(pages)
    requires FailsFirstAt(pages, engines.ocr, k)
    ensures Handle(upload, engines) ==
      Run(HttpError(500, Raised(engines.ocr(pages[k], Languages).error)), [ConvertPdf] + Trace(pages[..k + 1]))
  {
    FailsFirstAtUnique(pages, engines.ocr, FirstFailure(pages, engines.ocr).value, k);
    var body := (Err(Raised(engines.ocr(pages[k], Languages).error)), [ConvertPdf] + Trace(pages[..k + 1]));
    assert PdfBody(upload.content, engines) == body;
  }

  /** A PDF that cannot be converted fails as a 500 and no page is recognised. */
  lemma PdfRunConvertFails(upload: Upload, engines: Engines, m: string)
    requires Classify(upload.filename) == PdfRoute
    requires engines.convert(upload.content) == Err(m)
    ensures Handle(upload, engines) == Run(HttpError(500, Raised(m)), [ConvertPdf])
  {
  }

  /** A PDF with no pages succeeds with the empty text. */
  lemma EmptyPdf(upload: Upload, engines: Engines)
    requires Classify(upload.filename) == PdfRoute
    requires engines.convert(upload.content) == Ok([])
    ensures Handle(upload, engines).response == Extracted(upload.filename, "")
  {
  }

  /** A recognised PDF with pages keeps the header of page 1 at the front of its stripped text. */
  lemma PdfTextOpensWithFirstHeader(upload: Upload, engines: Engines, pages: seq<Image>)
    requires Classify(upload.filename) == PdfRoute
    requires engines.convert(upload.content) == Ok(pages)
    requires pages != [] && AllRecognized(pages, engines.ocr)
    ensures Handle(upload, engines).response.Extracted?
    ensures "--- Page 1 ---" <= Handle(upload, engines).response.text
  {
    PdfRunRecognised(upload, engines, pages);
    StrippedOpensWithFirstHeader(Texts(pages, engines.ocr));
  }

  /**
   * Two uploads of the same bytes whose names differ only in case make the same
   * calls and get the same outcome; only the echoed filename differs.
   */
  lemma HandleIgnoresCase(a: Upload, b: Upload, engines: Engines)
    requires Lower(a.filename) == Lower(b.filename) && a.content == b.content
    ensures Handle(a, engines).calls == Handle(b, engines).calls
    ensures Handle(a, engines).response.HttpError? ==> Handle(b, engines).response == Handle(a, engines).response
    ensures Handle(a, engines).response.Extracted? ==>
      Handle(b, engines).response == Extracted(b.filename, Handle(a, engines).response.text)
  {
    ClassifyIgnoresCase(a.filename, b.filename);
  }
}
