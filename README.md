# vision-ocr: the `/extract-text` upload handler, modelled in Dafny

The server of vision-ocr has one operation: `POST /extract-text` takes one uploaded
file and returns the text recognised in it (`extract_text` in `main.py`). The
handler:

1. lower-cases the filename and routes it by suffix: `.png`, `.jpg`, `.jpeg`, `.bmp`,
   `.tiff` go to the image route, `.pdf` to the PDF route, anything else is rejected;
2. on the image route, decodes the bytes with PIL and runs Tesseract once, with the
   language packs `kor+eng`;
3. on the PDF route, rasterizes every page with pdf2image and runs Tesseract on each
   page in order. It appends `--- Page n ---\n<text>\n` with a 1-based `n`;
4. strips leading and trailing whitespace (Python `str.strip()`) and answers
   `{"filename": <name as uploaded>, "text": <stripped text>}`;
5. turns every `Exception` raised inside its `try` into an HTTP 500 carrying the
   exception. This includes the `HTTPException(400, "Unsupported file format")` it
   raises itself, so a client never sees the 400.

The model has six modules:

- `Wrappers`: `Option` and `Result`.
- `PyStr`: the Python string built-ins used: `lower()`, `endswith()`, `strip()` and
  `str(n)`. `Lower`'s contract fixes its result character by character. `StripsTo` is an independent
  definition of a stripping, and `StripUnique` proves `Strip` is the only one.
  `DecimalValue` reads digits back, and `DecimalRoundTrip` inverts `Decimal`.
- `Collaborators`: PIL, pdf2image and pytesseract as total functions that return a
  value or the message of the exception they raised (`Engines`). The handler's
  calls into them are recorded as a trace of `Call`s, so "no OCR", "no conversion"
  and "one OCR call per page, in page order" can be stated.
- `Formats`: the suffix dispatch, `Classify`.
- `Pages`: the page loop as an imperative method `OcrPages`. It is proved against
  `PdfText`, the concatenation of the page blocks, and `FirstFailure`.
- `Handler`: `Handle` states the whole handler declaratively, and the imperative
  `ExtractText` is proved equal to it. The lemmas about `Handle` state each route's
  outcome and calls.

Four points of behaviour follow from the code as written:

- a page whose OCR fails aborts the whole request; the page is not skipped or left empty;
- pages are marked by `--- Page n ---` headers, not joined with a single newline;
- the route comes from the filename suffix alone; neither the media type nor the bytes are inspected;
- an unsupported format is answered with 500, because the 400 it raises is caught like any other exception.

For example, a two-page PDF recognised as `Hello` and `World` yields
`--- Page 1 ---\nHello\n--- Page 2 ---\nWorld` (`Pages.TwoPages`).

## Model

| member | source | states |
|---|---|---|
| `PyStr.Lower` | main.py:22 | the lower-cased filename keeps its length, each `A`-`Z` becomes the matching `a`-`z`, no upper-case letter is left, and every other character is unchanged |
| `PyStr.LowerIdempotent` | main.py:22 | lower-casing an already lower-cased name changes nothing |
| `PyStr.LowerAppend` | main.py:22 | lower-casing distributes over concatenation, so a suffix is lower-cased on its own |
| `PyStr.EndsWithAppended` | main.py:28 | any stem followed by a suffix ends with that suffix |
| `PyStr.EndsWithSplit` | main.py:28-32 | `s.endswith(x)` holds iff `s` is some stem followed by `x` |
| `PyStr.EndsWithAny` | main.py:28 | `endswith` on a tuple holds iff some suffix of the tuple ends the string |
| `PyStr.StripSpan` | main.py:42 | `strip()` cuts only whitespace from each end and leaves no whitespace at either end |
| `PyStr.Strip` | main.py:42 | the stripped text is no longer than the original and neither starts nor ends with whitespace |
| `PyStr.StripUnique` | main.py:42 | any cut of only whitespace that leaves no whitespace at either end is the one `strip()` makes |
| `PyStr.StripEmpty` | main.py:42 | `strip()` returns `""` exactly when the text is all whitespace |
| `PyStr.StripIdempotent` | main.py:42 | stripping a stripped text changes nothing |
| `PyStr.StripKeepsPrefix` | main.py:42 | a prefix that starts and ends with non-whitespace survives `strip()` |
| `PyStr.Decimal` | main.py:37 | the page number in a header is non-empty, all digits, and has no leading zero |
| `PyStr.DecimalRoundTrip` | main.py:37 | reading back the digits of a page number gives the number |
| `PyStr.DecimalInjective` | main.py:37 | different page numbers give different headers' digits |
| `Formats.Classify` | main.py:22-40 | the image route iff the lower-cased name ends with one of the image suffixes; the PDF route only for names ending with `.pdf`; unsupported iff neither kind of suffix matches |
| `Formats.ClassifyIgnoresCase` | main.py:22-32 | names equal after lower-casing take the same route, and so does the lower-cased name itself |
| `Formats.ImageSuffixRoute` | main.py:28 | a name whose suffix lower-cases to `.png`, `.jpg`, `.jpeg`, `.bmp` or `.tiff` takes the image route |
| `Formats.PdfSuffixRoute` | main.py:28-32 | a name whose suffix lower-cases to `.pdf` takes the PDF route, since no image suffix also matches |
| `Formats.TifUnsupported` | main.py:28-40 | a name ending in `.tif`, in any case, is unsupported |
| `Pages.PageBlockReadBack` | main.py:37 | a page block reads back as `--- Page `, the digits of its page number, ` ---` and a newline, the page text, and a final newline |
| `Pages.BlocksAppend` | main.py:35-37 | page numbering carries on across a split of the page list: headers are consecutive |
| `Pages.PdfTextSnoc` | main.py:37 | one more page appends exactly its block, numbered one past the pages before it |
| `Pages.PdfTextAt` | main.py:35-37 | page k's text sits under header `k+1`, after the blocks of earlier pages and before those of later ones |
| `Pages.PdfText` | main.py:25-37 | no pages give `""`; otherwise the text opens with `--- Page 1 ---` and ends in a newline |
| `Pages.StrippedOpensWithFirstHeader` | main.py:37-42 | stripping keeps `--- Page 1 ---` at the front of the text of one or more pages |
| `Pages.TwoPages` | main.py:35-42 | two pages recognised as `a` and `b` (b not ending in whitespace) give `--- Page 1 ---\n` a `\n--- Page 2 ---\n` b after stripping |
| `Pages.FirstFailure` | main.py:35-36 | finds the first page whose OCR raises, with every earlier page recognised, or reports that all pages are recognised |
| `Pages.OcrPages` | main.py:35-37 | the loop's text is the concatenation of all page blocks with one OCR call per page in order, or the first failing page's error with OCR calls up to that page only |
| `Handler.Respond` | main.py:42-45 | text is answered only when the `try` body succeeded, stripped and beside the filename; every exception, whatever its own status, becomes a 500 carrying it |
| `Handler.ImageBody` | main.py:29-30 | the image branch decodes once and never converts a PDF; it makes one OCR call exactly when the decode worked, and a successful body needs that call |
| `Handler.PdfBody` | main.py:32-37 | the PDF branch converts once and never decodes an image; every later call is OCR with `kor+eng`, and a successful body made one OCR call per converted page |
| `Handler.Handle` | main.py:20-45 | an unsupported name calls no collaborator; otherwise the first call is the decode or the conversion its route asks for, and every later call is OCR |
| `Handler.ExtractText` | main.py:20-45 | the handler as written (lower-case, dispatch, branch, strip, error mapping) equals the declarative `Handle` |
| `Handler.FailuresAre500` | main.py:39-45 | every failure response has status 500 |
| `Handler.SuccessEchoesFilename` | main.py:42 | a successful response echoes the filename as uploaded, not lower-cased |
| `Handler.UnsupportedRun` | main.py:39-45 | an unsupported suffix makes no collaborator call and answers 500 wrapping the 400 "Unsupported file format" |
| `Handler.ImageRun` | main.py:28-30 | the image route decodes once and recognises once at most, never converts, and answers the stripped text or a 500 with the raised exception |
| `Handler.BlankImage` | main.py:28-42 | an image whose OCR text is all whitespace answers success with `""` |
| `Handler.PdfRunRecognised` | main.py:32-42 | a PDF whose pages are all recognised converts once, recognises every page once in order, and answers the stripped page blocks |
| `Handler.PdfRunFailsAtPage` | main.py:34-45 | if page k is the first to fail, the request answers 500 with that exception, no partial text, and no page after k is recognised |
| `Handler.PdfRunConvertFails` | main.py:34-45 | a PDF that cannot be converted answers 500 and no page is recognised |
| `Handler.EmptyPdf` | main.py:25-42 | a PDF with zero pages answers success with `""` |
| `Handler.PdfTextOpensWithFirstHeader` | main.py:37-42 | a recognised PDF with pages keeps `--- Page 1 ---` at the front of its stripped text |
| `Handler.HandleIgnoresCase` | main.py:22-42 | uploads whose names differ only in case make the same calls and get the same outcome; only the echoed filename differs |

## Left out

- The FastAPI application, the CORS middleware and the uvicorn start-up (main.py:10-18, 47-49) are framework wiring with no logic.
- Reading the upload (`await file.read()`, main.py:23) is I/O. The model takes the filename and bytes as given.
- PIL decoding, pdf2image rasterization and Tesseract recognition are foreign native libraries. They appear only as functions that return a value or raise. Nothing is stated about the recognised text itself.
- The exception message `str(e)` depends on the library. The model carries the caught exception itself as the 500's payload.
- `PyStr.Lower`: only ASCII `A`-`Z` are lower-cased. Python's Unicode case mappings of other characters do not affect any of the ASCII suffixes the route depends on.
- A missing filename (`None`, which makes `file.filename.lower()` raise outside the `try`) is not modelled. The filename is always a string.
- Calls to the collaborators are pure functions in the model, and deterministic: the same input always gives the same result or the same exception. Side effects inside PIL, pdf2image or Tesseract, such as temporary files, are not modelled.
