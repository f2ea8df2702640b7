/**
 * What the upload handler calls but does not implement: PIL's `Image.open`,
 * pdf2image's `convert_from_bytes` and pytesseract's `image_to_string`. Each
 * is a total function that returns a value or the message of the exception
 * it raised; the handler's calls into them are recorded as a trace.
 */
module Collaborators {
  import opened Wrappers

  newtype byte = x: int | 0 <= x < 256

  /** A decoded or rasterized page image; its pixels are never inspected. */
  datatype Image = Image(pixels: seq<byte>)

  /** The Tesseract language packs every OCR call asks for (Korean and English in one pass). */
  const Languages: string := "kor+eng"

  /** `Image.open(io.BytesIO(content))`: decodes an uploaded image, or raises. */
  type Opener = seq<byte> -> Result<Image, string>

  /** `convert_from_bytes(content)`: the pages of a PDF in page order, or raises. */
  type Converter = seq<byte> -> Result<seq<Image>, string>

  /** `pytesseract.image_to_string(image, lang=...)`: the recognised text, or raises. */
  type Recognizer = (Image, string) -> Result<string, string>

  datatype Engines = Engines(open: Opener, convert: Converter, ocr: Recognizer)

  /** One call the handler makes into a collaborator. */
  datatype Call =
    | OpenImage
    | ConvertPdf
    | Recognize(image: Image, lang: string)

  /** The OCR calls made for `pages`, one per page, in page order. */
  function Trace(pages: seq<Image>): (calls: seq<Call>)
    ensures |calls| == |pages|
    ensures forall i :: 0 <= i < |pages| ==> calls[i] == Recognize(pages[i], Languages)
  {
    seq(|pages|, i requires 0 <= i < |pages| => Recognize(pages[i], Languages))
  }
}
