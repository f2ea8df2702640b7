/**
 * Format dispatch of the upload handler (main.py:22, 28, 32): the filename is
 * lower-cased and its suffix picks the image route, the PDF route, or neither.
 */
module Formats {
  import opened PyStr

  datatype Route = ImageRoute | PdfRoute | Unsupported

  /** The suffixes `extract_text` accepts as images; `.tif` is not among them. */
  const ImageSuffixes: seq<string> := [".png", ".jpg", ".jpeg", ".bmp", ".tiff"]

  const PdfSuffix: string := ".pdf"

  /**
   * The route `extract_text` takes for an upload called `filename`: an image
   * when the lower-cased name ends with an image suffix, otherwise a PDF when
   * it ends with `.pdf`, otherwise unsupported.
   */
  function Classify(filename: string): (route: Route)
    ensures route == ImageRoute <==> exists k :: 0 <= k < |ImageSuffixes| && EndsWith(Lower(filename), ImageSuffixes[k])
    ensures route == PdfRoute ==> EndsWith(Lower(filename), PdfSuffix)
    ensures route == Unsupported <==>
      !EndsWith(Lower(filename), PdfSuffix) && forall k :: 0 <= k < |ImageSuffixes| ==> !EndsWith(Lower(filename), ImageSuffixes[k])
  {
    var name := Lower(filename);
    if EndsWithAny(name, ImageSuffixes) then ImageRoute
    else if EndsWith(name, PdfSuffix) then PdfRoute
    else Unsupported
  }

  /** Only the lower-cased name matters: `A.PNG` and `a.png` take the same route. */
  lemma ClassifyIgnoresCase(a: string, b: string)
    requires Lower(a) == Lower(b)
    ensures Classify(a) == Classify(b)
    ensures Classify(Lower(a)) == Classify(a)
  {
    LowerIdempotent(a);
  }

  /** Any name whose suffix lower-cases to one of the image suffixes takes the image route. */
  lemma ImageSuffixRoute(stem: string, suffix: string, k: nat)
    requires k < |ImageSuffixes| && Lower(suffix) == ImageSuffixes[k]
    ensures Classify(stem + suffix) == ImageRoute
  {
    LowerAppend(stem, suffix);
    EndsWithAppended(Lower(stem), ImageSuffixes[k]);
  }

  /** A string ending in `suffix` agrees with it `back` characters from the end. */
  lemma EndsWithAt(s: string, suffix: string, back: nat)
    requires 0 < back <= |suffix| <= |s|
    ensures EndsWith(s, suffix) ==> s[|s| - back] == suffix[|suffix| - back]
  {
    assert s[|s| - |suffix|..][|suffix| - back] == s[|s| - back];
  }

  /** A name whose last two characters differ from those of `suffix` does not end with it. */
  lemma NotEndsWith(name: string, suffix: string)
    requires 2 <= |suffix| && 2 <= |name|
    requires name[|name| - 2] != suffix[|suffix| - 2] || name[|name| - 1] != suffix[|suffix| - 1]
    ensures !EndsWith(name, suffix)
  {
    if |suffix| <= |name| {
      EndsWithAt(name, suffix, 1);
      EndsWithAt(name, suffix, 2);
    }
  }

  /** A name ending in `df` or `if` ends with none of the image suffixes. */
  lemma NoImageSuffix(name: string)
    requires |name| >= 2 && name[|name| - 1] == 'f' && name[|name| - 2] in {'d', 'i'}
    ensures !EndsWithAny(name, ImageSuffixes)
  {
    NotEndsWith(name, ".png");
    NotEndsWith(name, ".jpg");
    NotEndsWith(name, ".jpeg");
    NotEndsWith(name, ".bmp");
    NotEndsWith(name, ".tiff");
  }

  /** Any name whose suffix lower-cases to `.pdf` takes the PDF route: no image suffix also matches. */
  lemma PdfSuffixRoute(stem: string, suffix: string)
    requires Lower(suffix) == PdfSuffix
    ensures Classify(stem + suffix) == PdfRoute
  {
    var name := Lower(stem + suffix);
    LowerAppend(stem, suffix);
    EndsWithAppended(Lower(stem), PdfSuffix);
    EndsWithAt(name, PdfSuffix, 2);
    NoImageSuffix(name);
  }

  /** A `.tif` name (in any case) is unsupported. */
  lemma TifUnsupported(stem: string, suffix: string)
    requires Lower(suffix) == ".tif"
    ensures Classify(stem + suffix) == Unsupported
  {
    var name := Lower(stem + suffix);
    LowerAppend(stem, suffix);
    EndsWithAppended(Lower(stem), ".tif");
    EndsWithAt(name, ".tif", 2);
    NoImageSuffix(name);
    EndsWithAt(name, PdfSuffix, 2);
  }
}
