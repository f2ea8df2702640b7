/**
 * The PDF branch of the upload handler (main.py:34-37): every rasterized page
 * is recognised in page order and its text appended under a 1-based header.
 * The first page whose recognition raises aborts the loop.
 */
module Pages {
  import opened Wrappers
  import opened PyStr
  import opened Collaborators

  /** The text appended for the page at 1-based position `n`: `f"--- Page {n} ---\n{text}\n"`. */
  function PageBlock(n: nat, text: string): (block: string) {
    "--- Page " + Decimal(n) + " ---\n" + text + "\n"
  }

  /**
   * A block can be read back: it opens with `--- Page `, then the digits of
   * `n`, then ` ---` and a newline, then the page's text, then a final newline.
   */
  lemma PageBlockReadBack(n: nat, text: string)
    ensures var block, d := PageBlock(n, text), |Decimal(n)|;
      block[..9] == "--- Page " && block[|block| - 1] == '\n'
      && DecimalValue(block[9..9 + d]) == n
      && block[9 + d..14 + d] == " ---\n"
      && block[14 + d..|block| - 1] == text
  {
    var digits := Decimal(n);
    var block := PageBlock(n, text);
    assert block == "--- Page " + digits + " ---\n" + text + "\n";
    assert block[9..9 + |digits|] == digits;
    DecimalRoundTrip(n);
  }

  /** The blocks for `texts`, numbered consecutively from `first`. */
  function Blocks(texts: seq<string>, first: nat): (text: string)
    decreases |texts|
  {
    if texts == [] then "" else PageBlock(first, texts[0]) + Blocks(texts[1..], first + 1)
  }

  /** Numbering carries on across a split: the blocks of `b` start where those of `a` stop. */
  lemma {:induction false} BlocksAppend(a: seq<string>, b: seq<string>, first: nat)
    ensures Blocks(a + b, first) == Blocks(a, first) + Blocks(b, first + |a|)
    decreases |a|
  {
    if a == [] {
      assert a + b == b;
    } else {
      assert (a + b)[1..] == a[1..] + b;
      BlocksAppend(a[1..], b, first + 1);
    }
  }

  /**
   * The accumulated text for pages whose recognised texts are `texts`, before
   * stripping: empty for no pages, and otherwise opening with the header of
   * page 1 and ending in a newline.
   */
  function PdfText(texts: seq<string>): (text: string)
    ensures texts == [] <==> text == ""
    ensures texts != [] ==> "--- Page 1 ---" <= text && text[|text| - 1] == '\n'
  {
    if texts == [] then ""
    else
      var n := |texts|;
      assert texts == texts[..n - 1] + [texts[n - 1]];
      BlocksAppend(texts[..n - 1], [texts[n - 1]], 1);
      assert Blocks([texts[n - 1]], n) == PageBlock(n, texts[n - 1]) + Blocks([], n + 1);
      assert Decimal(1) == "1";
      assert Blocks(texts, 1) == PageBlock(1, texts[0]) + Blocks(texts[1..], 2);
      Blocks(texts, 1)
  }

  /** Appending one more page adds exactly its block, numbered one past the pages before it. */
  lemma PdfTextSnoc(texts: seq<string>, text: string)
    ensures PdfText(texts + [text]) == PdfText(texts) + PageBlock(|texts| + 1, text)
  {
    BlocksAppend(texts, [text], 1);
    assert Blocks([text], |texts| + 1) == PageBlock(|texts| + 1, text) + Blocks([], |texts| + 2);
  }

  /**
   * Page `k` (0-based) sits, under the header `--- Page k+1 ---`, right after
   * the blocks of the pages before it and right before those of the pages after it.
   */
  lemma PdfTextAt(texts: seq<string>, k: nat)
    requires k < |texts|
    ensures PdfText(texts) == PdfText(texts[..k]) + PageBlock(k + 1, texts[k]) + Blocks(texts[k + 1..], k + 2)
  {
    assert texts == texts[..k] + texts[k..];
    BlocksAppend(texts[..k], texts[k..], 1);
    assert texts[k..][1..] == texts[k + 1..];
  }

  /** Stripping keeps the header of page 1 at the front of a text with pages. */
  lemma StrippedOpensWithFirstHeader(texts: seq<string>)
    requires texts != []
    ensures "--- Page 1 ---" <= Strip(PdfText(texts))
  {
    StripKeepsPrefix(PdfText(texts), "--- Page 1 ---");
  }

  /** The headers of the first two pages. */
  lemma FirstHeaders(a: string, b: string)
    ensures PageBlock(1, a) == "--- Page 1 ---\n" + a + "\n"
    ensures PageBlock(2, b) == "--- Page 2 ---\n" + b + "\n"
  {
    assert Decimal(1) == "1" && Decimal(2) == "2";
  }

  /**
   * Two pages recognised as `a` and `b`, where `b` does not end in whitespace:
   * the stripped text keeps both headers, and only the final newline goes
   * (so "Hello" and "World" give "--- Page 1 ---\nHello\n--- Page 2 ---\nWorld").
   */
  lemma TwoPages(a: string, b: string)
    requires b != [] && !IsSpace(b[|b| - 1])
    ensures Strip(PdfText([a, b])) == "--- Page 1 ---\n" + a + "\n--- Page 2 ---\n" + b
  {
    var x := "--- Page 1 ---\n" + a + "\n--- Page 2 ---\n" + b;
    PdfTextSnoc([a], b);
    assert [a] + [b] == [a, b];
    assert PdfText([a]) == PageBlock(1, a) + Blocks([], 2);
    FirstHeaders(a, b);
    assert PdfText([a, b]) == x + "\n";
    assert x[0] == '-' && x[|x| - 1] == b[|b| - 1];
    StripNewline(x);
  }

  /** Page `k` of `pages` raises in OCR and every page before it is recognised. */
  predicate FailsFirstAt(pages: seq<Image>, ocr: Recognizer, k: nat) {
    k < |pages| && ocr(pages[k], Languages).Err?
    && forall j :: 0 <= j < k ==> ocr(pages[j], Languages).Ok?
  }

  predicate AllRecognized(pages: seq<Image>, ocr: Recognizer) {
    forall j :: 0 <= j < |pages| ==> ocr(pages[j], Languages).Ok?
  }

  /** The first page whose OCR raises, if any. */
  function FirstFailure(pages: seq<Image>, ocr: Recognizer): (k: Option<nat>)
    ensures k.Some? ==> FailsFirstAt(pages, ocr, k.value)
    ensures k.None? ==> AllRecognized(pages, ocr)
    decreases |pages|
  {
    if pages == [] then None
    else if ocr(pages[0], Languages).Err? then Some(0)
    else match FirstFailure(pages[1..], ocr)
      case None => None
      case Some(k) => Some(k + 1)
  }

  /** At most one page fails first. */
  lemma FailsFirstAtUnique(pages: seq<Image>, ocr: Recognizer, k: nat, m: nat)
    requires FailsFirstAt(pages, ocr, k) && FailsFirstAt(pages, ocr, m)
    ensures k == m
  {
  }

  /** The recognised texts of pages that are all recognised. */
  function Texts(pages: seq<Image>, ocr: Recognizer): (texts: seq<string>)
    requires AllRecognized(pages, ocr)
    ensures |texts| == |pages|
    ensures forall j :: 0 <= j < |pages| ==> ocr(pages[j], Languages) == Ok(texts[j])
  {
    seq(|pages|, j requires 0 <= j < |pages| => ocr(pages[j], Languages).value)
  }

  /** Recognising one more page extends the recognised texts and the OCR trace by that page. */
  lemma RecognizedSnoc(pages: seq<Image>, ocr: Recognizer, i: nat)
    requires i < |pages| && AllRecognized(pages[..i], ocr) && ocr(pages[i], Languages).Ok?
    ensures AllRecognized(pages[..i + 1], ocr)
    ensures Texts(pages[..i + 1], ocr) == Texts(pages[..i], ocr) + [ocr(pages[i], Languages).value]
    ensures Trace(pages[..i + 1]) == Trace(pages[..i]) + [Recognize(pages[i], Languages)]
  {
    assert pages[..i + 1] == pages[..i] + [pages[i]];
  }

  /**
   * The loop over `enumerate(images)`: OCR every page in order, appending its
   * block. If page `k` is the first to raise, its error is what comes out and
   * the OCR calls stop after page `k`; otherwise the text is `PdfText` of all
   * the pages' texts and every page was recognised exactly once, in order.
   */
  method OcrPages(pages: seq<Image>, ocr: Recognizer) returns (text: Result<string, string>, calls: seq<Call>)
    ensures match FirstFailure(pages, ocr)
      case None => text == Ok(PdfText(Texts(pages, ocr))) && calls == Trace(pages)
      case Some(k) => text == Err(ocr(pages[k], Languages).error) && calls == Trace(pages[..k + 1])
  {
    var extracted := "";
    calls := [];
    for i := 0 to |pages|
      invariant AllRecognized(pages[..i], ocr)
      invariant extracted == PdfText(Texts(pages[..i], ocr))
      invariant calls == Trace(pages[..i])
    {
      var pageText := ocr(pages[i], Languages);
      assert Trace(pages[..i + 1]) == calls + [Recognize(pages[i], Languages)];
      calls := calls + [Recognize(pages[i], Languages)];
      if pageText.Err? {
        assert FailsFirstAt(pages, ocr, i);
        FailsFirstAtUnique(pages, ocr, FirstFailure(pages, ocr).value, i);
        text := Err(pageText.error);
        return;
      }
      RecognizedSnoc(pages, ocr, i);
      PdfTextSnoc(Texts(pages[..i], ocr), pageText.value);
      extracted := extracted + PageBlock(i + 1, pageText.value);
    }
    assert pages[..|pages|] == pages;
    text := Ok(extracted);
  }
}
