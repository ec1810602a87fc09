/** Fragment building in `extract_text_from_pdf`: every page's text is split
    into lines, the lines are stripped and filtered, and each kept line becomes
    a fragment tagged with its 1-based page number. The PDF text layer is tried
    first; OCR output replaces it when the text layer yields little. The
    extractors themselves are parameters: a page's text is `None` when the
    extractor produced none for it or failed on it, and a whole extractor is
    `None` when it is unavailable or could not open the document. */
module Extraction {
  import opened Text
  import opened Records

  /** `[line.strip() for line in lines if line.strip()]` */
  function StripAll(lines: seq<string>): (r: seq<string>)
  {
    if lines == [] then []
    else
      var n := |lines| - 1;
      var s := Strip(lines[n]);
      StripAll(lines[..n]) + (if s != [] then [s] else [])
  }

  /** The stripped, non-empty lines of a page's text. */
  function CleanLines(text: string): (r: seq<string>) {
    StripAll(SplitLines(text))
  }

  /** The filter applied to one line: longer than 3 characters for the text
      layer; longer than 5 characters and holding a letter for OCR. */
  predicate Keep(via: Extraction, line: string) {
    match via
    case TextLayer => |line| > 3
    case Ocr => |line| > 5 && HasAlpha(line)
  }

  /** The lines that pass the filter, in order. */
  function KeptLines(lines: seq<string>, via: Extraction): (r: seq<string>)
  {
    if lines == [] then []
    else
      var n := |lines| - 1;
      KeptLines(lines[..n], via) + (if Keep(via, lines[n]) then [lines[n]] else [])
  }

  /** Lines turned into fragments of one page. */
  function Tag(lines: seq<string>, pageNum: int, via: Extraction): (r: seq<Fragment>)
  {
    if lines == [] then []
    else
      var n := |lines| - 1;
      Tag(lines[..n], pageNum, via) + [Fragment(lines[n], pageNum, via)]
  }

  /** The fragments of one page: none when it has no text or only whitespace. */
  function PageFragments(pageText: Option<string>, pageNum: int, via: Extraction): (r: seq<Fragment>) {
    if pageText.None? || Strip(pageText.value) == [] then []
    else Tag(KeptLines(CleanLines(pageText.value), via), pageNum, via)
  }

  /** The fragments of the first n pages, pages numbered from 1. */
  function Fragments(pages: seq<Option<string>>, via: Extraction, n: nat): (r: seq<Fragment>)
    requires n <= |pages|
  {
    if n == 0 then [] else Fragments(pages, via, n - 1) + PageFragments(pages[n - 1], n, via)
  }

  /** The fragment list the extraction returns: the text layer's, replaced by
      OCR's when the text layer gave fewer than 10 fragments, OCR is available
      and it gave at least one. */
  function Extracted(textLayer: Option<seq<Option<string>>>, ocr: Option<seq<Option<string>>>): (r: seq<Fragment>) {
    var primary := if textLayer.None? then [] else Fragments(textLayer.value, TextLayer, |textLayer.value|);
    if |primary| < 10 && ocr.Some? && Fragments(ocr.value, Ocr, |ocr.value|) != [] then
      Fragments(ocr.value, Ocr, |ocr.value|)
    else
      primary
  }

  // ---------------------------------------------------------------------------
  // Properties of the line and fragment functions.

  /** A line is kept exactly when it is the stripped form of some line and not
      empty; every kept line is its own stripped form. */
  lemma {:induction false} StripAllMembers(lines: seq<string>)
    ensures forall x :: x in StripAll(lines) <==> x != [] && exists k :: 0 <= k < |lines| && Strip(lines[k]) == x
    ensures forall x :: x in StripAll(lines) ==> Strip(x) == x
  {
    if lines != [] {
      var n := |lines| - 1;
      var prefix := lines[..n];
      var s := Strip(lines[n]);
      var tail := if s != [] then [s] else [];
      assert StripAll(lines) == StripAll(prefix) + tail;
      StripAllMembers(prefix);
      StripIdempotent(lines[n]);
      forall x | x in StripAll(lines) ensures x != [] && exists k :: 0 <= k < |lines| && Strip(lines[k]) == x {
        if x in StripAll(prefix) {
          var k :| 0 <= k < n && Strip(prefix[k]) == x;
          assert lines[k] == prefix[k];
        } else {
          assert x == s && Strip(lines[n]) == x;
        }
      }
      forall x | x != [] && exists k :: 0 <= k < |lines| && Strip(lines[k]) == x ensures x in StripAll(lines) {
        var k :| 0 <= k < |lines| && Strip(lines[k]) == x;
        if k < n {
          assert Strip(prefix[k]) == x;
          assert x in StripAll(prefix);
        } else {
          assert tail == [x];
        }
      }
      forall x | x in StripAll(lines) ensures Strip(x) == x {
        if x !in StripAll(prefix) {
          assert x == s;
        }
      }
    }
  }

  /** Stripping a line that holds no newline leaves none. */
  lemma StripNoNewline(s: string)
    requires '\n' !in s
    ensures '\n' !in Strip(s)
  {
    StripSpec(s);
    var i := LeadingSpaces(s);
    var r := Strip(s);
    forall k | 0 <= k < |r| ensures r[k] != '\n' {
      assert r[k] == s[i + k];
    }
  }

  /** The clean lines of a page are non-empty, already stripped and free of
      newlines. */
  lemma CleanLinesSpec(text: string)
    ensures forall x :: x in CleanLines(text) ==> x != [] && Strip(x) == x && '\n' !in x
  {
    var lines := SplitLines(text);
    SplitLinesNoNewline(text);
    StripAllMembers(lines);
    forall x | x in CleanLines(text) ensures '\n' !in x {
      var k :| 0 <= k < |lines| && Strip(lines[k]) == x;
      StripNoNewline(lines[k]);
    }
  }

  /** A line passes the filter exactly when it is one of the lines and is kept. */
  lemma {:induction false} KeptLinesMembers(lines: seq<string>, via: Extraction)
    ensures forall x :: x in KeptLines(lines, via) <==> x in lines && Keep(via, x)
  {
    if lines != [] {
      var n := |lines| - 1;
      KeptLinesMembers(lines[..n], via);
      assert lines == lines[..n] + [lines[n]];
    }
  }

  /** Tagging keeps the lines, in order, and stamps each with the page and extractor. */
  lemma {:induction false} TagMembers(lines: seq<string>, pageNum: int, via: Extraction)
    ensures |Tag(lines, pageNum, via)| == |lines|
    ensures forall i :: 0 <= i < |lines| ==> Tag(lines, pageNum, via)[i] == Fragment(lines[i], pageNum, via)
    ensures forall f :: f in Tag(lines, pageNum, via) <==> f.page == pageNum && f.via == via && f.text in lines
  {
    if lines != [] {
      var n := |lines| - 1;
      TagMembers(lines[..n], pageNum, via);
      assert lines == lines[..n] + [lines[n]];
    }
  }

  /** Tagging one more line appends one fragment. */
  lemma TagSnoc(lines: seq<string>, line: string, pageNum: int, via: Extraction)
    ensures Tag(lines + [line], pageNum, via) == Tag(lines, pageNum, via) + [Fragment(line, pageNum, via)]
  {
    assert (lines + [line])[..|lines|] == lines;
  }

  /** Filtering one more line appends it when it is kept. */
  lemma KeptLinesSnoc(lines: seq<string>, i: nat, via: Extraction)
    requires i < |lines|
    ensures KeptLines(lines[..i + 1], via) == KeptLines(lines[..i], via) + (if Keep(via, lines[i]) then [lines[i]] else [])
  {
    assert lines[..i + 1][..i] == lines[..i];
  }

  /** Every page fragment carries the page number and extractor it was tagged with. */
  lemma PageFragmentsTagged(pageText: Option<string>, pageNum: int, via: Extraction)
    ensures forall i :: 0 <= i < |PageFragments(pageText, pageNum, via)| ==>
      PageFragments(pageText, pageNum, via)[i].page == pageNum
  {
    if pageText.Some? && Strip(pageText.value) != [] {
      TagMembers(KeptLines(CleanLines(pageText.value), via), pageNum, via);
    }
  }

  /** The fragments of the first n pages carry page numbers from 1 to n. */
  lemma {:induction false} FragmentsPageRange(pages: seq<Option<string>>, via: Extraction, n: nat)
    requires n <= |pages|
    ensures forall i :: 0 <= i < |Fragments(pages, via, n)| ==> 1 <= Fragments(pages, via, n)[i].page <= n
  {
    if n > 0 {
      FragmentsPageRange(pages, via, n - 1);
      PageFragmentsTagged(pages[n - 1], n, via);
    }
  }

  /** line is a fragment text of a page: the page has text that is not all
      whitespace, and line is one of its clean lines that passes the filter. */
  predicate PageLine(pageText: Option<string>, via: Extraction, line: string) {
    pageText.Some? && Strip(pageText.value) != [] && line in CleanLines(pageText.value) && Keep(via, line)
  }

  /** The fragments of one page are its page lines, tagged with the page
      number and the extractor. */
  lemma PageFragmentsMembers(pageText: Option<string>, pageNum: int, via: Extraction)
    ensures forall f :: f in PageFragments(pageText, pageNum, via) <==>
      f.page == pageNum && f.via == via && PageLine(pageText, via, f.text)
  {
    if pageText.Some? && Strip(pageText.value) != [] {
      var kept := KeptLines(CleanLines(pageText.value), via);
      KeptLinesMembers(CleanLines(pageText.value), via);
      TagMembers(kept, pageNum, via);
    }
  }

  /** The fragments of the first n pages are exactly the page lines of those
      pages, tagged with their page number and extractor. */
  lemma {:induction false} FragmentsMembers(pages: seq<Option<string>>, via: Extraction, n: nat)
    requires n <= |pages|
    ensures forall f :: f in Fragments(pages, via, n) <==>
      1 <= f.page <= n && f.via == via && PageLine(pages[f.page - 1], via, f.text)
  {
    if n > 0 {
      var before := Fragments(pages, via, n - 1);
      var page := PageFragments(pages[n - 1], n, via);
      assert Fragments(pages, via, n) == before + page;
      FragmentsMembers(pages, via, n - 1);
      PageFragmentsMembers(pages[n - 1], n, via);
    }
  }

  /** Page numbers never decrease along fs. */
  predicate InPageOrder(fs: seq<Fragment>) {
    forall i, j :: 0 <= i < j < |fs| ==> fs[i].page <= fs[j].page
  }

  /** The fragments come in page order. */
  lemma {:induction false} FragmentsInPageOrder(pages: seq<Option<string>>, via: Extraction, n: nat)
    requires n <= |pages|
    ensures InPageOrder(Fragments(pages, via, n))
  {
    if n > 0 {
      FragmentsInPageOrder(pages, via, n - 1);
      FragmentsPageRange(pages, via, n - 1);
      var before := Fragments(pages, via, n - 1);
      var page := PageFragments(pages[n - 1], n, via);
      PageFragmentsTagged(pages[n - 1], n, via);
      var fs := before + page;
      assert Fragments(pages, via, n) == fs;
      forall i, j | 0 <= i < j < |fs| ensures fs[i].page <= fs[j].page {
        if j >= |before| {
          assert fs[j] == page[j - |before|];
          assert page[j - |before|].page == n;
          if i < |before| {
            assert fs[i] == before[i];
            assert before[i].page <= n - 1;
          } else {
            assert fs[i] == page[i - |before|];
            assert page[i - |before|].page == n;
          }
        } else {
          assert fs[i] == before[i] && fs[j] == before[j];
        }
      }
    }
  }

  /** The fallback rule: the result is the text layer's fragments or OCR's.
      OCR's are used exactly when the text layer gave fewer than 10, OCR is
      available and it gave some; so at least 10 text-layer fragments are
      always kept, and the result is empty only when both gave nothing. */
  lemma FallbackRule(textLayer: Option<seq<Option<string>>>, ocr: Option<seq<Option<string>>>)
    ensures var primary := if textLayer.None? then [] else Fragments(textLayer.value, TextLayer, |textLayer.value|);
      var secondary := if ocr.None? then [] else Fragments(ocr.value, Ocr, |ocr.value|);
      && (Extracted(textLayer, ocr) == secondary <== |primary| < 10 && secondary != [])
      && (Extracted(textLayer, ocr) == primary <== |primary| >= 10 || secondary == [])
      && (Extracted(textLayer, ocr) == [] <==> primary == [] && secondary == [])
  {
  }

  /** Every extracted fragment is a stripped line of its page that passed its
      extractor's filter: more than 3 characters from the text layer, more than
      5 with a letter from OCR. */
  lemma ExtractedFragments(textLayer: Option<seq<Option<string>>>, ocr: Option<seq<Option<string>>>)
    ensures forall f :: f in Extracted(textLayer, ocr) ==>
      && f.page >= 1 && f.text != [] && Strip(f.text) == f.text && '\n' !in f.text
      && (f.via == TextLayer ==> textLayer.Some? && f.page <= |textLayer.value| && |f.text| > 3)
      && (f.via == Ocr ==> ocr.Some? && f.page <= |ocr.value| && |f.text| > 5 && HasAlpha(f.text))
  {
    if textLayer.Some? {
      FragmentsMembers(textLayer.value, TextLayer, |textLayer.value|);
    }
    if ocr.Some? {
      FragmentsMembers(ocr.value, Ocr, |ocr.value|);
    }
    forall f | f in Extracted(textLayer, ocr) ensures f.text != [] && Strip(f.text) == f.text && '\n' !in f.text {
      var pages := if f.via == TextLayer then textLayer.value else ocr.value;
      CleanLinesSpec(pages[f.page - 1].value);
    }
  }

  // ---------------------------------------------------------------------------
  // The loops.

  /** One text-layer page: when it has text that is not all whitespace, each
      of its clean lines of more than 3 characters becomes a fragment of the
      page, in order. */
  method TextLayerPage(pageText: Option<string>, pageNum: int) returns (fragments: seq<Fragment>)
    ensures fragments == PageFragments(pageText, pageNum, TextLayer)
  {
    fragments := [];
    if pageText.Some? && Strip(pageText.value) != [] {
      var lines := CleanLines(pageText.value);
      for i := 0 to |lines|
        invariant fragments == Tag(KeptLines(lines[..i], TextLayer), pageNum, TextLayer)
      {
        var line := lines[i];
        KeptLinesSnoc(lines, i, TextLayer);
        if |line| > 3 {
          TagSnoc(KeptLines(lines[..i], TextLayer), line, pageNum, TextLayer);
          fragments := fragments + [Fragment(line, pageNum, TextLayer)];
        } else {
          assert KeptLines(lines[..i + 1], TextLayer) == KeptLines(lines[..i], TextLayer);
        }
      }
      assert lines[..|lines|] == lines;
    }
  }

  /** The text-layer pass: the fragments of every page, pages numbered from 1. */
  method ExtractTextLayer(pages: seq<Option<string>>) returns (textContent: seq<Fragment>)
    ensures textContent == Fragments(pages, TextLayer, |pages|)
  {
    textContent := [];
    var done := 0;
    while done < |pages|
      invariant done <= |pages|
      invariant textContent == Fragments(pages, TextLayer, done)
    {
      var fragments := TextLayerPage(pages[done], done + 1);
      textContent := textContent + fragments;
      done := done + 1;
    }
  }

  /** One OCR page: when it has text that is not all whitespace, collect its
      clean lines of more than 5 characters that hold a letter, then make each
      a fragment of the page, in order. */
  method OcrPage(pageText: Option<string>, pageNum: int) returns (fragments: seq<Fragment>)
    ensures fragments == PageFragments(pageText, pageNum, Ocr)
  {
    fragments := [];
    if pageText.Some? && Strip(pageText.value) != [] {
      var lines := CleanLines(pageText.value);
      var cleanLines := [];
      for i := 0 to |lines|
        invariant cleanLines == KeptLines(lines[..i], Ocr)
      {
        var line := lines[i];
        KeptLinesSnoc(lines, i, Ocr);
        if |line| > 5 && HasAlpha(line) {
          cleanLines := cleanLines + [line];
        } else {
          assert KeptLines(lines[..i + 1], Ocr) == KeptLines(lines[..i], Ocr);
        }
      }
      assert lines[..|lines|] == lines;
      for i := 0 to |cleanLines|
        invariant fragments == Tag(cleanLines[..i], pageNum, Ocr)
      {
        assert cleanLines[..i + 1] == cleanLines[..i] + [cleanLines[i]];
        TagSnoc(cleanLines[..i], cleanLines[i], pageNum, Ocr);
        fragments := fragments + [Fragment(cleanLines[i], pageNum, Ocr)];
      }
      assert cleanLines[..|cleanLines|] == cleanLines;
    }
  }

  /** The OCR pass: the fragments of every page, pages numbered from 1. */
  method ExtractOcr(pages: seq<Option<string>>) returns (ocrTextContent: seq<Fragment>)
    ensures ocrTextContent == Fragments(pages, Ocr, |pages|)
  {
    ocrTextContent := [];
    var done := 0;
    while done < |pages|
      invariant done <= |pages|
      invariant ocrTextContent == Fragments(pages, Ocr, done)
    {
      var fragments := OcrPage(pages[done], done + 1);
      ocrTextContent := ocrTextContent + fragments;
      done := done + 1;
    }
  }

  /** `extract_text_from_pdf`: the text layer first, then OCR when it yielded
      fewer than 10 fragments; OCR's fragments are taken when there are any. */
  method ExtractTextFromPdf(textLayer: Option<seq<Option<string>>>, ocr: Option<seq<Option<string>>>)
    returns (textContent: seq<Fragment>)
    ensures textContent == Extracted(textLayer, ocr)
  {
    textContent := [];
    if textLayer.Some? {
      textContent := ExtractTextLayer(textLayer.value);
    }
    if |textContent| < 10 && ocr.Some? {
      var ocrTextContent := ExtractOcr(ocr.value);
      if ocrTextContent != [] {
        textContent := ocrTextContent;
      }
    }
  }
}
