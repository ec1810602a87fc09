/** The records that flow through the analyzer: extracted text fragments and
    identified sections. */
module Records {

  datatype Option<T> = None | Some(value: T)

  /** Which extractor produced a fragment: the PDF text layer (pdfplumber) or
      OCR of the rendered page image. Informational only. */
  datatype Extraction = TextLayer | Ocr

  /** One extracted line: its text and the 1-based page it came from. */
  datatype Fragment = Fragment(text: string, page: int, via: Extraction)

  /** Confidence tiers, ranked high > medium > low. */
  datatype Confidence = Low | Medium | High

  /** The `confidence_rank` table: high 3, medium 2, low 1. */
  function Rank(c: Confidence): (n: int)
    ensures 1 <= n <= 3
    ensures c == High <==> n == 3
    ensures c == Low <==> n == 1
  {
    match c
    case High => 3
    case Medium => 2
    case Low => 1
  }

  /** The rank determines the tier. */
  lemma RankInjective(a: Confidence, b: Confidence)
    ensures Rank(a) == Rank(b) <==> a == b
  {
  }

  /** One identified section: the record kept per label. */
  datatype Section = Section(
    sectionType: string,
    page: int,
    confidence: Confidence,
    textSnippet: string,
    priority: int,
    patternMatched: string)
}
