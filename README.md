# Mortgage document section analyzer: a verified model

The analyzer (`app.py`) takes the text of a mortgage closing package in two
steps:

1. `extract_text_from_pdf` turns the PDF into text fragments. Each fragment
   is one line of text plus the 1-based page it came from. The PDF text layer
   is read first. OCR is the fallback.
2. `analyze_mortgage_sections` classifies the fragments against a fixed
   catalog of 16 section rules. It returns one record per document section
   found.

This project models both steps in Dafny and proves what they promise.

Files:

- **`text.dfy` (module `Text`)** models the Python string built-ins the code
  relies on: `in` on strings, `upper()`, `strip()`, `split()`, `split('\n')`,
  slicing with `[:100]` and `isalpha()`. Each comes with the facts the proofs
  need, for example:
  - `strip()` is idempotent;
  - `split()` keeps exactly the non-whitespace characters;
  - joining the pieces of `split('\n')` gives back the text.
- **`records.dfy` (module `Records`)** holds the fragment and section records
  and the confidence tiers with their ranking.
- **`rules.dfy` (module `Rules`)** holds `section_rules`, written out rule by
  rule: patterns in the order they are tried, label, and priority.
- **`matching.dfy` (module `Matching`)** covers what one rule makes of one
  fragment: the first pattern that occurs, the confidence of that match, and
  the candidate record.
- **`order.dfy` (module `Order`)** defines the sort key (priority
  descending, then page, then label) and an insertion sort that stands for
  `sorted`.
- **`classifier.dfy` (module `Classifier`)** models the `found_sections`
  dictionary as a `Table`, which keeps the labels in insertion order plus a
  map holding the records. It models insert-or-update as `Upsert`, and the
  fold of all fragments and rules as `Found`. Its imperative methods follow
  the source's nested loops and are proved equal to those functions:
  - `UpsertRecord`: the dictionary update;
  - `ApplyRuleTo`: the pattern loop with its `break`;
  - `AnalyzeSections`: the fragment and rule loops, then the sort;
  - `AnalyzeMortgageSections`: the same with the catalog fixed.
- **`properties.dfy` (module `Properties`)** proves what the result means
  for any rule table whose labels are distinct:
  - one record per label, strictly ordered;
  - a label is present exactly when one of its patterns occurs;
  - each record is the match of the last fragment of highest confidence;
  - the set of labels and their confidences do not depend on fragment order.

  `Rules.CatalogLabelsDistinct` shows that the catalog meets the
  distinct-labels hypothesis.
- **`extraction.dfy` (module `Extraction`)** covers the line splitting,
  stripping and filtering of both extraction passes, the 1-based page
  numbering, and the OCR fallback rule. The PDF and OCR libraries are
  parameters, as described below.

The extraction libraries are modelled as inputs:

- A whole extractor is an `Option` of a page list. `None` means the
  extractor is unavailable (`OCR_AVAILABLE` false) or failed before any page
  was read.
- A page is an `Option<string>`. `None` means the library returned no text
  for that page or raised an error on it.
- Each page loop runs its per-page work inside its own `try`
  (app.py:88-105 and 128-159), so an error on one page only skips that page.
- On the text layer, a failure that escapes the page loop (the PDF library
  failing while it iterates over the pages) is caught by the outer `except`
  (app.py:109-110), and the fragments already appended are kept. This is
  modelled as the shorter page list.
- In the OCR pass, a failure outside the per-page `try` is caught at
  app.py:165-167, which skips the fallback at app.py:161-163. Every OCR
  fragment is then discarded, so this is modelled as `ocr` being `None`, not
  as a shorter page list.

## Model

| member | source | states |
|---|---|---|
| Rules.CatalogLabelsDistinct | app.py:177-207 | the catalog has 16 rules and no two share a label, so the label is a dictionary key |
| Records.Rank | app.py:246 | high ranks 3, medium 2, low 1; only high ranks 3 and only low ranks 1 |
| Matching.FirstMatch | app.py:221-222 | the index found is the first pattern, in list order, that occurs in the text; there is none exactly when no pattern occurs |
| Matching.CountMatchesAtLeastTwo | app.py:229 | the pattern count exceeds 1 exactly when two different patterns of the rule occur |
| Matching.ConfidenceRule | app.py:224-230 | for a pattern that occurs, confidence is high iff the stripped text equals the pattern, or the text has at most 10 words, or two of the rule's patterns occur; it is medium iff none of these holds; it is never low |
| Matching.CandidateFacts | app.py:213-241 | a fragment yields a match for a rule iff one of the rule's patterns occurs in its upper-cased text; the record has the rule's label and priority, the fragment's page, the first occurring pattern, a confidence that is not low, and a snippet that is a prefix of the original text of at most 100 characters |
| Classifier.UpsertWellFormed | app.py:233-254 | inserting or updating keeps one record per label, filed under its own label with its catalog priority; the labels present grow by exactly the candidate's label; other labels' records are unchanged |
| Classifier.UpsertKeepsBest | app.py:233-254 | after the upsert, the label's record is the candidate unless the candidate ranks lower (priority is the same for a label, so equal confidence overwrites) |
| Classifier.ApplyFirstGet | app.py:216-255 | trying the first n rules on one fragment leaves each label's record as the keep-best rule applied to that rule's candidate, and untouched for the rules not yet tried |
| Classifier.ValuesMembers | app.py:258 | `found_sections.values()` lists each kept record once, and only those |
| Classifier.UpsertRecord | app.py:233-254 | the dictionary insert or in-place `.update` produces exactly `Upsert` of the old dictionary |
| Classifier.ApplyRuleTo | app.py:216-255 | the pattern loop with its `break` performs at most one upsert: that of the fragment's candidate for the rule |
| Classifier.AnalyzeSections | app.py:209-259 | the nested loops followed by the sort return exactly `ClassifyWith(rules, fragments)` |
| Classifier.AnalyzeMortgageSections | app.py:173-262 | the analysis with the built-in catalog returns exactly `Classify(fragments)` |
| Order.LexLeTotal | app.py:259 | comparison of labels is total |
| Order.LexLeAntisymmetric | app.py:259 | labels that compare both ways are equal |
| Order.LexLeTransitive | app.py:259 | comparison of labels is transitive |
| Order.SortSections | app.py:258-259 | the result is ordered by (−priority, page, label) and is a permutation of its input |
| Order.SortKeepsLabelsDistinct | app.py:258-259 | sorting keeps the labels distinct |
| Order.StrictlySortedUnique | app.py:258-259 | two strictly ordered sequences with the same elements are equal, so every correct sort of the records gives the same list |
| Properties.BestOfSpec | app.py:233-254 | the keep-best fold keeps nothing exactly when no fragment matched; otherwise it keeps the last offer of the highest rank |
| Properties.LastBestUnique | app.py:247-248 | only one offer is the last of the highest rank |
| Properties.BestIsLastMaximal | app.py:233-254 | the kept record is s exactly when s is the last offer of the highest rank |
| Properties.BestOfOrderIndependent | app.py:233-254 | whether a record is kept, and its confidence, depend only on which offers were made, not on their order |
| Properties.BestRecord | app.py:233-254 | the kept record carries the rule's label and priority and a confidence that is not low |
| Properties.BestPresent | app.py:221-233 | a record is kept for a rule exactly when some fragment matches it |
| Properties.BestOrderIndependent | app.py:212-254 | reordering the fragments changes neither whether a label is found nor its confidence |
| Properties.FoundBest | app.py:209-255 | the dictionary's record for each label, after all fragments, is the keep-best fold of that rule's matches in fragment order |
| Properties.ClassifyShape | app.py:233-259 | the result has one record per label, strictly ordered by (−priority, page, label), and every record has a catalog label with that label's priority |
| Properties.ClassifyUnique | app.py:258-259 | the result is the only strictly ordered arrangement of the dictionary's records |
| Properties.ClassifyMembers | app.py:233-259 | the records of the result are exactly the records the keep-best rule keeps, one per rule |
| Properties.ClassifyPresence | app.py:212-258 | a label is in the result exactly when some fragment's upper-cased text contains one of its rule's patterns |
| Properties.ClassifyRecord | app.py:213-259 | every record of the result is the match of the last fragment of highest confidence for its rule; it has the rule's label and priority, that fragment's page, the first pattern of the rule that occurs, a confidence that is not low, and a prefix of the fragment's original text of at most 100 characters as snippet |
| Properties.ClassifyEmpty | app.py:209-258 | the result is empty exactly when no pattern of any rule occurs in any fragment, in particular for no fragments |
| Properties.ClassifyOrderIndependent | app.py:212-254 | reordering the fragments keeps the set of labels found and the confidence of each |
| Text.Upper | app.py:213 | `upper()` restricted to ASCII: each lower-case ASCII letter becomes its upper-case letter, every other character is kept, and the length is kept |
| Text.UpperIdempotent | app.py:213 | upper-casing twice is upper-casing once |
| Text.UpperKeepsOccurrence | app.py:213-222 | an upper-case pattern that occurs verbatim in a fragment's text also occurs in its upper-cased text |
| Text.ContainsAt | app.py:222 | `needle in haystack` holds exactly when the needle occurs at some offset |
| Text.Prefix | app.py:238-252 | `s[:n]` is a prefix of s of at most n characters, and all of s when s is no longer |
| Text.StripSpec | app.py:225 | `strip()` keeps the slice between leading and trailing whitespace, which is all whitespace, and the result neither starts nor ends with whitespace |
| Text.StripIdempotent | app.py:95 | stripping twice is stripping once |
| Text.SplitWords | app.py:227 | the words of `split()` are non-empty and hold no whitespace |
| Text.SplitKeepsNonSpace | app.py:227 | the words of `split()` hold, in order, exactly the non-whitespace characters of the text |
| Text.SplitEmpty | app.py:227 | a text has no words exactly when it is all whitespace |
| Text.SplitGaps | app.py:227 | the text is its `split()` words woven with whitespace gaps, one more gap than words, and the gaps between two words are non-empty; with `Text.SplitWords` this makes the words the maximal non-whitespace runs, so their number is the word count the 10-word rule uses |
| Text.SplitLinesNoNewline | app.py:95 | no piece of `split('\n')` holds a newline |
| Text.JoinSplitLines | app.py:95 | joining the pieces of `split('\n')` with newlines gives back the text |
| Extraction.StripAllMembers | app.py:95 | the clean lines are exactly the non-empty stripped lines, and each is its own `strip()` |
| Extraction.CleanLinesSpec | app.py:139 | every clean line of a page is non-empty, stripped and free of newlines |
| Extraction.KeptLinesMembers | app.py:97-145 | a line passes the filter exactly when it is one of the lines and is kept: more than 3 characters for the text layer, more than 5 with a letter for OCR |
| Extraction.PageFragmentsMembers | app.py:93-152 | a page's fragments are its kept clean lines tagged with the page and the extractor, and none when its text is missing or all whitespace |
| Extraction.FragmentsMembers | app.py:88-152 | the fragments of the first n pages are exactly the kept clean lines of those pages, each tagged with its 1-based page number |
| Extraction.FragmentsInPageOrder | app.py:88-132 | fragments come in page order |
| Extraction.FallbackRule | app.py:114-163 | OCR's fragments replace the text layer's exactly when the text layer gave fewer than 10 and OCR gave some; the result is empty only when both gave nothing |
| Extraction.ExtractedFragments | app.py:95-163 | every extracted fragment is a non-empty stripped line without newline, on a page that exists; text-layer lines have more than 3 characters; OCR lines have more than 5 and a letter |
| Extraction.TextLayerPage | app.py:93-102 | the text-layer loop over one page appends exactly that page's fragments |
| Extraction.ExtractTextLayer | app.py:88-102 | the text-layer pass returns exactly the fragments of all pages |
| Extraction.OcrPage | app.py:136-152 | the OCR noise filter and append loop over one page produce exactly that page's fragments |
| Extraction.ExtractOcr | app.py:132-152 | the OCR pass returns exactly the fragments of all pages |
| Extraction.ExtractTextFromPdf | app.py:114-163 | the whole extraction returns exactly `Extracted`, for which `FallbackRule` and `ExtractedFragments` hold |

## Left out

- The PDF, image-conversion and OCR library calls are not modelled. Page texts
  arrive as parameters, and a library failure is `None`, as described above.
- Progress reporting (`update_progress`) and logging (`print`, tracebacks)
  are left out. They affect no result.
- The Flask routes, server start-up and the HTML/JavaScript page are left out.
- Text.UpperChar, Text.Upper: upper-case ASCII letters only and keep the
  length. Python's `upper()` also maps non-ASCII characters, some of them to
  ASCII letters and to several characters: `'ﬁ'` becomes `"FI"`, `'ﬂ'` becomes
  `"FL"`, `'ﬃ'` becomes `"FFI"`, `'ß'` becomes `"SS"`, `'ſ'` becomes `"S"` and
  `'ı'` becomes `"I"`. A fragment holding such characters can therefore match a
  pattern in the source and not in the model (`"aﬃdavit"` matches
  `"AFFIDAVIT"` in the source only). The "exactly when" of
  `Properties.ClassifyPresence` and `Properties.ClassifyEmpty` is relative to
  ASCII upper-casing.
- Characters are Dafny `char`s, the Unicode scalar values. A Python `str` can
  also hold lone surrogates (U+D800 to U+DFFF), which the model cannot
  represent.
- Text.IsAlpha: accepts ASCII and Latin-1 letters only, where Python's
  `isalpha()` accepts every Unicode letter.
- Python dictionaries are modelled by insertion order plus a map: hashing
  plays no part in the result.
- The source never writes a `low` confidence. `confidence_rank.get(…, 0)`
  gives 0 only to a tier that does not exist, so the model ranks only the
  three tiers.
- The generic members of `Classifier` and `Properties` take the rule table as
  a parameter. `AnalyzeMortgageSections` and `Classify` fix it to the catalog.
- Properties.ClassifyUnique: requires a strictly ordered list, not a
  non-strictly ordered one. The two coincide here because the labels are
  distinct (`Properties.ClassifyShape`).
- No property claims that the page, snippet or pattern of a record is
  independent of fragment order. The last-wins tie rule makes them depend
  on it.
- Extraction.TextLayerPage, Extraction.OcrPage: the per-page work of each
  pass is its own method. The source has it inline in the page loop.
