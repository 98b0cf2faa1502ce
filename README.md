# citationscout text pipeline in Dafny

This project models the text pipeline of the citationscout backend
(`backend/app/main.py`). The backend pulls the text out of an uploaded DOCX
document and lists the legal citations it finds. It also writes a per-pattern
diagnostic report. Each citation gets a placeholder validation status.

The pipeline has these steps:

- **Fragment collectors.** They gather text from four places: the text runs
  of the main XML part, the paragraphs, the footnotes, and the related parts
  (headers, footers, footnotes, endnotes and comments). Each collector keeps
  only strings that are stripped and not empty. Every footnote whose `w:type`
  attribute is a non-empty string is skipped, an explicit `normal` included;
  the code means these to be the separator and continuation entries.
- **Normaliser.** The fragments are joined with newlines and normalised.
  - Five space variants become ASCII spaces and two zero-width characters are
    deleted.
  - Every run of whitespace becomes one space.
  - The ends are stripped.
- **Matcher.** For each citation type in the registry, the matcher trims the
  values of the type's recognizer. It keeps only the first occurrence of each
  trimmed value. Each record is tagged with the type and with a status taken
  from the last hex digit of the text's digest.
- **Upload report.** It concatenates the records of all types in registry
  order. It also gives a preview of the text: a text of at most 2000
  characters unchanged, a longer one cut to its first 2000 characters plus
  `"..."`.
- **Debug report.** It gives one record per registry entry: the record count
  and the first `sample_limit` texts.

Modules, in dependency order:

- `Text` (text.dfy): Python's whitespace class and the argument-less
  `str.strip()`.
- `Normalizer` (normalizer.dfy): `normalize_extracted_text`.
- `Validation` (validation.dfy): `mock_validation_status`. The last hex digit
  of the MD5 digest is a parameter `lastHexDigit: string -> HexDigit`.
- `CitationMatcher` (citations.dfy): the registry and `find_citations`. A
  recognizer is modelled as the function from a text to the `group(1)`
  values that its `finditer` yields.
- `Diagnostics` (diagnostics.dfy): `build_pattern_diagnostics`.
- `Seqs` (seqs.dfy): `ConcatMap`, the "extend the result item by item" shape
  that every collector loop has, with its lemmas.
- `Extract` (extract.dfy): the four collectors over a value model of the
  parsed package.
- `Upload` (upload.dfy):
  - the join and normalisation of `extract_docx_text`;
  - the citation loop of `upload_docx`;
  - the preview.

The source's loops become methods with `while` loops. Each method is proved
equal to a specification function, and the properties are proved about
those functions. The normaliser and the status are pure functions.

Python semantics that the model writes out:

- **Whitespace.** `re`'s `\s` on `str` patterns and `str.strip()` both use
  `str.isspace()`. That is the code points 09–0D, 1C–20, 85, A0, 1680,
  2000–200A, 2028, 2029, 202F, 205F and 3000 (`Text.SpaceRanges`).
- **`matches[:sample_limit]`.** This is a Python slice, so a negative limit
  counts from the end (`Diagnostics.SliceStop`).
- **`if footnote_type:`.** Only a non-empty `w:type` string skips a footnote.
  A footnote whose `w:type` is present but empty is kept
  (`backend/app/main.py:222-224`): the code tests whether the attribute is
  truthy, not whether it is present.
- **`if node.text`.** Runs with no text and runs with empty text both add
  nothing.

## Model

| member | source | states |
|---|---|---|
| Text.IsSpaceCodes | backend/app/main.py:205 | The whitespace class used by `\s+` and `strip()` is exactly the listed code points. |
| Text.Strip | backend/app/main.py:121 | `strip()` never lengthens a string, and gives the empty string exactly when the string is all whitespace. |
| Text.StripIsInfix | backend/app/main.py:121 | `strip()` returns the infix between its two cut points, and everything it cuts off is whitespace. |
| Text.StripNoEdgeSpace | backend/app/main.py:121 | After `strip()` neither end is whitespace. |
| Text.StripFixpoint | backend/app/main.py:121 | `strip()` leaves a string unchanged exactly when neither of its ends is whitespace. |
| Text.StripIdempotent | backend/app/main.py:121 | Stripping twice gives the same result as stripping once. |
| Text.StripKeepsContent | backend/app/main.py:121 | `strip()` removes only whitespace: the non-whitespace characters survive, in order. |
| Normalizer.TranslateChar | backend/app/main.py:194-203 | U+00A0, U+2007, U+2009, U+200A and U+202F map to `" "`; U+2060 and U+FEFF map to `""`; every other character maps to itself. |
| Normalizer.Translate | backend/app/main.py:203 | After `translate`, none of the seven characters is left; the result is no longer than the input, and each character is a space or comes from the input. |
| Normalizer.TranslateAppend | backend/app/main.py:203 | The translation works character by character: translating a concatenation concatenates the translations. |
| Normalizer.TranslateFixpoint | backend/app/main.py:203 | The translation leaves a string unchanged exactly when it holds none of the seven characters. |
| Normalizer.Collapse | backend/app/main.py:205 | The collapse gives the empty string exactly for the empty string. |
| Normalizer.CollapseFirst | backend/app/main.py:205 | The collapse's result starts with whitespace exactly when its input does. |
| Normalizer.CollapseShape | backend/app/main.py:205 | After `re.sub(r"\s+", " ", ...)`, the only whitespace left is the ASCII space, and no two whitespace characters are adjacent. |
| Normalizer.CollapseSplit | backend/app/main.py:205 | A whitespace run never reaches across a non-whitespace character: after such a character, the rest is collapsed on its own. |
| Normalizer.CollapseSeparator | backend/app/main.py:205 | A whole whitespace run between two non-whitespace characters becomes exactly one ASCII space, so the text on either side stays apart. |
| Normalizer.CollapseLeadingSpaces | backend/app/main.py:205 | A whole leading whitespace run becomes one ASCII space, and the rest is collapsed on its own. |
| Normalizer.TranslateSpaces | backend/app/main.py:194-203 | The translation turns a whitespace run into a whitespace run of the same length, since neither deleted character is whitespace. |
| Normalizer.TranslateKeepsNonSpace | backend/app/main.py:194-203 | Without U+2060 and U+FEFF, the translation keeps the non-whitespace content exactly, because the five characters it rewrites are whitespace already. |
| Normalizer.CollapseKeepsNoReplaced | backend/app/main.py:205 | The collapse introduces none of the seven translated characters. |
| Normalizer.CollapseFixpoint | backend/app/main.py:205 | A string whose whitespace is already single ASCII spaces is left unchanged by the collapse. |
| Normalizer.CollapseKeepsContent | backend/app/main.py:205 | The collapse changes only whitespace: the non-whitespace characters survive, in order. |
| Normalizer.StripKeepsShape | backend/app/main.py:205 | Stripping a collapsed buffer keeps its shape and also leaves no whitespace at either end. |
| Normalizer.Normalize | backend/app/main.py:192-205 | The normalised buffer holds none of the seven characters. Its only whitespace is non-adjacent ASCII spaces, with none at either end. |
| Normalizer.NormalizeFixpoint | backend/app/main.py:192-205 | The normaliser leaves a string unchanged exactly when the string already has that shape. |
| Normalizer.NormalizeIdempotent | backend/app/main.py:192-205 | Normalising twice gives the same result as normalising once. |
| Normalizer.NormalizeKeepsContent | backend/app/main.py:203-205 | Besides the translation, only whitespace changes: the non-whitespace characters of the translated text survive, in order. |
| Normalizer.NormalizeDropsZeroWidth | backend/app/main.py:201-202 | A U+2060 or U+FEFF is deleted, not turned into a separator: the result is as if the character had never been there. |
| Normalizer.NormalizeSpacesVariant | backend/app/main.py:195-199 | Each of the five space variants acts exactly as an ASCII space would. |
| Normalizer.NormalizeSeparates | backend/app/main.py:192-205 | Two normalised, non-empty fragments with any whitespace between them (a line break, a run of spaces, a no-break space) normalise to the two fragments joined by one space. |
| Validation.StatusOfDigit | backend/app/main.py:106-113 | Digit values 0, 3, 6, 9, 12 and 15 give valid; 1, 4, 7, 10 and 13 give review; 2, 5, 8, 11 and 14 give invalid. The status is total over the sixteen digit values. |
| Validation.MockValidationStatusBuckets | backend/app/main.py:106-113 | A text's status is valid, review or invalid exactly when its digest's last hex digit is 0, 1 or 2 modulo 3, and its name is one of the three strings the source returns. |
| CitationMatcher.PatternSpecs | backend/app/main.py:92-103 | The registry has one spec per citation type, in the source's order, each with that type's recognizer. |
| CitationMatcher.RegistryIsComplete | backend/app/main.py:92-103 | No two registry entries share a type, and every citation type appears in the registry. |
| CitationMatcher.FirstOccurrences | backend/app/main.py:118-123 | The kept texts are pairwise distinct, and a text is kept exactly when it is among the trimmed values, so each trimmed value appears exactly once. |
| CitationMatcher.FirstOccurrencesSnoc | backend/app/main.py:122-123 | A new value is kept only if it has not been seen yet. |
| CitationMatcher.FirstOccurrencesOrdered | backend/app/main.py:120-130 | The kept texts appear in the order of their first occurrence among the trimmed values. |
| CitationMatcher.Trimmed | backend/app/main.py:121 | Each match value is trimmed with `strip()`, in place. |
| CitationMatcher.CitationsTexts | backend/app/main.py:116-132 | The record texts are the trimmed values with each kept at its first occurrence only. |
| CitationMatcher.CitationsTagged | backend/app/main.py:124-129 | Every record has the requested type and the status of its own text. |
| CitationMatcher.FindCitations | backend/app/main.py:116-132 | The seen-set loop returns the specified records: texts deduplicated in first-occurrence order, each tagged with the type and its own status. |
| Diagnostics.SliceStop | backend/app/main.py:145 | The stop index of `[:sample_limit]` lies within the list. It is min(limit, length) for a non-negative limit, and length plus limit (but at least 0) for a negative one. |
| Diagnostics.DiagnosticCharacterized | backend/app/main.py:139-147 | A record names its spec's type. Its count is the number of distinct trimmed match values. Its samples are the first of those values, in first-occurrence order, cut as `[:sample_limit]` cuts. |
| Diagnostics.DiagnosticSamples | backend/app/main.py:145 | The samples are distinct, there are no more of them than the count, and every sample is one of the trimmed match values. With a non-negative limit there are exactly min(limit, count) samples. |
| Diagnostics.DiagnoseSpec | backend/app/main.py:139-147 | One turn of the loop builds the record for its spec. |
| Diagnostics.BuildPatternDiagnostics | backend/app/main.py:135-148 | Exactly one record per spec, in spec order, including specs with no matches. |
| Diagnostics.RegistryDiagnostics | backend/app/main.py:92-103 | On the registry, the report lists the ten types once each, in registry order. |
| Diagnostics.DebugDiagnostics | backend/app/main.py:294 | The debug report over the registry has the ten types in registry order. With the default limit, each record has min(5, count) samples. |
| Extract.EndsWithSplit | backend/app/main.py:185 | `s.endswith(suffix)` holds exactly when `s` is some prefix followed by `suffix`. |
| Extract.CleanTextIsClean | backend/app/main.py:153-159 | A value that is kept is stripped and not empty. |
| Extract.CleanTextsAreClean | backend/app/main.py:151-160 | Every collected string is stripped and not empty. |
| Extract.CleanTextsAround | backend/app/main.py:153-159 | Non-string values and blank strings leave no trace. Every other string is kept, stripped, in its own place, so the output is an order-preserving image of the input. |
| Extract.ExtractNonEmptyParagraphs | backend/app/main.py:151-160 | The paragraph loop returns the stripped, non-empty paragraph texts, in order. |
| Extract.PartTextsAreClean | backend/app/main.py:163-176 | Every text collected from a part is stripped and not empty. |
| Extract.ExtractTextFromPartXml | backend/app/main.py:163-176 | A part without an element yields nothing; otherwise the result is the stripped, non-empty text-node strings, in order. |
| Extract.IsSkipped | backend/app/main.py:222-224 | A footnote is skipped when its `w:type` is a non-empty string. It is kept when the attribute is missing or empty. |
| Extract.JoinRunsEmptyRun | backend/app/main.py:227 | A run with no text and a run with empty text both add nothing to the joined paragraph text, wherever they stand. |
| Extract.ParagraphContributionIsClean | backend/app/main.py:228-230 | A footnote paragraph, when it contributes, contributes one stripped, non-empty string. |
| Extract.FootnoteTextsAreClean | backend/app/main.py:223-230 | Every string a footnote contributes is stripped and not empty. |
| Extract.RelationshipFootnotesAreClean | backend/app/main.py:212-230 | Every string a relationship contributes to the footnote paragraphs is stripped and not empty. |
| Extract.FootnoteParagraphsAreClean | backend/app/main.py:208-232 | Every footnote paragraph collected is stripped and not empty. |
| Extract.ExplicitNormalSkipped | backend/app/main.py:222-224 | A footnote whose `w:type` is the explicit ordinary type `normal` contributes no text, because only the attribute's non-emptiness is tested. |
| Extract.FootnoteAround | backend/app/main.py:220-230 | A footnote with a non-empty `w:type` contributes nothing wherever it stands. Any other footnote contributes its paragraphs' texts in its own place. |
| Extract.ParagraphDropped | backend/app/main.py:228-229 | A paragraph whose joined, stripped run text is empty is dropped. |
| Extract.ParagraphKept | backend/app/main.py:226-230 | Any other paragraph contributes exactly its joined, stripped run text, in its own place. |
| Extract.OtherRelationshipAround | backend/app/main.py:212-218 | A relationship whose type does not end in `/footnotes`, or whose target has no element, contributes no footnote text. |
| Extract.JoinParagraphRuns | backend/app/main.py:227-228 | The run loop returns the stripped concatenation of the non-empty run texts. |
| Extract.AppendParagraphTexts | backend/app/main.py:226-230 | The paragraph loop appends the specified texts of a footnote's paragraphs. |
| Extract.AppendFootnote | backend/app/main.py:222-230 | A skipped footnote appends nothing; any other footnote appends its paragraph texts. |
| Extract.AppendFootnoteTexts | backend/app/main.py:220-230 | The footnote loop appends the specified texts of a part's footnotes. |
| Extract.ExtractFootnoteParagraphs | backend/app/main.py:208-232 | The nested loops return the specified footnote paragraphs, all stripped and non-empty. |
| Extract.RelatedPartTextsAreClean | backend/app/main.py:179-189 | Every related-part text is stripped and not empty. |
| Extract.HasRelatedSuffix | backend/app/main.py:182-185 | The result is true exactly when the relationship type ends in one of the five suffixes. |
| Extract.ExtractRelatedPartText | backend/app/main.py:179-189 | The relationship loop returns the texts of the parts whose type has a related suffix, in relationship order. |
| Upload.JoinLines | backend/app/main.py:255 | The newline join of no chunks is empty. Otherwise it is as long as the chunks plus one separator between each pair of neighbours. |
| Upload.JoinLinesSnoc | backend/app/main.py:255 | One more chunk adds a `"\n"` and then the chunk. |
| Upload.JoinLinesAppend | backend/app/main.py:255 | Joining two non-empty lists of chunks puts one `"\n"` between the two joins, so each pair of neighbouring chunks has exactly one separator between them. |
| Upload.JoinLinesStart | backend/app/main.py:255 | The join starts with the first chunk. |
| Upload.JoinLinesEnd | backend/app/main.py:255 | The join ends with the last chunk. |
| Upload.JoinLinesContent | backend/app/main.py:255 | The newline join holds the non-whitespace content of every chunk, in chunk order, and nothing else. |
| Upload.JoinLinesNoReplaced | backend/app/main.py:255 | Joining chunks free of the seven characters gives a text free of them. |
| Upload.JoinLinesNoVanishes | backend/app/main.py:255 | Joining chunks free of U+2060 and U+FEFF gives a text free of them. |
| Upload.ExtractedText | backend/app/main.py:255-256 | The extracted text has the normal shape. |
| Upload.ExtractedTextContent | backend/app/main.py:255-256 | When no chunk holds U+2060 or U+FEFF, the extracted text keeps exactly the chunks' non-whitespace content, in order. This covers the space variants such as U+00A0. |
| Upload.ExtractedTextPair | backend/app/main.py:255-256 | Two normalised, non-empty chunks come out joined by one space, so the line break keeps them apart. |
| Upload.ExtractDocxText | backend/app/main.py:241-256 | The extracted text is the normalised newline join of the main-part runs, the paragraphs, the footnotes and the related parts, in that order. |
| Upload.CollectCitations | backend/app/main.py:279-281 | The upload loop returns every spec's records, concatenated in spec order. |
| Upload.OfTypeTagged | backend/app/main.py:279-281 | Filtering by type keeps either all records of a single-type list or none of them. |
| Upload.SpecCitationsOfType | backend/app/main.py:279-281 | The records of one spec contain no records of any other type. |
| Upload.AllCitationsOtherTypes | backend/app/main.py:279-281 | Specs of other types contribute no records of a given type. |
| Upload.AllCitationsAround | backend/app/main.py:279-281 | Each spec contributes its records in its own place in the upload list. |
| Upload.OfTypeAround | backend/app/main.py:279-281 | Selecting the records of one type distributes over the concatenation of three record lists. |
| Upload.UploadPerType | backend/app/main.py:279-281 | With distinct registry types, the upload records of one type are exactly that type's `find_citations` result. |
| Upload.UploadDistinctPerType | backend/app/main.py:279-281 | With distinct registry types, the upload records of one type have pairwise distinct texts. |
| Upload.UploadAgreesWithDiagnostics | backend/app/main.py:279-281 | The debug report's count for a type equals the number of upload records of that type. |
| Upload.Preview | backend/app/main.py:287 | A text of at most 2000 characters is returned unchanged. A longer text gives its first 2000 characters followed by `"..."`, 2003 characters in all. |
| Upload.PreviewUnchanged | backend/app/main.py:287 | The preview equals the text exactly when the text has at most 2000 characters, or has 2003 characters ending in `"..."`. |

## Left out

- The FastAPI application, the CORS middleware, the health route and the
  async `read_docx_upload`. This is HTTP plumbing. The file-name suffix check
  and the empty-payload check are guards in front of the pipeline.
- The response fields `filename`, `citation_count`, `raw_extracted_text` and
  `character_count`. The first is the upload's name. `raw_extracted_text` is
  the extracted text itself (`Upload.ExtractDocxText`). The other two are the
  lengths of the citation list and of the text, both of which the model
  computes.
- Parsing the package with python-docx, `document.part.rels` and the `xpath`
  queries. These are foreign library calls. The model takes their results as
  values: paragraphs' `text` attributes, parts with the `w:t` nodes and
  `w:footnote` elements below them, and relationships. It does not relate a
  part's text nodes to the runs of its footnotes. So it cannot see that
  footnote text reaches the buffer both through the footnote collector and
  through the related-part collector, whose suffixes include `/footnotes`.
- The main part's text nodes and the document's paragraphs are independent
  inputs of `Upload.ExtractDocxText`. So the model cannot see that body text
  is collected twice either: once from the main part's `w:t` runs
  (`backend/app/main.py:244`) and once from the paragraphs
  (`backend/app/main.py:247`).
- The MD5 digest. It is a foreign cryptographic function. The model takes its
  last hex digit's value as the parameter `lastHexDigit`, which folds in
  `int(digest[-1], 16)`.
- The ten regular expressions and `finditer`. Python `re` with
  IGNORECASE, backtracking and lookarounds is not modelled. Each recognizer is
  a parameter giving the `group(1)` values in scanning order, so no concrete
  citation example is covered.
- The mapping of exceptions to HTTP 400 answers. This is error transport, not
  logic.
- The difference between the two `getattr` defaults: `""` for paragraphs and
  `None` for XML nodes. Both are modelled as `Missing`, which every collector
  skips, as the source does.
- Python strings can hold lone surrogate code points. A Dafny `char` cannot,
  so such strings are not modelled.
