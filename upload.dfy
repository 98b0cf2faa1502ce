/** How the endpoints put the pieces together: the extracted text is the
    normalised newline-join of the collected fragments, the upload report
    concatenates the matcher's records over the registry, and the preview is
    the first 2000 characters of the text. */
module Upload {
  import opened Text
  import opened Normalizer
  import opened Validation
  import opened Seqs
  import opened CitationMatcher
  import opened Diagnostics
  import opened Extract

  // The extracted text

  /** The total length of the chunks. */
  function TotalLength(chunks: seq<string>): nat {
    if chunks == [] then 0 else TotalLength(chunks[..|chunks| - 1]) + |chunks[|chunks| - 1]|
  }

  /** `"\n".join(chunks)`: the chunks with one separator between neighbours,
      starting with the first chunk and ending with the last. */
  function JoinLines(chunks: seq<string>): (text: string)
    ensures chunks == [] ==> text == []
    ensures chunks != [] ==> |text| == TotalLength(chunks) + |chunks| - 1
  {
    if chunks == [] then []
    else if |chunks| == 1 then chunks[0]
    else
      JoinLines(chunks[..|chunks| - 1]) + "\n" + chunks[|chunks| - 1]
  }

  /** The separators are whitespace: the joined text holds the non-whitespace
      content of every chunk, in chunk order, and nothing else. */
  lemma {:induction false} JoinLinesContent(chunks: seq<string>)
    ensures NonSpace(JoinLines(chunks)) == ConcatMap(NonSpace, chunks)
  {
    if chunks == [] {
    } else if |chunks| == 1 {
      assert chunks[..0] == [];
      assert ConcatMap(NonSpace, chunks) == [] + NonSpace(chunks[0]);
    } else {
      var prefix := chunks[..|chunks| - 1];
      var last := chunks[|chunks| - 1];
      JoinLinesContent(prefix);
      NonSpaceAppend(JoinLines(prefix) + "\n", last);
      NonSpaceAppend(JoinLines(prefix), "\n");
      assert NonSpace("\n") == [] by {
        IsSpaceCodes('\n');
        assert "\n"[1..] == [];
      }
    }
  }

  /** One more chunk adds a separator and the chunk. */
  lemma JoinLinesSnoc(chunks: seq<string>, chunk: string)
    requires chunks != []
    ensures JoinLines(chunks + [chunk]) == JoinLines(chunks) + "\n" + chunk
  {
    assert (chunks + [chunk])[..|chunks|] == chunks;
  }

  /** Joining two non-empty lists of chunks puts one separator between the
      two joins: every pair of neighbouring chunks has a `"\n"` between them. */
  lemma {:induction false} JoinLinesAppend(a: seq<string>, b: seq<string>)
    requires a != [] && b != []
    ensures JoinLines(a + b) == JoinLines(a) + "\n" + JoinLines(b)
    decreases |b|
  {
    var prefix, last := b[..|b| - 1], b[|b| - 1];
    assert b == prefix + [last];
    assert a + b == (a + prefix) + [last];
    if prefix == [] {
      JoinLinesSnoc(a, last);
    } else {
      JoinLinesSnoc(a + prefix, last);
      JoinLinesAppend(a, prefix);
      JoinLinesSnoc(prefix, last);
    }
  }

  /** The join starts with the first chunk. */
  lemma {:induction false} JoinLinesStart(chunks: seq<string>)
    requires chunks != []
    ensures chunks[0] <= JoinLines(chunks)
  {
    if |chunks| > 1 {
      var prefix := chunks[..|chunks| - 1];
      assert prefix[0] == chunks[0];
      JoinLinesStart(prefix);
      var joined := JoinLines(prefix);
      assert joined <= joined + "\n" + chunks[|chunks| - 1];
    }
  }

  /** The join ends with the last chunk. */
  lemma JoinLinesEnd(chunks: seq<string>)
    requires chunks != []
    ensures JoinLines(chunks)[|JoinLines(chunks)| - |chunks[|chunks| - 1]|..] == chunks[|chunks| - 1]
  {
    if |chunks| > 1 {
      var joined := JoinLines(chunks[..|chunks| - 1]);
      var last := chunks[|chunks| - 1];
      assert JoinLines(chunks) == joined + "\n" + last;
      assert (joined + "\n" + last)[|joined| + 1..] == last;
    }
  }

  /** A chunk free of the seven translated characters keeps the joined text
      free of them. */
  lemma {:induction false} JoinLinesNoReplaced(chunks: seq<string>)
    requires forall i :: 0 <= i < |chunks| ==> NoReplaced(chunks[i])
    ensures NoReplaced(JoinLines(chunks))
  {
    if |chunks| == 1 {
      assert JoinLines(chunks) == chunks[0];
    } else if |chunks| > 1 {
      var prefix := chunks[..|chunks| - 1];
      var last := chunks[|chunks| - 1];
      assert forall i :: 0 <= i < |prefix| ==> prefix[i] == chunks[i];
      JoinLinesNoReplaced(prefix);
      var joined := JoinLines(prefix);
      assert JoinLines(chunks) == joined + "\n" + last;
      NoReplacedAppend(joined, "\n");
      NoReplacedAppend(joined + "\n", last);
    }
  }

  /** A chunk free of the two deleted characters keeps the joined text free
      of them. */
  lemma {:induction false} JoinLinesNoVanishes(chunks: seq<string>)
    requires forall i :: 0 <= i < |chunks| ==> NoVanishes(chunks[i])
    ensures NoVanishes(JoinLines(chunks))
  {
    if |chunks| == 1 {
      assert JoinLines(chunks) == chunks[0];
    } else if |chunks| > 1 {
      var prefix := chunks[..|chunks| - 1];
      var last := chunks[|chunks| - 1];
      assert forall i :: 0 <= i < |prefix| ==> prefix[i] == chunks[i];
      JoinLinesNoVanishes(prefix);
      var joined := JoinLines(prefix);
      assert JoinLines(chunks) == joined + "\n" + last;
      NoVanishesAppend(joined, "\n");
      NoVanishesAppend(joined + "\n", last);
    }
  }

  /** `normalize_extracted_text("\n".join(extracted_chunks))`. */
  function ExtractedText(chunks: seq<string>): (text: string)
    ensures Normal(text)
  {
    Normalize(JoinLines(chunks))
  }

  /** When no chunk holds a word joiner or byte-order mark, the extracted
      text keeps exactly the non-whitespace content of the chunks, in order:
      the normaliser only rewrites whitespace. */
  lemma ExtractedTextContent(chunks: seq<string>)
    requires forall i :: 0 <= i < |chunks| ==> NoVanishes(chunks[i])
    ensures NonSpace(ExtractedText(chunks)) == ConcatMap(NonSpace, chunks)
  {
    NormalizeKeepsContent(JoinLines(chunks));
    JoinLinesNoVanishes(chunks);
    TranslateKeepsNonSpace(JoinLines(chunks));
    JoinLinesContent(chunks);
  }

  /** Two normalised, non-empty chunks come out joined by one space: the line
      break between them keeps them apart. */
  lemma ExtractedTextPair(a: string, b: string)
    requires Normal(a) && a != []
    requires Normal(b) && b != []
    ensures ExtractedText([a, b]) == a + " " + b
  {
    JoinLinesSnoc([a], b);
    assert [a] + [b] == [a, b];
    assert JoinLines([a, b]) == a + "\n" + b;
    IsSpaceCodes('\n');
    NormalizeSeparates(a, "\n", b);
  }

  /** The fragments `extract_docx_text` collects, in its order: the text runs
      of the main part, the paragraphs, the footnotes, the related parts. */
  function DocxChunks(documentPart: Part, paragraphs: seq<TextAttr>, rels: seq<Relationship>): seq<string> {
    PartTexts(documentPart) + CleanTexts(paragraphs) + FootnoteParagraphs(rels) + RelatedPartTexts(rels)
  }

  /** `extract_docx_text` once the package is parsed. */
  method ExtractDocxText(documentPart: Part, paragraphs: seq<TextAttr>, rels: seq<Relationship>)
    returns (text: string)
    ensures text == ExtractedText(DocxChunks(documentPart, paragraphs, rels))
    ensures Normal(text)
  {
    var chunks := ExtractTextFromPartXml(documentPart);
    var more := ExtractNonEmptyParagraphs(paragraphs);
    chunks := chunks + more;
    more := ExtractFootnoteParagraphs(rels);
    chunks := chunks + more;
    more := ExtractRelatedPartText(rels);
    chunks := chunks + more;
    text := Normalize(JoinLines(chunks));
  }

  // The upload report

  /** The records of one pattern spec on `text`. */
  function SpecCitations(text: string, spec: PatternSpec, lastHexDigit: string -> HexDigit): seq<CitationMatch> {
    Citations(spec.recognizer(text), spec.citationType, lastHexDigit)
  }

  /** The `citations` list of the upload report: each spec's records, in spec
      order. */
  function AllCitations(text: string, specs: seq<PatternSpec>, lastHexDigit: string -> HexDigit)
    : seq<CitationMatch>
  {
    ConcatMap((spec: PatternSpec) => SpecCitations(text, spec, lastHexDigit), specs)
  }

  /** The loop of `upload_docx` that extends `citations` spec by spec. */
  method CollectCitations(text: string, specs: seq<PatternSpec>, lastHexDigit: string -> HexDigit)
    returns (citations: seq<CitationMatch>)
    ensures citations == AllCitations(text, specs, lastHexDigit)
  {
    ghost var f := (spec: PatternSpec) => SpecCitations(text, spec, lastHexDigit);
    citations := [];
    var k := 0;
    while k < |specs|
      invariant k <= |specs|
      invariant citations == ConcatMap(f, specs[..k])
    {
      ConcatMapSnoc(f, specs, k);
      var matches := FindCitations(specs[k].recognizer(text), specs[k].citationType, lastHexDigit);
      citations := citations + matches;
      k := k + 1;
    }
    ConcatMapAll(f, specs);
  }

  /** The records of type `t`, in order. */
  function OfType(ms: seq<CitationMatch>, t: CitationType): seq<CitationMatch> {
    if ms == [] then []
    else OfType(ms[..|ms| - 1], t) + (if ms[|ms| - 1].citationType == t then [ms[|ms| - 1]] else [])
  }

  lemma {:induction false} OfTypeAppend(a: seq<CitationMatch>, b: seq<CitationMatch>, t: CitationType)
    ensures OfType(a + b, t) == OfType(a, t) + OfType(b, t)
    decreases |b|
  {
    if b == [] {
      assert a + b == a;
    } else {
      OfTypeAppend(a, b[..|b| - 1], t);
      assert (a + b)[..|a + b| - 1] == a + b[..|b| - 1];
      assert (a + b)[|a + b| - 1] == b[|b| - 1];
    }
  }

  /** Filtering records all of one type keeps all of them or none. */
  lemma {:induction false} OfTypeTagged(ms: seq<CitationMatch>, u: CitationType, lastHexDigit: string -> HexDigit,
                                        t: CitationType)
    requires Tagged(ms, u, lastHexDigit)
    ensures OfType(ms, t) == if u == t then ms else []
  {
    if ms != [] {
      var prefix := ms[..|ms| - 1];
      assert Tagged(prefix, u, lastHexDigit) by {
        assert forall i :: 0 <= i < |prefix| ==> prefix[i] == ms[i];
      }
      OfTypeTagged(prefix, u, lastHexDigit, t);
      assert u == t ==> prefix + [ms[|ms| - 1]] == ms;
    }
  }

  lemma SpecCitationsOfType(text: string, spec: PatternSpec, lastHexDigit: string -> HexDigit, t: CitationType)
    ensures OfType(SpecCitations(text, spec, lastHexDigit), t)
            == if spec.citationType == t then SpecCitations(text, spec, lastHexDigit) else []
  {
    CitationsTagged(spec.recognizer(text), spec.citationType, lastHexDigit);
    OfTypeTagged(SpecCitations(text, spec, lastHexDigit), spec.citationType, lastHexDigit, t);
  }

  /** Specs of other types contribute no record of type `t`. */
  lemma {:induction false} AllCitationsOtherTypes(text: string, specs: seq<PatternSpec>,
                                                  lastHexDigit: string -> HexDigit, t: CitationType)
    requires forall j :: 0 <= j < |specs| ==> specs[j].citationType != t
    ensures OfType(AllCitations(text, specs, lastHexDigit), t) == []
  {
    if specs != [] {
      var prefix := specs[..|specs| - 1];
      AllCitationsOtherTypes(text, prefix, lastHexDigit, t);
      assert AllCitations(text, specs, lastHexDigit)
             == AllCitations(text, prefix, lastHexDigit) + SpecCitations(text, specs[|specs| - 1], lastHexDigit);
      OfTypeAppend(AllCitations(text, prefix, lastHexDigit), SpecCitations(text, specs[|specs| - 1], lastHexDigit), t);
      SpecCitationsOfType(text, specs[|specs| - 1], lastHexDigit, t);
    }
  }

  /** Each spec contributes its records in its own place. */
  lemma AllCitationsAround(text: string, specs: seq<PatternSpec>, lastHexDigit: string -> HexDigit, k: nat)
    requires k < |specs|
    ensures AllCitations(text, specs, lastHexDigit)
            == AllCitations(text, specs[..k], lastHexDigit) + SpecCitations(text, specs[k], lastHexDigit)
               + AllCitations(text, specs[k + 1..], lastHexDigit)
  {
    var f := (spec: PatternSpec) => SpecCitations(text, spec, lastHexDigit);
    assert specs == specs[..k] + [specs[k]] + specs[k + 1..];
    ConcatMapAround(f, specs[..k], specs[k], specs[k + 1..]);
  }

  /** Filtering three concatenated lists filters each. */
  lemma OfTypeAround(a: seq<CitationMatch>, m: seq<CitationMatch>, b: seq<CitationMatch>, t: CitationType)
    ensures OfType(a + m + b, t) == OfType(a, t) + OfType(m, t) + OfType(b, t)
  {
    OfTypeAppend(a + m, b, t);
    OfTypeAppend(a, m, t);
  }

  /** On a registry whose types are distinct, the upload report's records of
      one type are exactly what the matcher returns for that type's spec. */
  lemma UploadPerType(text: string, specs: seq<PatternSpec>, lastHexDigit: string -> HexDigit, k: nat)
    requires DistinctTypes(specs)
    requires k < |specs|
    ensures OfType(AllCitations(text, specs, lastHexDigit), specs[k].citationType)
            == SpecCitations(text, specs[k], lastHexDigit)
  {
    var t := specs[k].citationType;
    var a, b := specs[..k], specs[k + 1..];
    AllCitationsAround(text, specs, lastHexDigit, k);
    OfTypeAround(AllCitations(text, a, lastHexDigit), SpecCitations(text, specs[k], lastHexDigit),
                 AllCitations(text, b, lastHexDigit), t);
    AllCitationsOtherTypes(text, a, lastHexDigit, t);
    assert forall j :: 0 <= j < |b| ==> b[j] == specs[k + 1 + j];
    AllCitationsOtherTypes(text, b, lastHexDigit, t);
    SpecCitationsOfType(text, specs[k], lastHexDigit, t);
  }

  /** Within one type, the upload report lists each citation text once. */
  lemma UploadDistinctPerType(text: string, specs: seq<PatternSpec>, lastHexDigit: string -> HexDigit, k: nat)
    requires DistinctTypes(specs)
    requires k < |specs|
    ensures Distinct(Texts(OfType(AllCitations(text, specs, lastHexDigit), specs[k].citationType)))
  {
    UploadPerType(text, specs, lastHexDigit, k);
    CitationsTexts(specs[k].recognizer(text), specs[k].citationType, lastHexDigit);
  }

  /** The two endpoints agree: the debug report's count for a registry type
      is the number of upload records of that type. */
  lemma UploadAgreesWithDiagnostics(text: string, specs: seq<PatternSpec>, sampleLimit: int,
                                    lastHexDigit: string -> HexDigit, k: nat)
    requires DistinctTypes(specs)
    requires k < |specs|
    ensures |OfType(AllCitations(text, specs, lastHexDigit), specs[k].citationType)|
            == Diagnostic(text, specs[k], sampleLimit, lastHexDigit).matchCount
  {
    UploadPerType(text, specs, lastHexDigit, k);
  }

  // The preview

  /** The number of characters the preview keeps. */
  const PreviewLimit: nat := 2000

  /** `text[:2000] + "..." if len(text) > 2000 else text`. */
  function Preview(text: string): (preview: string)
    ensures |text| <= PreviewLimit ==> preview == text
    ensures PreviewLimit < |text| ==>
              |preview| == PreviewLimit + 3 && preview[..PreviewLimit] == text[..PreviewLimit]
              && preview[PreviewLimit..] == "..."
  {
    if |text| > PreviewLimit then text[..PreviewLimit] + "..." else text
  }

  /** The preview differs from the text exactly when the text is longer than
      the limit, except for a text of 2003 characters whose last three are
      already `"..."`. */
  lemma PreviewUnchanged(text: string)
    ensures Preview(text) == text <==> |text| <= PreviewLimit || (|text| == PreviewLimit + 3 && text[PreviewLimit..] == "...")
  {
    if PreviewLimit < |text| && |text| == PreviewLimit + 3 && text[PreviewLimit..] == "..." {
      assert text == text[..PreviewLimit] + text[PreviewLimit..];
    }
  }
}
