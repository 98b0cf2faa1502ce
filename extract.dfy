/** The fragment collectors of the DOCX extractor. The parsed document is
    given as values: the `text` attributes of the paragraphs, the parts with
    the text nodes and footnotes their XML holds, and the relationships of the
    main part. Each collector keeps only stripped, non-empty strings. */
module Extract {
  import opened Text
  import opened Seqs

  datatype Option<T> = None | Some(value: T)

  /** What `getattr(obj, "text", default)` finds: no attribute, a value that
      is not a string, or a string. A missing attribute yields the default,
      `""` for paragraphs and `None` for XML nodes; a collector skips either. */
  datatype TextAttr = Missing | NonString | Str(value: string)

  /** One XML element of a part: the `w:t` text nodes below it, in document
      order, and the `w:footnote` elements below it. */
  datatype Element = Element(textNodes: seq<TextAttr>, footnotes: seq<Footnote>)

  /** A package part; `element` is absent when the part object has none. */
  datatype Part = Part(element: Option<Element>)

  /** A `w:footnote`: its `w:type` attribute, if present, and its `w:p`
      paragraphs. */
  datatype Footnote = Footnote(footnoteType: Option<string>, paragraphs: seq<Paragraph>)

  /** A `w:p` paragraph: the `text` of each of its `w:t` nodes (`None` when
      the node has no text). */
  datatype Paragraph = Paragraph(runs: seq<Option<string>>)

  /** A relationship of the main document part. */
  datatype Relationship = Relationship(relType: string, targetPart: Part)

  /** `s.endswith(suffix)`. */
  predicate EndsWith(s: string, suffix: string) {
    |suffix| <= |s| && s[|s| - |suffix|..] == suffix
  }

  /** `s` ends with `suffix` exactly when `s` is something followed by
      `suffix`. */
  lemma EndsWithSplit(s: string, suffix: string)
    ensures EndsWith(s, suffix) <==> exists p :: s == p + suffix
  {
    if EndsWith(s, suffix) {
      assert s == s[..|s| - |suffix|] + suffix;
    }
    if exists p :: s == p + suffix {
      var p :| s == p + suffix;
      assert s[|s| - |suffix|..] == suffix;
    }
  }

  /** A string that `strip()` leaves alone and that is not empty. */
  predicate Clean(s: string) {
    s != [] && Strip(s) == s
  }

  predicate AllClean(xs: seq<string>) {
    forall y :: y in xs ==> Clean(y)
  }

  /** What one attribute value contributes: its stripped string, unless it is
      not a string or nothing is left after stripping. */
  function CleanText(value: TextAttr): seq<string> {
    if value.Str? && Strip(value.value) != [] then [Strip(value.value)] else []
  }

  /** Whatever is kept is clean. */
  lemma CleanTextIsClean(value: TextAttr)
    ensures AllClean(CleanText(value))
  {
    if value.Str? {
      StripIdempotent(value.value);
    }
  }

  /** The stripped, non-empty strings among `values`, in order. */
  function CleanTexts(values: seq<TextAttr>): seq<string> {
    ConcatMap(CleanText, values)
  }

  lemma CleanTextsAreClean(values: seq<TextAttr>)
    ensures AllClean(CleanTexts(values))
  {
    forall i | 0 <= i < |values| ensures AllClean(CleanText(values[i])) {
      CleanTextIsClean(values[i]);
    }
    ConcatMapEvery(CleanText, values, Clean);
  }

  /** Non-string values and blank strings leave no trace; any other string is
      kept, stripped, in its own place. */
  lemma CleanTextsAround(a: seq<TextAttr>, value: TextAttr, b: seq<TextAttr>)
    ensures !value.Str? || Strip(value.value) == [] ==> CleanTexts(a + [value] + b) == CleanTexts(a + b)
    ensures value.Str? && Strip(value.value) != [] ==>
              CleanTexts(a + [value] + b) == CleanTexts(a) + [Strip(value.value)] + CleanTexts(b)
  {
    ConcatMapAround(CleanText, a, value, b);
    ConcatMapAppend(CleanText, a, b);
  }

  /** `_extract_non_empty_paragraphs(paragraphs)`, given the `text`
      attribute of each paragraph. */
  method ExtractNonEmptyParagraphs(paragraphs: seq<TextAttr>) returns (texts: seq<string>)
    ensures texts == CleanTexts(paragraphs)
    ensures AllClean(texts)
  {
    texts := [];
    var i := 0;
    while i < |paragraphs|
      invariant i <= |paragraphs|
      invariant texts == ConcatMap(CleanText, paragraphs[..i])
    {
      ConcatMapSnoc(CleanText, paragraphs, i);
      var value := paragraphs[i];
      if value.Str? {
        var cleaned := Strip(value.value);
        if cleaned != [] {
          texts := texts + [cleaned];
        }
      }
      i := i + 1;
    }
    ConcatMapAll(CleanText, paragraphs);
    CleanTextsAreClean(paragraphs);
  }

  /** The text of a part's XML, or nothing when the part has no element. */
  function PartTexts(part: Part): seq<string> {
    if part.element.None? then [] else CleanTexts(part.element.value.textNodes)
  }

  lemma PartTextsAreClean(part: Part)
    ensures AllClean(PartTexts(part))
  {
    if part.element.Some? {
      CleanTextsAreClean(part.element.value.textNodes);
    }
  }

  /** `_extract_text_from_part_xml(part)`: the stripped, non-empty strings
      of the part's `w:t` nodes. */
  method ExtractTextFromPartXml(part: Part) returns (chunks: seq<string>)
    ensures chunks == PartTexts(part)
    ensures part.element.None? ==> chunks == []
    ensures AllClean(chunks)
  {
    if part.element.None? {
      return [];
    }
    var textNodes := part.element.value.textNodes;
    chunks := [];
    var i := 0;
    while i < |textNodes|
      invariant i <= |textNodes|
      invariant chunks == ConcatMap(CleanText, textNodes[..i])
    {
      ConcatMapSnoc(CleanText, textNodes, i);
      var value := textNodes[i];
      if value.Str? {
        var cleaned := Strip(value.value);
        if cleaned != [] {
          chunks := chunks + [cleaned];
        }
      }
      i := i + 1;
    }
    ConcatMapAll(CleanText, textNodes);
    CleanTextsAreClean(textNodes);
  }

  // Footnotes

  /** `if footnote_type:` skips a footnote whose `w:type` is a non-empty
      string; a missing or empty attribute keeps it. */
  function IsSkipped(footnote: Footnote): (skipped: bool)
    ensures footnote.footnoteType == None ==> !skipped
    ensures footnote.footnoteType == Some("") ==> !skipped
    ensures footnote.footnoteType.Some? && footnote.footnoteType.value != "" ==> skipped
  {
    footnote.footnoteType.Some? && footnote.footnoteType.value != []
  }

  /** The text of one run that `if node.text` keeps. */
  function RunText(run: Option<string>): string {
    if run.Some? && run.value != [] then run.value else []
  }

  /** `"".join(node.text for node in runs if node.text)`. */
  function JoinRuns(runs: seq<Option<string>>): string {
    ConcatMap(RunText, runs)
  }

  /** The empty-run filter changes nothing: a run with no text and a run with
      empty text both add nothing, wherever they stand. */
  lemma JoinRunsEmptyRun(a: seq<Option<string>>, b: seq<Option<string>>)
    ensures JoinRuns(a + [Some([])] + b) == JoinRuns(a + b)
    ensures JoinRuns(a + [None] + b) == JoinRuns(a + b)
  {
    ConcatMapAround(RunText, a, Some([]), b);
    ConcatMapAround(RunText, a, None, b);
    ConcatMapAppend(RunText, a, b);
  }

  /** The text a paragraph contributes: its joined runs, stripped. */
  function ParagraphText(paragraph: Paragraph): string {
    Strip(JoinRuns(paragraph.runs))
  }

  /** A paragraph contributes its text when that is not empty. */
  function ParagraphContribution(paragraph: Paragraph): seq<string> {
    var text := ParagraphText(paragraph);
    if text != [] then [text] else []
  }

  /** What one footnote contributes: nothing if it is skipped, else the
      non-empty texts of its paragraphs. */
  function FootnoteTexts(footnote: Footnote): seq<string> {
    if IsSkipped(footnote) then [] else ConcatMap(ParagraphContribution, footnote.paragraphs)
  }

  /** A relationship read for footnotes. */
  predicate IsFootnotesRelationship(rel: Relationship) {
    EndsWith(rel.relType, "/footnotes")
  }

  /** What one relationship contributes to the footnote paragraphs. */
  function RelationshipFootnotes(rel: Relationship): seq<string> {
    if IsFootnotesRelationship(rel) && rel.targetPart.element.Some?
    then ConcatMap(FootnoteTexts, rel.targetPart.element.value.footnotes)
    else []
  }

  /** The footnote paragraphs of all relationships, in order. */
  function FootnoteParagraphs(rels: seq<Relationship>): seq<string> {
    ConcatMap(RelationshipFootnotes, rels)
  }

  lemma ParagraphContributionIsClean(paragraph: Paragraph)
    ensures AllClean(ParagraphContribution(paragraph))
  {
    StripIdempotent(JoinRuns(paragraph.runs));
  }

  lemma FootnoteTextsAreClean(footnote: Footnote)
    ensures AllClean(FootnoteTexts(footnote))
  {
    var ps := footnote.paragraphs;
    forall i | 0 <= i < |ps| ensures AllClean(ParagraphContribution(ps[i])) {
      ParagraphContributionIsClean(ps[i]);
    }
    ConcatMapEvery(ParagraphContribution, ps, Clean);
  }

  lemma RelationshipFootnotesAreClean(rel: Relationship)
    ensures AllClean(RelationshipFootnotes(rel))
  {
    if IsFootnotesRelationship(rel) && rel.targetPart.element.Some? {
      var fs := rel.targetPart.element.value.footnotes;
      forall i | 0 <= i < |fs| ensures AllClean(FootnoteTexts(fs[i])) {
        FootnoteTextsAreClean(fs[i]);
      }
      ConcatMapEvery(FootnoteTexts, fs, Clean);
    }
  }

  /** Every footnote paragraph is stripped and not empty. */
  lemma FootnoteParagraphsAreClean(rels: seq<Relationship>)
    ensures AllClean(FootnoteParagraphs(rels))
  {
    forall i | 0 <= i < |rels| ensures AllClean(RelationshipFootnotes(rels[i])) {
      RelationshipFootnotesAreClean(rels[i]);
    }
    ConcatMapEvery(RelationshipFootnotes, rels, Clean);
  }

  /** The skip test looks only at whether `w:type` is non-empty, so a
      footnote that states the ordinary type `normal` explicitly is skipped
      as well. */
  lemma ExplicitNormalSkipped(footnote: Footnote)
    requires footnote.footnoteType == Some("normal")
    ensures FootnoteTexts(footnote) == []
  {
  }

  /** A footnote with a non-empty `w:type` (meant for the separator and
      continuation entries, but `normal` is caught too) contributes no text,
      wherever it stands; any other footnote contributes the non-empty
      stripped texts of its paragraphs, in its own place. */
  lemma FootnoteAround(a: seq<Footnote>, footnote: Footnote, b: seq<Footnote>)
    ensures IsSkipped(footnote) ==>
              ConcatMap(FootnoteTexts, a + [footnote] + b) == ConcatMap(FootnoteTexts, a + b)
    ensures !IsSkipped(footnote) ==>
              ConcatMap(FootnoteTexts, a + [footnote] + b)
              == ConcatMap(FootnoteTexts, a) + ConcatMap(ParagraphContribution, footnote.paragraphs)
                 + ConcatMap(FootnoteTexts, b)
  {
    ConcatMapAround(FootnoteTexts, a, footnote, b);
    ConcatMapAppend(FootnoteTexts, a, b);
  }

  /** A paragraph whose stripped run text is empty is dropped. */
  lemma ParagraphDropped(a: seq<Paragraph>, paragraph: Paragraph, b: seq<Paragraph>)
    requires ParagraphText(paragraph) == []
    ensures ConcatMap(ParagraphContribution, a + [paragraph] + b) == ConcatMap(ParagraphContribution, a + b)
  {
    ConcatMapDrop(ParagraphContribution, a, paragraph, b);
  }

  /** Any other paragraph contributes exactly that text, in its own place. */
  lemma ParagraphKept(a: seq<Paragraph>, paragraph: Paragraph, b: seq<Paragraph>)
    requires ParagraphText(paragraph) != []
    ensures ConcatMap(ParagraphContribution, a + [paragraph] + b)
            == ConcatMap(ParagraphContribution, a) + [ParagraphText(paragraph)] + ConcatMap(ParagraphContribution, b)
  {
    ConcatMapAround(ParagraphContribution, a, paragraph, b);
  }

  /** A relationship whose type does not end in `/footnotes`, or whose target
      has no element, contributes no footnote text. */
  lemma OtherRelationshipAround(a: seq<Relationship>, rel: Relationship, b: seq<Relationship>)
    requires !IsFootnotesRelationship(rel) || rel.targetPart.element.None?
    ensures FootnoteParagraphs(a + [rel] + b) == FootnoteParagraphs(a + b)
  {
    ConcatMapAround(RelationshipFootnotes, a, rel, b);
    ConcatMapAppend(RelationshipFootnotes, a, b);
  }

  /** The joined, stripped text of one paragraph's runs, as the list
      comprehension and `"".join(...).strip()` compute it. */
  method JoinParagraphRuns(paragraph: Paragraph) returns (text: string)
    ensures text == ParagraphText(paragraph)
  {
    var runs := paragraph.runs;
    var joined: string := [];
    var k := 0;
    while k < |runs|
      invariant k <= |runs|
      invariant joined == ConcatMap(RunText, runs[..k])
    {
      ConcatMapSnoc(RunText, runs, k);
      if runs[k].Some? && runs[k].value != [] {
        joined := joined + runs[k].value;
      }
      k := k + 1;
    }
    ConcatMapAll(RunText, runs);
    text := Strip(joined);
  }

  /** The innermost loop: the texts of a kept footnote's paragraphs appended
      to `paragraphs`. */
  method AppendParagraphTexts(paragraphs: seq<string>, footnoteParagraphs: seq<Paragraph>)
    returns (result: seq<string>)
    ensures result == paragraphs + ConcatMap(ParagraphContribution, footnoteParagraphs)
  {
    result := paragraphs;
    var k := 0;
    while k < |footnoteParagraphs|
      invariant k <= |footnoteParagraphs|
      invariant result == paragraphs + ConcatMap(ParagraphContribution, footnoteParagraphs[..k])
    {
      ConcatMapSnoc(ParagraphContribution, footnoteParagraphs, k);
      var text := JoinParagraphRuns(footnoteParagraphs[k]);
      if text != [] {
        result := result + [text];
      }
      k := k + 1;
    }
    ConcatMapAll(ParagraphContribution, footnoteParagraphs);
  }

  /** One turn of the middle loop: a skipped footnote adds nothing, any other
      adds the texts of its paragraphs. */
  method AppendFootnote(paragraphs: seq<string>, footnote: Footnote) returns (result: seq<string>)
    ensures result == paragraphs + FootnoteTexts(footnote)
  {
    if IsSkipped(footnote) {
      result := paragraphs;
    } else {
      result := AppendParagraphTexts(paragraphs, footnote.paragraphs);
    }
  }

  /** The middle loop: the texts of the footnotes of one footnotes part
      appended to `paragraphs`. */
  method AppendFootnoteTexts(paragraphs: seq<string>, footnotes: seq<Footnote>)
    returns (result: seq<string>)
    ensures result == paragraphs + ConcatMap(FootnoteTexts, footnotes)
  {
    result := paragraphs;
    var j := 0;
    while j < |footnotes|
      invariant j <= |footnotes|
      invariant result == paragraphs + ConcatMap(FootnoteTexts, footnotes[..j])
    {
      ConcatMapSnoc(FootnoteTexts, footnotes, j);
      var done := ConcatMap(FootnoteTexts, footnotes[..j]);
      result := AppendFootnote(result, footnotes[j]);
      assert result == paragraphs + (done + FootnoteTexts(footnotes[j]));
      j := j + 1;
    }
    ConcatMapAll(FootnoteTexts, footnotes);
  }

  /** `_extract_footnote_paragraphs(document)`, given the relationships of the
      main document part. */
  method ExtractFootnoteParagraphs(rels: seq<Relationship>) returns (paragraphs: seq<string>)
    ensures paragraphs == FootnoteParagraphs(rels)
    ensures AllClean(paragraphs)
  {
    paragraphs := [];
    var i := 0;
    while i < |rels|
      invariant i <= |rels|
      invariant paragraphs == ConcatMap(RelationshipFootnotes, rels[..i])
    {
      ConcatMapSnoc(RelationshipFootnotes, rels, i);
      var rel := rels[i];
      if IsFootnotesRelationship(rel) && rel.targetPart.element.Some? {
        paragraphs := AppendFootnoteTexts(paragraphs, rel.targetPart.element.value.footnotes);
      }
      i := i + 1;
    }
    ConcatMapAll(RelationshipFootnotes, rels);
    FootnoteParagraphsAreClean(rels);
  }

  // Related parts

  /** The relationship types whose target parts are read for text: headers,
      footers, footnotes, endnotes and comments. */
  const RelatedSuffixes: seq<string> := ["/header", "/footer", "/footnotes", "/endnotes", "/comments"]

  /** `rel.reltype.endswith(rel_suffixes)`. */
  predicate IsRelatedRelationship(rel: Relationship) {
    exists k :: 0 <= k < |RelatedSuffixes| && EndsWith(rel.relType, RelatedSuffixes[k])
  }

  /** What one relationship contributes to the related-part text. */
  function RelatedContribution(rel: Relationship): seq<string> {
    if IsRelatedRelationship(rel) then PartTexts(rel.targetPart) else []
  }

  /** The text of the related parts, in relationship order. */
  function RelatedPartTexts(rels: seq<Relationship>): seq<string> {
    ConcatMap(RelatedContribution, rels)
  }

  lemma RelatedPartTextsAreClean(rels: seq<Relationship>)
    ensures AllClean(RelatedPartTexts(rels))
  {
    forall i | 0 <= i < |rels| ensures AllClean(RelatedContribution(rels[i])) {
      PartTextsAreClean(rels[i].targetPart);
    }
    ConcatMapEvery(RelatedContribution, rels, Clean);
  }

  /** Whether `relType` ends with one of the related suffixes, tried in turn. */
  method HasRelatedSuffix(relType: string) returns (related: bool)
    ensures related <==> exists k :: 0 <= k < |RelatedSuffixes| && EndsWith(relType, RelatedSuffixes[k])
  {
    related := false;
    var k := 0;
    while k < |RelatedSuffixes|
      invariant k <= |RelatedSuffixes|
      invariant related <==> exists m :: 0 <= m < k && EndsWith(relType, RelatedSuffixes[m])
    {
      related := related || EndsWith(relType, RelatedSuffixes[k]);
      k := k + 1;
    }
  }

  /** `_extract_related_part_text(document)`. */
  method ExtractRelatedPartText(rels: seq<Relationship>) returns (texts: seq<string>)
    ensures texts == RelatedPartTexts(rels)
    ensures AllClean(texts)
  {
    texts := [];
    var i := 0;
    while i < |rels|
      invariant i <= |rels|
      invariant texts == ConcatMap(RelatedContribution, rels[..i])
    {
      ConcatMapSnoc(RelatedContribution, rels, i);
      var rel := rels[i];
      var related := HasRelatedSuffix(rel.relType);
      if related {
        var chunks := ExtractTextFromPartXml(rel.targetPart);
        texts := texts + chunks;
      }
      i := i + 1;
    }
    ConcatMapAll(RelatedContribution, rels);
    RelatedPartTextsAreClean(rels);
  }
}
