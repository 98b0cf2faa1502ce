/** The per-pattern report `build_pattern_diagnostics` of the debug endpoint:
    for every entry of a pattern registry, how many distinct citations its
    recognizer finds and the first few of their texts. */
module Diagnostics {
  import opened Validation
  import opened CitationMatcher

  /** One record `{"type", "match_count", "samples"}`. */
  datatype PatternDiagnostic = PatternDiagnostic(citationType: CitationType, matchCount: nat, samples: seq<string>)

  /** The default of the `sample_limit` parameter. */
  const DefaultSampleLimit: int := 5

  function Min(a: int, b: int): int {
    if a <= b then a else b
  }

  function Max(a: int, b: int): int {
    if a <= b then b else a
  }

  /** The stop index Python's slice `xs[:k]` uses on a list of `n` elements:
      a negative `k` counts from the end, and the index is clamped to
      `0..n`. */
  function SliceStop(n: nat, k: int): (e: nat)
    ensures e <= n
    ensures 0 <= k ==> e == Min(k, n)
    ensures k < 0 ==> e == Max(0, n + k)
  {
    if k < 0 then (if n + k < 0 then 0 else n + k)
    else if k < n then k
    else n
  }

  /** The record for one pattern spec: the matcher's record count and the
      texts of the first `sampleLimit` records (as Python slices). */
  function Diagnostic(text: string, spec: PatternSpec, sampleLimit: int, lastHexDigit: string -> HexDigit)
    : PatternDiagnostic
  {
    var matches := Citations(spec.recognizer(text), spec.citationType, lastHexDigit);
    PatternDiagnostic(spec.citationType, |matches|, Texts(matches)[..SliceStop(|matches|, sampleLimit)])
  }

  /** The record names the spec's type, counts the distinct trimmed match
      values, and samples the first of them in first-occurrence order. */
  lemma DiagnosticCharacterized(text: string, spec: PatternSpec, sampleLimit: int, lastHexDigit: string -> HexDigit)
    ensures Diagnostic(text, spec, sampleLimit, lastHexDigit).citationType == spec.citationType
    ensures Diagnostic(text, spec, sampleLimit, lastHexDigit).matchCount
            == |FirstOccurrences(Trimmed(spec.recognizer(text)))|
    ensures Diagnostic(text, spec, sampleLimit, lastHexDigit).samples
            == FirstOccurrences(Trimmed(spec.recognizer(text)))
                 [..SliceStop(|FirstOccurrences(Trimmed(spec.recognizer(text)))|, sampleLimit)]
  {
    CitationsTexts(spec.recognizer(text), spec.citationType, lastHexDigit);
  }

  /** The samples are distinct, each is a text the matcher reports, and with a
      non-negative limit there are as many as the limit allows. */
  lemma DiagnosticSamples(text: string, spec: PatternSpec, sampleLimit: int, lastHexDigit: string -> HexDigit)
    ensures Distinct(Diagnostic(text, spec, sampleLimit, lastHexDigit).samples)
    ensures |Diagnostic(text, spec, sampleLimit, lastHexDigit).samples|
            <= Diagnostic(text, spec, sampleLimit, lastHexDigit).matchCount
    ensures 0 <= sampleLimit ==>
              |Diagnostic(text, spec, sampleLimit, lastHexDigit).samples|
              == Min(sampleLimit, Diagnostic(text, spec, sampleLimit, lastHexDigit).matchCount)
    ensures forall x :: x in Diagnostic(text, spec, sampleLimit, lastHexDigit).samples ==> x in Trimmed(spec.recognizer(text))
  {
    DiagnosticCharacterized(text, spec, sampleLimit, lastHexDigit);
    var d := Diagnostic(text, spec, sampleLimit, lastHexDigit);
    var all := FirstOccurrences(Trimmed(spec.recognizer(text)));
    assert d.samples == all[..SliceStop(d.matchCount, sampleLimit)];
    forall x | x in d.samples ensures x in all {
    }
  }

  /** The body of the loop of `build_pattern_diagnostics`: the matcher's
      records for one spec, counted and sampled. */
  method DiagnoseSpec(text: string, spec: PatternSpec, sampleLimit: int, lastHexDigit: string -> HexDigit)
    returns (diagnostic: PatternDiagnostic)
    ensures diagnostic == Diagnostic(text, spec, sampleLimit, lastHexDigit)
  {
    var matches := FindCitations(spec.recognizer(text), spec.citationType, lastHexDigit);
    var samples := Texts(matches)[..SliceStop(|matches|, sampleLimit)];
    diagnostic := PatternDiagnostic(spec.citationType, |matches|, samples);
  }

  /** `build_pattern_diagnostics(text, pattern_specs, sample_limit)`: one
      record per spec, in spec order, zero-count specs included. */
  method BuildPatternDiagnostics(text: string, specs: seq<PatternSpec>, sampleLimit: int,
                                 lastHexDigit: string -> HexDigit)
    returns (diagnostics: seq<PatternDiagnostic>)
    ensures |diagnostics| == |specs|
    ensures forall k :: 0 <= k < |specs| ==>
              diagnostics[k] == Diagnostic(text, specs[k], sampleLimit, lastHexDigit)
  {
    diagnostics := [];
    var k := 0;
    while k < |specs|
      invariant k <= |specs|
      invariant |diagnostics| == k
      invariant forall j :: 0 <= j < k ==> diagnostics[j] == Diagnostic(text, specs[j], sampleLimit, lastHexDigit)
    {
      var diagnostic := DiagnoseSpec(text, specs[k], sampleLimit, lastHexDigit);
      diagnostics := diagnostics + [diagnostic];
      k := k + 1;
    }
  }

  /** On the registry the report lists the ten citation types in registry
      order, each counted once. */
  lemma RegistryDiagnostics(text: string, recognizers: CitationType -> Recognizer, sampleLimit: int,
                            lastHexDigit: string -> HexDigit, diagnostics: seq<PatternDiagnostic>)
    requires |diagnostics| == |PatternSpecs(recognizers)|
    requires forall k :: 0 <= k < |diagnostics| ==>
               diagnostics[k] == Diagnostic(text, PatternSpecs(recognizers)[k], sampleLimit, lastHexDigit)
    ensures |diagnostics| == |RegistryOrder|
    ensures forall k :: 0 <= k < |diagnostics| ==> diagnostics[k].citationType == RegistryOrder[k]
    ensures forall j, k :: 0 <= j < k < |diagnostics| ==> diagnostics[j].citationType != diagnostics[k].citationType
  {
    RegistryIsComplete(recognizers);
    var specs := PatternSpecs(recognizers);
    forall k | 0 <= k < |diagnostics| ensures diagnostics[k].citationType == specs[k].citationType {
      assert diagnostics[k] == Diagnostic(text, specs[k], sampleLimit, lastHexDigit);
    }
  }

  /** The debug endpoint's report `build_pattern_diagnostics(text,
      PATTERN_SPECS)`: the registry's ten types in order, each with at most
      the default five samples. */
  method DebugDiagnostics(text: string, recognizers: CitationType -> Recognizer, lastHexDigit: string -> HexDigit)
    returns (diagnostics: seq<PatternDiagnostic>)
    ensures |diagnostics| == |RegistryOrder|
    ensures forall k :: 0 <= k < |diagnostics| ==>
              diagnostics[k] == Diagnostic(text, PatternSpecs(recognizers)[k], DefaultSampleLimit, lastHexDigit)
    ensures forall k :: 0 <= k < |diagnostics| ==> diagnostics[k].citationType == RegistryOrder[k]
    ensures forall k :: 0 <= k < |diagnostics| ==>
              |diagnostics[k].samples| == Min(DefaultSampleLimit, diagnostics[k].matchCount)
  {
    diagnostics := BuildPatternDiagnostics(text, PatternSpecs(recognizers), DefaultSampleLimit, lastHexDigit);
    RegistryDiagnostics(text, recognizers, DefaultSampleLimit, lastHexDigit, diagnostics);
    forall k | 0 <= k < |diagnostics|
      ensures |diagnostics[k].samples| == Min(DefaultSampleLimit, diagnostics[k].matchCount)
    {
      DiagnosticSamples(text, PatternSpecs(recognizers)[k], DefaultSampleLimit, lastHexDigit);
    }
  }
}
