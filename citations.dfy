/** The citation matcher `find_citations` and the pattern registry
    `PATTERN_SPECS`. A recognizer is not modelled as a regular expression: it
    is a function from the buffer to the `group(1)` values of the matches that
    `finditer` yields, in scanning order. */
module CitationMatcher {
  import opened Text
  import opened Validation

  /** The ten citation families of the registry. */
  datatype CitationType =
    | Case | CaseShort | Statute | StatuteState | Regulation | RegulationState
    | LawReview | AgencyPublication | ForeignLaw | Constitutional
  {
    /** The tag string the source stores in each record. */
    function Name(): string {
      match this
      case Case => "case"
      case CaseShort => "case_short"
      case Statute => "statute"
      case StatuteState => "statute_state"
      case Regulation => "regulation"
      case RegulationState => "regulation_state"
      case LawReview => "law_review"
      case AgencyPublication => "agency_publication"
      case ForeignLaw => "foreign_law"
      case Constitutional => "constitutional"
    }
  }

  /** The registry order of `PATTERN_SPECS`. */
  const RegistryOrder: seq<CitationType> :=
    [Case, CaseShort, Statute, StatuteState, Regulation, RegulationState,
     LawReview, AgencyPublication, ForeignLaw, Constitutional]

  /** What `finditer` over a buffer yields, reduced to the `group(1)` values. */
  type Recognizer = string -> seq<string>

  /** One `(citation_type, pattern)` pair of the registry. */
  datatype PatternSpec = PatternSpec(citationType: CitationType, recognizer: Recognizer)

  /** One record of `find_citations`: `{"type", "text", "status"}`. */
  datatype CitationMatch = CitationMatch(citationType: CitationType, text: string, status: Status)

  /** The registry: one pattern spec per citation type, in registry order,
      given the recognizer of each type. */
  function PatternSpecs(recognizers: CitationType -> Recognizer): (specs: seq<PatternSpec>)
    ensures |specs| == |RegistryOrder|
    ensures forall i :: 0 <= i < |specs| ==>
              specs[i].citationType == RegistryOrder[i] && specs[i].recognizer == recognizers(RegistryOrder[i])
  {
    seq(|RegistryOrder|, i requires 0 <= i < |RegistryOrder| =>
      PatternSpec(RegistryOrder[i], recognizers(RegistryOrder[i])))
  }

  /** No two specs share a citation type. */
  predicate DistinctTypes(specs: seq<PatternSpec>) {
    forall i, j :: 0 <= i < j < |specs| ==> specs[i].citationType != specs[j].citationType
  }

  /** No two elements of `xs` are equal. */
  predicate Distinct<T(==)>(xs: seq<T>) {
    forall i, j :: 0 <= i < j < |xs| ==> xs[i] != xs[j]
  }

  /** The registry lists every citation type exactly once. */
  lemma RegistryIsComplete(recognizers: CitationType -> Recognizer)
    ensures DistinctTypes(PatternSpecs(recognizers))
    ensures forall t: CitationType :: t in RegistryOrder
  {
    forall t: CitationType ensures t in RegistryOrder {
      match t
      case Case => assert RegistryOrder[0] == t;
      case CaseShort => assert RegistryOrder[1] == t;
      case Statute => assert RegistryOrder[2] == t;
      case StatuteState => assert RegistryOrder[3] == t;
      case Regulation => assert RegistryOrder[4] == t;
      case RegulationState => assert RegistryOrder[5] == t;
      case LawReview => assert RegistryOrder[6] == t;
      case AgencyPublication => assert RegistryOrder[7] == t;
      case ForeignLaw => assert RegistryOrder[8] == t;
      case Constitutional => assert RegistryOrder[9] == t;
    }
  }

  /** The match values with surrounding whitespace removed, as `.strip()` does. */
  function Trimmed(values: seq<string>): (r: seq<string>)
    ensures |r| == |values|
    ensures forall i :: 0 <= i < |r| ==> r[i] == Strip(values[i])
  {
    if values == [] then [] else Trimmed(values[..|values| - 1]) + [Strip(values[|values| - 1])]
  }

  /** The texts of some records, in order. */
  function Texts(ms: seq<CitationMatch>): (r: seq<string>)
    ensures |r| == |ms|
    ensures forall i :: 0 <= i < |r| ==> r[i] == ms[i].text
  {
    if ms == [] then [] else Texts(ms[..|ms| - 1]) + [ms[|ms| - 1].text]
  }

  /** The first occurrence of each element of `xs`, in the order those first
      occurrences appear. Every element of `xs` is in it exactly once and
      nothing else is. */
  function FirstOccurrences(xs: seq<string>): (d: seq<string>)
    ensures Distinct(d)
    ensures forall x :: x in d <==> x in xs
    ensures |d| <= |xs|
  {
    if xs == [] then []
    else
      var prefix := xs[..|xs| - 1];
      var last := xs[|xs| - 1];
      var d := FirstOccurrences(prefix);
      assert xs == prefix + [last];
      if last in d then d else d + [last]
  }

  /** Appending an element keeps it only if it is new. */
  lemma FirstOccurrencesSnoc(xs: seq<string>, x: string)
    ensures FirstOccurrences(xs + [x])
            == if x in FirstOccurrences(xs) then FirstOccurrences(xs) else FirstOccurrences(xs) + [x]
  {
    assert (xs + [x])[..|xs|] == xs;
  }

  /** The index of the first occurrence of `x` in `xs`. */
  function FirstIndex(xs: seq<string>, x: string): (k: nat)
    requires x in xs
    ensures k < |xs| && xs[k] == x
    ensures forall j :: 0 <= j < k ==> xs[j] != x
  {
    if xs[0] == x then 0 else 1 + FirstIndex(xs[1..], x)
  }

  /** Extending a sequence does not move the first occurrence of an element it
      already held. */
  lemma FirstIndexExtend(xs: seq<string>, y: string, x: string)
    requires x in xs
    ensures FirstIndex(xs + [y], x) == FirstIndex(xs, x)
  {
    var k := FirstIndex(xs, x);
    assert (xs + [y])[k] == x;
  }

  /** The elements of `d`, all of which occur in `xs`, appear in `d` in the
      order of their first occurrences in `xs`. */
  predicate InFirstOccurrenceOrder(xs: seq<string>, d: seq<string>)
    requires forall x :: x in d ==> x in xs
  {
    forall i, j :: 0 <= i < j < |d| ==> FirstIndex(xs, d[i]) < FirstIndex(xs, d[j])
  }

  /** Extending `xs` keeps the order of elements it already held. */
  lemma OrderExtend(xs: seq<string>, y: string, d: seq<string>)
    requires forall x :: x in d ==> x in xs
    requires InFirstOccurrenceOrder(xs, d)
    ensures InFirstOccurrenceOrder(xs + [y], d)
  {
    forall x | x in d ensures FirstIndex(xs + [y], x) == FirstIndex(xs, x) {
      FirstIndexExtend(xs, y, x);
    }
  }

  /** A new element comes after everything seen so far. */
  lemma OrderSnoc(xs: seq<string>, y: string, d: seq<string>)
    requires forall x :: x in d ==> x in xs
    requires InFirstOccurrenceOrder(xs, d)
    requires y !in xs
    ensures InFirstOccurrenceOrder(xs + [y], d + [y])
  {
    OrderExtend(xs, y, d);
    assert FirstIndex(xs + [y], y) == |xs|;
    forall x | x in d ensures FirstIndex(xs + [y], x) < |xs| {
      FirstIndexExtend(xs, y, x);
    }
  }

  /** The deduplicated sequence keeps the order of first occurrences. */
  lemma {:induction false} FirstOccurrencesOrdered(xs: seq<string>)
    ensures InFirstOccurrenceOrder(xs, FirstOccurrences(xs))
  {
    if xs != [] {
      var prefix := xs[..|xs| - 1];
      var last := xs[|xs| - 1];
      assert xs == prefix + [last];
      FirstOccurrencesOrdered(prefix);
      if last in FirstOccurrences(prefix) {
        OrderExtend(prefix, last, FirstOccurrences(prefix));
      } else {
        OrderSnoc(prefix, last, FirstOccurrences(prefix));
      }
    }
  }

  /** The records `find_citations` returns for the match values `values` of a
      recognizer, built as its loop builds them: a trimmed value not yet among
      the texts is appended with the type and its status. */
  function Citations(values: seq<string>, citationType: CitationType, lastHexDigit: string -> HexDigit)
    : (r: seq<CitationMatch>)
    ensures |r| <= |values|
  {
    if values == [] then []
    else
      var r := Citations(values[..|values| - 1], citationType, lastHexDigit);
      var value := Strip(values[|values| - 1]);
      if value in Texts(r) then r
      else r + [CitationMatch(citationType, value, MockValidationStatus(lastHexDigit, value))]
  }

  /** The texts of the records are the trimmed values, each kept at its first
      occurrence only. */
  lemma {:induction false} CitationsTexts(values: seq<string>, citationType: CitationType, lastHexDigit: string -> HexDigit)
    ensures Texts(Citations(values, citationType, lastHexDigit)) == FirstOccurrences(Trimmed(values))
  {
    if values != [] {
      var prefix := values[..|values| - 1];
      var value := Strip(values[|values| - 1]);
      var r := Citations(prefix, citationType, lastHexDigit);
      CitationsTexts(prefix, citationType, lastHexDigit);
      assert Trimmed(values) == Trimmed(prefix) + [value];
      FirstOccurrencesSnoc(Trimmed(prefix), value);
      if value !in Texts(r) {
        var m := CitationMatch(citationType, value, MockValidationStatus(lastHexDigit, value));
        assert (r + [m])[..|r|] == r;
      }
    }
  }

  /** Every record carries the type `citationType` and the status of its own text. */
  predicate Tagged(ms: seq<CitationMatch>, citationType: CitationType, lastHexDigit: string -> HexDigit) {
    forall i :: 0 <= i < |ms| ==>
      ms[i].citationType == citationType && ms[i].status == MockValidationStatus(lastHexDigit, ms[i].text)
  }

  /** Every record carries the requested type and the status of its own text. */
  lemma {:induction false} CitationsTagged(values: seq<string>, citationType: CitationType, lastHexDigit: string -> HexDigit)
    ensures Tagged(Citations(values, citationType, lastHexDigit), citationType, lastHexDigit)
  {
    if values != [] {
      var prefix := values[..|values| - 1];
      var value := Strip(values[|values| - 1]);
      var r := Citations(prefix, citationType, lastHexDigit);
      CitationsTagged(prefix, citationType, lastHexDigit);
      if value !in Texts(r) {
        var m := CitationMatch(citationType, value, MockValidationStatus(lastHexDigit, value));
        assert Citations(values, citationType, lastHexDigit) == r + [m];
      }
    }
  }

  /** Adding a record adds its text at the end. */
  lemma TextsSnoc(ms: seq<CitationMatch>, m: CitationMatch)
    ensures Texts(ms + [m]) == Texts(ms) + [m.text]
  {
    assert (ms + [m])[..|ms|] == ms;
  }

  /** One more match value extends the records as one turn of the loop does. */
  lemma CitationsSnoc(values: seq<string>, i: nat, citationType: CitationType, lastHexDigit: string -> HexDigit)
    requires i < |values|
    ensures var r := Citations(values[..i], citationType, lastHexDigit);
            var value := Strip(values[i]);
            Citations(values[..i + 1], citationType, lastHexDigit)
            == if value in Texts(r) then r else r + [CitationMatch(citationType, value, MockValidationStatus(lastHexDigit, value))]
  {
    assert values[..i + 1][..i] == values[..i];
  }

  /** One turn of the loop in `find_citations`: the `seen` set mirrors the
      texts recorded so far, and the next value is recorded when it is new. */
  lemma FindCitationsStep(values: seq<string>, i: nat, citationType: CitationType, lastHexDigit: string -> HexDigit,
                          matches: seq<CitationMatch>, seen: set<string>)
    requires i < |values|
    requires matches == Citations(values[..i], citationType, lastHexDigit)
    requires forall x :: x in seen <==> x in Texts(matches)
    ensures Strip(values[i]) in seen ==> matches == Citations(values[..i + 1], citationType, lastHexDigit)
    ensures var value := Strip(values[i]);
            var m := CitationMatch(citationType, value, MockValidationStatus(lastHexDigit, value));
            value !in seen ==>
              && matches + [m] == Citations(values[..i + 1], citationType, lastHexDigit)
              && forall x :: x in seen + {value} <==> x in Texts(matches + [m])
  {
    CitationsSnoc(values, i, citationType, lastHexDigit);
    var value := Strip(values[i]);
    var m := CitationMatch(citationType, value, MockValidationStatus(lastHexDigit, value));
    TextsSnoc(matches, m);
  }

  /** `find_citations(text, citation_type, pattern)`, with `values` the
      `group(1)` values `pattern.finditer(text)` yields: the distinct trimmed
      values in first-occurrence order, each tagged with the type and the
      status of its own text. */
  method FindCitations(values: seq<string>, citationType: CitationType, lastHexDigit: string -> HexDigit)
    returns (matches: seq<CitationMatch>)
    ensures matches == Citations(values, citationType, lastHexDigit)
    ensures Texts(matches) == FirstOccurrences(Trimmed(values))
    ensures Tagged(matches, citationType, lastHexDigit)
  {
    matches := [];
    var seen: set<string> := {};
    var i := 0;
    while i < |values|
      invariant i <= |values|
      invariant matches == Citations(values[..i], citationType, lastHexDigit)
      invariant forall x :: x in seen <==> x in Texts(matches)
    {
      var value := Strip(values[i]);
      FindCitationsStep(values, i, citationType, lastHexDigit, matches, seen);
      if value !in seen {
        var m := CitationMatch(citationType, value, MockValidationStatus(lastHexDigit, value));
        seen := seen + {value};
        matches := matches + [m];
      }
      i := i + 1;
    }
    assert values[..i] == values;
    CitationsTexts(values, citationType, lastHexDigit);
    CitationsTagged(values, citationType, lastHexDigit);
  }
}
