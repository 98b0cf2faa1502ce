/** The text normaliser `normalize_extracted_text`: a character translation
    followed by collapsing whitespace runs and stripping the ends. */
module Normalizer {
  import opened Text

  /** The five space variants the translation table turns into an ASCII space:
      no-break, figure, thin, hair and narrow no-break space. */
  predicate BecomesSpace(c: char) {
    c == '\U{00A0}' || c == '\U{2007}' || c == '\U{2009}' || c == '\U{200A}' || c == '\U{202F}'
  }

  /** The two zero-width characters the table deletes: word joiner and
      byte-order mark. */
  predicate Vanishes(c: char) {
    c == '\U{2060}' || c == '\U{FEFF}'
  }

  /** Any of the seven characters the translation table mentions. */
  predicate Replaced(c: char) {
    BecomesSpace(c) || Vanishes(c)
  }

  /** No character of `s` is one the translation table mentions. */
  predicate NoReplaced(s: string) {
    forall i :: 0 <= i < |s| ==> !Replaced(s[i])
  }

  lemma NoReplacedAppend(a: string, b: string)
    requires NoReplaced(a) && NoReplaced(b)
    ensures NoReplaced(a + b)
  {
    assert forall i :: 0 <= i < |a + b| ==> (a + b)[i] == if i < |a| then a[i] else b[i - |a|];
  }

  /** No character of `s` is one the translation table deletes. */
  predicate NoVanishes(s: string) {
    forall i :: 0 <= i < |s| ==> !Vanishes(s[i])
  }

  lemma NoVanishesAppend(a: string, b: string)
    requires NoVanishes(a) && NoVanishes(b)
    ensures NoVanishes(a + b)
  {
    assert forall i :: 0 <= i < |a + b| ==> (a + b)[i] == if i < |a| then a[i] else b[i - |a|];
  }

  /** Every whitespace character of `s` is an ASCII space. */
  predicate OnlyAsciiSpace(s: string) {
    forall i :: 0 <= i < |s| && IsSpace(s[i]) ==> s[i] == ' '
  }

  /** No two neighbouring characters of `s` are both whitespace. */
  predicate SingleSpaced(s: string) {
    forall i :: 0 <= i < |s| - 1 ==> !IsSpace(s[i]) || !IsSpace(s[i + 1])
  }

  /** The shape every normalised buffer has. */
  predicate Normal(s: string) {
    NoReplaced(s) && OnlyAsciiSpace(s) && SingleSpaced(s) && NoEdgeSpace(s)
  }

  /** The image of one character under `str.maketrans(replacements)`. */
  function TranslateChar(c: char): (r: string)
    ensures BecomesSpace(c) ==> r == " "
    ensures Vanishes(c) ==> r == ""
    ensures !Replaced(c) ==> r == [c]
  {
    if BecomesSpace(c) then " " else if Vanishes(c) then "" else [c]
  }

  /** `text.translate(...)`: every character is replaced by its image. */
  function Translate(s: string): (r: string)
    ensures NoReplaced(r)
    ensures |r| <= |s|
    ensures forall i :: 0 <= i < |r| ==> r[i] == ' ' || r[i] in s
  {
    if s == [] then [] else TranslateChar(s[0]) + Translate(s[1..])
  }

  /** The translation works character by character. */
  lemma {:induction false} TranslateAppend(a: string, b: string)
    ensures Translate(a + b) == Translate(a) + Translate(b)
  {
    if a == [] {
      assert a + b == b;
    } else {
      assert (a + b)[0] == a[0];
      assert (a + b)[1..] == a[1..] + b;
      TranslateAppend(a[1..], b);
    }
  }

  /** The translation leaves a string alone exactly when it holds none of the
      seven characters. */
  lemma {:induction false} TranslateFixpoint(s: string)
    ensures Translate(s) == s <==> NoReplaced(s)
  {
    if s != [] {
      TranslateFixpoint(s[1..]);
      if NoReplaced(s) {
        assert NoReplaced(s[1..]);
      }
    }
  }

  /** `re.sub(r"\s+", " ", s)`: each maximal run of whitespace becomes one
      ASCII space, everything else is kept. */
  function Collapse(s: string): (r: string)
    ensures r == [] <==> s == []
    decreases |s|
  {
    if s == [] then []
    else if IsSpace(s[0]) then " " + Collapse(s[SkipForward(s, 1)..])
    else [s[0]] + Collapse(s[1..])
  }

  /** The collapse starts with whitespace exactly when its input does: a
      leading run becomes a leading space. */
  lemma CollapseFirst(s: string)
    requires s != []
    ensures IsSpace(Collapse(s)[0]) <==> IsSpace(s[0])
  {
    IsSpaceCodes(' ');
  }

  /** After collapsing, whitespace is a lone ASCII space. */
  lemma {:induction false} CollapseShape(s: string)
    ensures OnlyAsciiSpace(Collapse(s)) && SingleSpaced(Collapse(s))
    decreases |s|
  {
    if s == [] {
    } else if IsSpace(s[0]) {
      var j := SkipForward(s, 1);
      var rest := Collapse(s[j..]);
      CollapseShape(s[j..]);
      if rest != [] {
        CollapseFirst(s[j..]);
      }
      assert Collapse(s) == " " + rest;
    } else {
      var rest := Collapse(s[1..]);
      CollapseShape(s[1..]);
      assert Collapse(s) == [s[0]] + rest;
    }
  }

  /** Collapsing introduces no character but the ASCII space, so it adds none
      of the seven translated characters. */
  lemma {:induction false} CollapseKeepsNoReplaced(s: string)
    requires NoReplaced(s)
    ensures NoReplaced(Collapse(s))
    decreases |s|
  {
    if s == [] {
    } else if IsSpace(s[0]) {
      var j := SkipForward(s, 1);
      assert NoReplaced(s[j..]);
      CollapseKeepsNoReplaced(s[j..]);
    } else {
      assert NoReplaced(s[1..]);
      CollapseKeepsNoReplaced(s[1..]);
    }
  }

  /** A leading whitespace run, however it is delimited, becomes one space. */
  lemma CollapseSpaceStep(s: string, j: nat)
    requires 1 <= j <= |s| && IsSpace(s[0]) && SpaceBetween(s, 1, j)
    requires j == |s| || !IsSpace(s[j])
    ensures Collapse(s) == " " + Collapse(s[j..])
  {
    SkipForwardAt(s, 1, j);
  }

  /** A leading non-whitespace character is kept. */
  lemma CollapseWordStep(s: string)
    requires s != [] && !IsSpace(s[0])
    ensures Collapse(s) == [s[0]] + Collapse(s[1..])
  {
  }

  /** The collapse does not look past a non-whitespace character: what
      follows it is collapsed on its own. */
  lemma {:induction false} CollapseSplit(a: string, t: string)
    requires a != [] && !IsSpace(a[|a| - 1])
    ensures Collapse(a + t) == Collapse(a) + Collapse(t)
    decreases |a|, 1
  {
    if IsSpace(a[0]) {
      CollapseSplitSpace(a, t);
    } else {
      CollapseSplitWord(a, t);
    }
  }

  /** `CollapseSplit` when `a` starts with a whitespace run. */
  lemma {:induction false} CollapseSplitSpace(a: string, t: string)
    requires a != [] && IsSpace(a[0]) && !IsSpace(a[|a| - 1])
    ensures Collapse(a + t) == Collapse(a) + Collapse(t)
    decreases |a|, 0
  {
    var j := SkipForward(a, 1);
    assert j < |a|;
    CollapseSpaceStep(a, j);
    CollapseLeadingRun(a, t, j);
    CollapseSplit(a[j..], t);
  }

  /** A leading whitespace run that ends inside `a` collapses the same way
      whatever follows `a`. */
  lemma CollapseLeadingRun(a: string, t: string, j: nat)
    requires 1 <= j < |a| && IsSpace(a[0]) && SpaceBetween(a, 1, j) && !IsSpace(a[j])
    ensures Collapse(a + t) == " " + Collapse(a[j..] + t)
  {
    var s := a + t;
    assert IsSpace(s[0]) && SpaceBetween(s, 1, j) && !IsSpace(s[j]) by {
      assert forall m :: 0 <= m <= j ==> s[m] == a[m];
    }
    CollapseSpaceStep(s, j);
    assert s[j..] == a[j..] + t;
  }

  /** `CollapseSplit` when `a` starts with a non-whitespace character. */
  lemma {:induction false} CollapseSplitWord(a: string, t: string)
    requires a != [] && !IsSpace(a[0]) && !IsSpace(a[|a| - 1])
    ensures Collapse(a + t) == Collapse(a) + Collapse(t)
    decreases |a|, 0
  {
    var s := a + t;
    assert s[0] == a[0];
    CollapseWordStep(s);
    CollapseWordStep(a);
    assert s[1..] == a[1..] + t;
    if |a| == 1 {
      assert a[1..] == [];
    } else {
      CollapseSplit(a[1..], t);
    }
  }

  /** A whole whitespace run between two non-whitespace characters becomes
      exactly one ASCII space: the text on either side stays apart. */
  lemma CollapseSeparator(a: string, w: string, b: string)
    requires a != [] && !IsSpace(a[|a| - 1])
    requires w != [] && SpaceBetween(w, 0, |w|)
    requires b == [] || !IsSpace(b[0])
    ensures Collapse(a + w + b) == Collapse(a) + " " + Collapse(b)
  {
    assert a + w + b == a + (w + b);
    CollapseSplit(a, w + b);
    CollapseLeadingSpaces(w, b);
  }

  /** A whole leading whitespace run becomes one ASCII space. */
  lemma CollapseLeadingSpaces(w: string, b: string)
    requires w != [] && SpaceBetween(w, 0, |w|)
    requires b == [] || !IsSpace(b[0])
    ensures Collapse(w + b) == " " + Collapse(b)
  {
    var s := w + b;
    assert IsSpace(s[0]) && SpaceBetween(s, 1, |w|) by {
      assert forall m :: 0 <= m < |w| ==> s[m] == w[m];
    }
    assert |w| < |s| ==> s[|w|] == b[0];
    CollapseSpaceStep(s, |w|);
    assert s[|w|..] == b;
  }

  /** The translation keeps a whitespace run a whitespace run of the same
      length: the space variants become ASCII spaces and the deleted
      characters are not whitespace. */
  lemma {:induction false} TranslateSpaces(w: string)
    requires SpaceBetween(w, 0, |w|)
    ensures |Translate(w)| == |w| && SpaceBetween(Translate(w), 0, |w|)
  {
    if w != [] {
      IsSpaceCodes(w[0]);
      IsSpaceCodes(' ');
      assert SpaceBetween(w[1..], 0, |w| - 1) by {
        assert forall m :: 0 <= m < |w| - 1 ==> w[1..][m] == w[m + 1];
      }
      TranslateSpaces(w[1..]);
      assert Translate(w) == TranslateChar(w[0]) + Translate(w[1..]);
    }
  }

  /** Without the two deleted characters, the translation keeps the
      non-whitespace content: the five space variants it rewrites are
      whitespace already. */
  lemma {:induction false} TranslateKeepsNonSpace(s: string)
    requires NoVanishes(s)
    ensures NonSpace(Translate(s)) == NonSpace(s)
  {
    if s != [] {
      assert NoVanishes(s[1..]) by {
        assert forall i :: 0 <= i < |s| - 1 ==> s[1..][i] == s[i + 1];
      }
      TranslateKeepsNonSpace(s[1..]);
      NonSpaceAppend(TranslateChar(s[0]), Translate(s[1..]));
      if BecomesSpace(s[0]) {
        IsSpaceCodes(s[0]);
        IsSpaceCodes(' ');
        assert NonSpace(" ") == [] by {
          assert " "[1..] == [];
        }
      } else {
        assert NonSpace([s[0]]) == (if IsSpace(s[0]) then [] else [s[0]]) by {
          assert [s[0]][1..] == [];
        }
      }
    }
  }

  /** Stripping keeps the shape the collapse gave. */
  lemma StripKeepsShape(t: string)
    requires NoReplaced(t) && OnlyAsciiSpace(t) && SingleSpaced(t)
    ensures Normal(Strip(t))
  {
    var lo := StripStart(t);
    StripIsInfix(t);
    StripNoEdgeSpace(t);
    assert forall i :: 0 <= i < |Strip(t)| ==> Strip(t)[i] == t[lo + i];
  }

  /** `normalize_extracted_text`: translate, collapse, strip. */
  function Normalize(s: string): (r: string)
    ensures Normal(r)
  {
    var t := Collapse(Translate(s));
    CollapseShape(Translate(s));
    CollapseKeepsNoReplaced(Translate(s));
    StripKeepsShape(t);
    Strip(t)
  }

  /** A string whose whitespace is already lone ASCII spaces is left alone by
      the collapse. */
  lemma {:induction false} CollapseFixpoint(s: string)
    requires OnlyAsciiSpace(s) && SingleSpaced(s)
    ensures Collapse(s) == s
    decreases |s|
  {
    if s != [] {
      if IsSpace(s[0]) {
        assert SkipForward(s, 1) == 1;
      }
      assert OnlyAsciiSpace(s[1..]) && SingleSpaced(s[1..]);
      CollapseFixpoint(s[1..]);
    }
  }

  /** Collapsing changes whitespace only. */
  lemma {:induction false} CollapseKeepsContent(s: string)
    ensures NonSpace(Collapse(s)) == NonSpace(s)
    decreases |s|
  {
    if s != [] {
      if IsSpace(s[0]) {
        var j := SkipForward(s, 1);
        CollapseKeepsContent(s[j..]);
        assert s == s[..j] + s[j..];
        NonSpaceAppend(s[..j], s[j..]);
        NonSpaceOfSpaces(s[..j]);
        IsSpaceCodes(' ');
        assert NonSpace(" " + Collapse(s[j..])) == NonSpace(Collapse(s[j..]));
      } else {
        CollapseKeepsContent(s[1..]);
        assert NonSpace([s[0]] + Collapse(s[1..])) == [s[0]] + NonSpace(Collapse(s[1..]));
      }
    }
  }

  /** The normaliser leaves a string alone exactly when it already has the
      normal shape. */
  lemma NormalizeFixpoint(s: string)
    ensures Normalize(s) == s <==> Normal(s)
  {
    if Normal(s) {
      TranslateFixpoint(s);
      CollapseFixpoint(s);
      StripFixpoint(s);
    }
  }

  /** Normalising twice gives the same buffer as normalising once. */
  lemma NormalizeIdempotent(s: string)
    ensures Normalize(Normalize(s)) == Normalize(s)
  {
    NormalizeFixpoint(Normalize(s));
  }

  /** The normaliser changes only whitespace and the seven translated
      characters: the rest of the text survives, in order. */
  lemma NormalizeKeepsContent(s: string)
    ensures NonSpace(Normalize(s)) == NonSpace(Translate(s))
  {
    CollapseKeepsContent(Translate(s));
    StripKeepsContent(Collapse(Translate(s)));
  }

  /** A word joiner or byte-order mark is deleted, not turned into a
      separator: the buffer is as if the character were never there. */
  lemma NormalizeDropsZeroWidth(a: string, c: char, b: string)
    requires Vanishes(c)
    ensures Normalize(a + [c] + b) == Normalize(a + b)
  {
    assert Translate([c]) == [] by {
      assert [c][1..] == [];
    }
    assert Translate(a + [c] + b) == Translate(a + b) by {
      TranslateAppend(a + [c], b);
      TranslateAppend(a, [c]);
      TranslateAppend(a, b);
    }
  }

  /** A space variant acts exactly as an ASCII space would. */
  lemma NormalizeSpacesVariant(a: string, c: char, b: string)
    requires BecomesSpace(c)
    ensures Normalize(a + [c] + b) == Normalize(a + " " + b)
  {
    assert Translate([c]) == " " == Translate(" ") by {
      assert [c][1..] == [];
      assert " "[1..] == [];
    }
    assert Translate(a + [c] + b) == Translate(a + " " + b) by {
      TranslateAppend(a + [c], b);
      TranslateAppend(a, [c]);
      TranslateAppend(a + " ", b);
      TranslateAppend(a, " ");
    }
  }

  /** Two normalised fragments with any whitespace between them, a line break
      or a run of spaces, normalise to the two fragments joined by one ASCII
      space: a split citation comes out in one piece, its words still apart. */
  lemma NormalizeSeparates(a: string, w: string, b: string)
    requires Normal(a) && a != []
    requires Normal(b) && b != []
    requires w != [] && SpaceBetween(w, 0, |w|)
    ensures Normalize(a + w + b) == a + " " + b
  {
    var tw := Translate(w);
    assert Translate(a + w + b) == a + tw + b by {
      TranslateAppend(a + w, b);
      TranslateAppend(a, w);
      TranslateFixpoint(a);
      TranslateFixpoint(b);
    }
    TranslateSpaces(w);
    CollapseSeparator(a, tw, b);
    CollapseFixpoint(a);
    CollapseFixpoint(b);
    var r := a + " " + b;
    assert r[0] == a[0] && r[|r| - 1] == b[|b| - 1];
    StripFixpoint(r);
  }
}
