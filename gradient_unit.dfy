/**
 * Gradients are extracted as single units: once the gradient pass has
 * replaced a gradient by the marker, the colours written inside it are gone
 * from the working copy, so the functional, hex and named passes cannot list
 * them a second time.
 */
module GradientUnit {
  import opened Text
  import opened Validator
  import opened Recognizers
  import opened Extractor
  import ExecSkip

  // ------------------------------------------------ the marker hides nothing

  /** No functional notation is found in a text without `(`. */
  lemma {:induction false} NoCallWithoutParen(k: FnKind, s: string, from: nat)
    requires '(' !in s
    ensures FnMatches(k, s, from) == []
  {
    if FindFn(k, s, from).Some? {
      assert false;
    }
  }

  /** The functional passes list nothing and leave a text without `(` alone. */
  lemma {:induction false} FnStageWithoutParen(kinds: seq<FnKind>, colors: seq<string>, s: string, accepts: string -> bool)
    requires '(' !in s
    ensures FnStage(kinds, colors, s, accepts) == ([], s)
    decreases |kinds|
  {
    if kinds != [] {
      NoCallWithoutParen(kinds[0], s, 0);
      assert Admit(accepts, colors, []) == [];
      assert ReplaceEach(s, []) == s;
      assert colors + [] == colors;
      FnStageWithoutParen(kinds[1..], colors, s, accepts);
      assert FnStage(kinds, colors, s, accepts)
        == ([] + FnStage(kinds[1..], colors, s, accepts).0, FnStage(kinds[1..], colors, s, accepts).1);
      assert [] + FnStage(kinds[1..], colors, s, accepts).0 == [];
    }
  }

  /** No hex literal is found in a text without `#`. */
  lemma {:induction false} NoHexWithoutHash(n: nat, s: string, from: nat)
    requires '#' !in s
    ensures HexMatches(n, s, from) == []
    decreases |s| - from
  {
    if from < |s| {
      assert !HexAt(n, s, from);
      NoHexWithoutHash(n, s, from + 1);
    }
  }

  /** The hex passes list nothing and leave a text without `#` alone. */
  lemma {:induction false} HexStageWithoutHash(lengths: seq<nat>, colors: seq<string>, s: string, accepts: string -> bool)
    requires '#' !in s
    ensures HexStage(lengths, colors, s, accepts) == ([], s)
    decreases |lengths|
  {
    if lengths != [] {
      NoHexWithoutHash(lengths[0], s, 0);
      assert Admit(accepts, colors, []) == [];
      assert ReplaceEach(s, []) == s;
      assert colors + [] == colors;
      HexStageWithoutHash(lengths[1..], colors, s, accepts);
      assert HexStage(lengths, colors, s, accepts)
        == ([] + HexStage(lengths[1..], colors, s, accepts).0, HexStage(lengths[1..], colors, s, accepts).1);
      assert [] + HexStage(lengths[1..], colors, s, accepts).0 == [];
    }
  }

  /** The name the marker holds, as the word split lower-cases it. */
  const MarkerName: string := "__extracted__"

  /** Lower-casing character by character. */
  lemma {:induction false} LowerByChars(m: string, t: string)
    requires |m| == |t| && forall i :: 0 <= i < |m| ==> LowerChar(m[i]) == t[i]
    ensures ToLower(m) == t
  {
    var r := ToLower(m);
    assert forall i :: 0 <= i < |m| ==> r[i] == t[i];
  }

  lemma {:induction false} LowerMarker()
    ensures ToLower(Marker) == " " + MarkerName + " "
  {
    var t := " " + MarkerName + " ";
    forall i | 0 <= i < |Marker| ensures LowerChar(Marker[i]) == t[i] {
    }
    LowerByChars(Marker, t);
  }

  /** Underscores and lower-case letters never delimit a word. */
  lemma {:induction false} MarkerNameUndelimited()
    ensures forall k :: 0 <= k < |MarkerName| ==> !IsWordDelimiter(MarkerName[k]) && !IsSpace(MarkerName[k])
  {
  }

  /** A word between two spaces splits into itself and an empty field on
      either side. */
  lemma {:induction false} SplitSpaced(w: string)
    requires w != [] && forall k :: 0 <= k < |w| ==> !IsWordDelimiter(w[k])
    ensures Split(" " + w + " ", IsWordDelimiter) == ["", w, ""]
  {
    var t := " " + w + " ";
    assert IsWordDelimiter(t[0]) && !IsWordDelimiter(t[1]);
    assert FirstWhere(t, IsWordDelimiter, 0) == 0;
    assert RunEnd(t, IsWordDelimiter, 0) == 1;
    var u := t[1..];
    assert u == w + " ";
    assert forall k :: 0 <= k < |w| ==> !IsWordDelimiter(u[k]);
    assert IsWordDelimiter(u[|w|]);
    assert FirstWhere(u, IsWordDelimiter, 0) == |w|;
    assert RunEnd(u, IsWordDelimiter, |w|) == |w| + 1;
    assert u[..|w|] == w && u[|w| + 1..] == [];
    assert Split(u[|w| + 1..], IsWordDelimiter) == [""];
    assert Split(u, IsWordDelimiter) == [w] + [""];
  }

  /** A text that lower-cases to a word between two spaces has that word
      and an empty field on either side as its words. */
  lemma {:induction false} SpacedWords(m: string, w: string)
    requires ToLower(m) == " " + w + " "
    requires w != [] && forall k :: 0 <= k < |w| ==> !IsWordDelimiter(w[k])
    ensures Words(m) == ["", w, ""]
  {
    SplitSpaced(w);
  }

  /** The named pass lists nothing from words none of which is a candidate. */
  lemma {:induction false} AdmitNamedNone(named: set<string>, colors: seq<string>, words: seq<string>)
    requires forall i :: 0 <= i < |words| ==> !NamedCandidate(named, Trim(words[i]))
    ensures AdmitNamed(named, colors, words) == []
  {
    if words != [] {
      AdmitNamedNone(named, colors, words[..|words| - 1]);
    }
  }

  /** An empty field and a word that is no keyword colour name nothing. */
  lemma {:induction false} FieldsNameNothing(named: set<string>, colors: seq<string>, w: string)
    requires w !in named && forall k :: 0 <= k < |w| ==> !IsSpace(w[k])
    ensures AdmitNamed(named, colors, ["", w, ""]) == []
  {
    TrimWithoutSpaces(w);
    var ws := ["", w, ""];
    forall i | 0 <= i < |ws| ensures !NamedCandidate(named, Trim(ws[i])) {
      if i != 1 {
        assert ws[i] == [] && AllSpaces(ws[i]);
      }
    }
    AdmitNamedNone(named, colors, ws);
  }

  /** The named pass finds no keyword colour in the marker. */
  lemma {:induction false} MarkerNamesNothing(named: set<string>, colors: seq<string>)
    requires MarkerName !in named
    ensures AdmitNamed(named, colors, Words(Marker)) == []
  {
    LowerMarker();
    MarkerNameUndelimited();
    SpacedWords(Marker, MarkerName);
    FieldsNameNothing(named, colors, MarkerName);
  }

  // ------------------------------------------- a gradient is listed only once

  /** A text that a gradient match spans from end to end is its own single
      gradient match. */
  lemma {:induction false} WholeGradientMatch(g: string)
    requires GradientAt(g, 0) == Some(|g|)
    ensures GradientMatches(g, 0) == [g]
  {
    assert g[0..|g|] == g;
    assert GradientMatches(g, |g|) == [];
  }

  /** Replacing the whole text leaves only the marker. */
  lemma {:induction false} WholeReplaced(g: string)
    requires g != []
    ensures ReplaceEach(g, [g]) == Marker
  {
    assert [g][..0] == [];
    assert OccursAt(g, g, 0);
    assert IndexOf(g, g, 0) == Some(0);
    assert ReplaceEach(g, [g]) == g[..0] + Marker + g[|g|..];
  }

  /** The extraction of a text whose gradient pass takes all of it and whose
      later passes find nothing in what is left. */
  lemma {:induction false} OnlyGradient(g: string, accepts: string -> bool, named: set<string>)
    requires Accepted(accepts, GradientMatches(g, 0)) == [g]
    requires var m := ReplaceEach(g, [g]);
      && FnStage(FunctionOrder, [g], m, accepts) == ([], m)
      && HexStage(HexLengths, [g] + [], m, accepts) == ([], m)
      && AdmitNamed(named, [g] + [] + [], Words(m)) == []
    ensures SmartExtract(g, accepts, named) == [g]
  {
    var e := Extract(g, accepts, named);
    assert e == Extraction([g], [], [], []);
    SingleEntry(e, g);
  }

  lemma {:induction false} SingleEntry(e: Extraction, g: string)
    requires e == Extraction([g], [], [], [])
    ensures e.All() == [g]
  {
    assert [g] + [] + [] + [] == [g];
  }

  /** One accepted text is accepted alone. */
  lemma {:induction false} AcceptedOne(accepts: string -> bool, g: string)
    requires IsValidColor(accepts, g)
    ensures Accepted(accepts, [g]) == [g]
  {
    assert [g][..0] == [];
  }

  /** What is left of a text replaced as a whole holds no `(`, no `#` and no
      keyword colour. */
  lemma {:induction false} WholeReplacedLeavesNothing(g: string, named: set<string>, colors: seq<string>)
    requires g != [] && MarkerName !in named
    ensures var m := ReplaceEach(g, [g]);
      '(' !in m && '#' !in m && AdmitNamed(named, colors, Words(m)) == []
  {
    WholeReplaced(g);
    MarkerHasNoOpener();
    MarkerNamesNothing(named, colors);
  }

  /** When the text is one gradient the browser accepts, the result is that
      gradient alone: no colour written inside it is listed again by a later
      pass. */
  lemma {:induction false} GradientListedOnce(g: string, accepts: string -> bool, named: set<string>)
    requires GradientAt(g, 0) == Some(|g|) && IsValidColor(accepts, g)
    requires MarkerName !in named
    ensures SmartExtract(g, accepts, named) == [g]
  {
    WholeGradientMatch(g);
    AcceptedOne(accepts, g);
    var m := ReplaceEach(g, [g]);
    WholeReplacedLeavesNothing(g, named, [g] + [] + []);
    FnStageWithoutParen(FunctionOrder, [g], m, accepts);
    HexStageWithoutHash(HexLengths, [g] + [], m, accepts);
    OnlyGradient(g, accepts, named);
  }

  lemma {:induction false} MarkerHasNoOpener()
    ensures '(' !in Marker && '#' !in Marker
  {
  }

  // ------------------------------------------------------------ an example

  /** A gradient with two hex stops. */
  const Example: string := "linear-gradient(to right, #fff, #000)"

  /** From `i` to the closing parenthesis at `j`, with no parenthesis in
      between, the gradient's group closes just after `j`. */
  lemma {:induction false} GroupClosesAt(s: string, i: nat, j: nat)
    requires i <= j < |s| && s[j] == ')'
    requires forall k :: i <= k < j ==> s[k] != '(' && s[k] != ')'
    ensures GroupEnd(s, i, 1) == Some(j + 1)
    decreases j - i
  {
    if i < j {
      GroupClosesAt(s, i + 1, j);
    }
  }

  lemma {:induction false} ExampleGradient()
    ensures GradientAt(Example, 0) == Some(|Example|)
  {
    assert |Example| == 37;
    assert LiteralAtCI(Example, "linear-gradient", 0);
    assert GradientNameAt(Example, 0, 0) == Some(0);
    assert Example[15] == '(' && !IsSpace(Example[15]);
    assert SkipSpaces(Example, 15) == 15;
    GroupClosesAt(Example, 16, 36);
  }

  /** Example: `linear-gradient(to right, #fff, #000)` gives
      the gradient alone, and neither `#fff` nor `#000`. */
  lemma {:induction false} ExampleListedOnce(accepts: string -> bool, named: set<string>)
    requires accepts(Example) && MarkerName !in named
    ensures SmartExtract(Example, accepts, named) == [Example]
    ensures "#fff" !in SmartExtract(Example, accepts, named)
    ensures "#000" !in SmartExtract(Example, accepts, named)
  {
    ExampleGradient();
    ExampleValid(accepts);
    GradientListedOnce(Example, accepts, named);
    var r := SmartExtract(Example, accepts, named);
    NotTheOnlyEntry(r, Example, "#fff");
    NotTheOnlyEntry(r, Example, "#000");
  }

  lemma {:induction false} ExampleValid(accepts: string -> bool)
    requires accepts(Example)
    ensures IsValidColor(accepts, Example)
  {
    assert |Example| > 7 && !IsSpace(Example[0]) && !IsSpace(Example[36]) && !Validator.IsNumericChar(Example[0]);
    ExecSkip.LongTextValid(accepts, Example);
  }

  lemma {:induction false} NotTheOnlyEntry(r: seq<string>, g: string, w: string)
    requires r == [g] && |w| != |g|
    ensures w !in r
  {
  }
}
