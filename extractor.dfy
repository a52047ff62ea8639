/**
 * `smartExtractColors`: the four recognition passes over a working copy of
 * the value text, and `extractColorsFromLine`, which splits a declaration
 * into a name and a value region and keeps the validated candidates with
 * their classification.
 *
 * Every accepted gradient, functional notation and hex literal is replaced in
 * the working copy by the marker ` __EXTRACTED__ `, so that a later pass does
 * not find it (or the colours inside it) again.
 */
module Extractor {
  import opened Text
  import opened Validator
  import opened Classifier
  import opened Recognizers

  /** The text that stands in for an accepted match in the working copy. */
  const Marker: string := " __EXTRACTED__ "

  /** The pass that produced an entry of the result list. */
  datatype Pass = GradientPass | FunctionPass | HexPass | NamedPass

  function Rank(p: Pass): nat
  {
    match p
    case GradientPass => 0
    case FunctionPass => 1
    case HexPass => 2
    case NamedPass => 3
  }

  // ------------------------------------------------------------ gradient pass

  /** The candidates of `ms` that the validator accepts, in their order. */
  function Accepted(accepts: string -> bool, ms: seq<string>): (r: seq<string>)
    ensures |r| <= |ms|
    ensures forall g :: g in r ==> g in ms && IsValidColor(accepts, g)
  {
    if ms == [] then []
    else
      var init := Accepted(accepts, ms[..|ms| - 1]);
      var m := ms[|ms| - 1];
      if IsValidColor(accepts, m) then init + [m] else init
  }

  lemma {:induction false} AcceptedStep(accepts: string -> bool, ms: seq<string>, i: nat)
    requires i < |ms|
    ensures Accepted(accepts, ms[..i + 1])
      == if IsValidColor(accepts, ms[i]) then Accepted(accepts, ms[..i]) + [ms[i]] else Accepted(accepts, ms[..i])
  {
    assert ms[..i + 1][..i] == ms[..i];
  }

  /** No valid candidate is dropped. */
  lemma {:induction false} AcceptedComplete(accepts: string -> bool, ms: seq<string>, g: string)
    requires g in ms && IsValidColor(accepts, g)
    ensures g in Accepted(accepts, ms)
  {
    var init := ms[..|ms| - 1];
    if g != ms[|ms| - 1] {
      assert ms == init + [ms[|ms| - 1]];
      AcceptedComplete(accepts, init, g);
    }
  }

  /** The working copy after each text of `ms`, in turn, has had its first
      occurrence replaced by the marker. */
  function ReplaceEach(s: string, ms: seq<string>): string
  {
    if ms == [] then s else ReplaceFirst(ReplaceEach(s, ms[..|ms| - 1]), ms[|ms| - 1], Marker)
  }

  lemma {:induction false} ReplaceEachSnoc(s: string, ms: seq<string>, m: string)
    ensures ReplaceEach(s, ms + [m]) == ReplaceFirst(ReplaceEach(s, ms), m, Marker)
  {
    assert (ms + [m])[..|ms|] == ms;
  }

  /** Pass 1: every gradient match of the original text that the validator
      accepts, and the working copy with each of them replaced. */
  method ExtractGradients(text: string, accepts: string -> bool) returns (found: seq<string>, remaining: string)
    ensures found == Accepted(accepts, GradientMatches(text, 0))
    ensures remaining == ReplaceEach(text, found)
    ensures forall g :: g in found ==> IsValidColor(accepts, g) && IsGradientText(g)
  {
    var gradients := GradientMatches(text, 0);
    found := [];
    remaining := text;
    for i := 0 to |gradients|
      invariant found == Accepted(accepts, gradients[..i])
      invariant remaining == ReplaceEach(text, found)
    {
      var g := gradients[i];
      AcceptedStep(accepts, gradients, i);
      if IsValidColor(accepts, g) {
        ReplaceEachSnoc(text, found, g);
        found := found + [g];
        remaining := ReplaceFirst(remaining, g, Marker);
      }
    }
    assert gradients[..|gradients|] == gradients;
  }

  // ---------------------------------------------------------- functional pass

  /** Each text of `xs` is listed neither in `prefix` nor earlier in `xs`. */
  predicate Fresh(prefix: seq<string>, xs: seq<string>)
  {
    forall i :: 0 <= i < |xs| ==> xs[i] !in prefix + xs[..i]
  }

  lemma {:induction false} FreshSnoc(prefix: seq<string>, xs: seq<string>, m: string)
    requires Fresh(prefix, xs) && m !in prefix + xs
    ensures Fresh(prefix, xs + [m])
  {
    var ys := xs + [m];
    assert ys[..|xs|] == xs;
    forall i | 0 <= i < |xs| ensures ys[..i] == xs[..i] {
    }
  }

  /** Replacing a match that holds an opening parenthesis by the marker
      lowers the number of opening parentheses in the working copy. */
  lemma {:induction false} ReplacingMatchLowersCount(s: string, p: nat, e: nat)
    requires p <= e <= |s| && '(' in s[p..e]
    ensures Count(ReplaceFirst(s, s[p..e], Marker), '(') < Count(s, '(')
  {
    assert forall i :: 0 <= i < |Marker| ==> Marker[i] != '(';
    ContainsWitness(s, s[p..e], p);
    ReplaceFirstLowersCount(s, s[p..e], Marker, '(');
  }

  /** The candidates of `ms` that are valid and not yet listed (in `colors`
      or earlier in the result), in their order: the `!colors.includes(m) &&
      isValidColor(m)` admission shared by the functional and hex passes. */
  function Admit(accepts: string -> bool, colors: seq<string>, ms: seq<string>): (r: seq<string>)
    ensures |r| <= |ms|
    ensures forall m :: m in r ==> m in ms && IsValidColor(accepts, m)
    ensures Fresh(colors, r)
  {
    if ms == [] then []
    else
      var init := Admit(accepts, colors, ms[..|ms| - 1]);
      var m := ms[|ms| - 1];
      if m !in colors + init && IsValidColor(accepts, m) then
        FreshSnoc(colors, init, m);
        init + [m]
      else init
  }

  /** A valid candidate is listed afterwards, either from before or by this
      pass. */
  lemma {:induction false} AdmitComplete(accepts: string -> bool, colors: seq<string>, ms: seq<string>, m: string)
    requires m in ms && IsValidColor(accepts, m)
    ensures m in colors + Admit(accepts, colors, ms)
  {
    var init := ms[..|ms| - 1];
    if m != ms[|ms| - 1] {
      assert ms == init + [ms[|ms| - 1]];
      AdmitComplete(accepts, colors, init, m);
    }
  }

  /** One admission loop: every candidate that `Admit` keeps is appended and
      its first occurrence in the working copy replaced by the marker. */
  method AdmitAll(ms: seq<string>, colors: seq<string>, remaining: string, accepts: string -> bool)
    returns (added: seq<string>, rest: string)
    ensures added == Admit(accepts, colors, ms)
    ensures rest == ReplaceEach(remaining, added)
  {
    added := [];
    rest := remaining;
    for i := 0 to |ms|
      invariant added == Admit(accepts, colors, ms[..i])
      invariant rest == ReplaceEach(remaining, added)
    {
      var m := ms[i];
      assert ms[..i + 1][..i] == ms[..i];
      if m !in colors + added && IsValidColor(accepts, m) {
        ReplaceEachSnoc(remaining, added, m);
        added := added + [m];
        rest := ReplaceFirst(rest, m, Marker);
      }
    }
    assert ms[..|ms|] == ms;
  }

  /** Every match of the pattern of kind `k` in `s`, scanning left to right
      from `from` and resuming after each match. */
  function FnMatches(k: FnKind, s: string, from: nat): (r: seq<string>)
    ensures forall m :: m in r ==> IsFnText(k, m)
    decreases |s| - from
  {
    match FindFn(k, s, from)
    case None => []
    case Some((p, e)) => [s[p..e]] + FnMatches(k, s, e)
  }

  /** Every text of the scan is a whole match of kind `k`: the slice from a
      position at or after `from` where the recogniser succeeds to its end. */
  lemma {:induction false} FnMatchesSound(k: FnKind, s: string, from: nat, m: string)
    requires m in FnMatches(k, s, from)
    ensures exists p :: from <= p && FnAt(k, s, p).Some? && m == s[p..FnAt(k, s, p).value]
    decreases |s| - from
  {
    var (p, e) := FindFn(k, s, from).value;
    if m != s[p..e] {
      FnMatchesSound(k, s, e, m);
    }
  }

  /** The scan skips no match: every position where a match of kind `k`
      starts lies within a match whose text the scan returns. */
  lemma {:induction false} FnMatchesComplete(k: FnKind, s: string, from: nat, p: nat)
    requires from <= p && FnAt(k, s, p).Some?
    ensures exists q :: from <= q <= p && FnAt(k, s, q).Some? && p < FnAt(k, s, q).value
                        && s[q..FnAt(k, s, q).value] in FnMatches(k, s, from)
    decreases |s| - from
  {
    FindFnLeftmost(k, s, from);
    var (q, e) := FindFn(k, s, from).value;
    if p < e {
      assert s[q..e] in FnMatches(k, s, from);
    } else {
      FnMatchesComplete(k, s, e, p);
      var q' :| e <= q' <= p && FnAt(k, s, q').Some? && p < FnAt(k, s, q').value
                && s[q'..FnAt(k, s, q').value] in FnMatches(k, s, e);
      assert s[q'..FnAt(k, s, q').value] in FnMatches(k, s, from);
    }
  }

  /** The `pattern.exec` loop of one kind as the source writes it. Each search
      resumes at the end of the previous match (`lastIndex`), but in the
      working copy as it is after the replacement, where the marker has
      shifted everything behind the match by `15 - |match|` positions. */
  function ExecPass(k: FnKind, colors: seq<string>, accepts: string -> bool, rest: string, lastIndex: nat, added: seq<string>)
    : (r: (seq<string>, string))
    decreases Count(rest, '('), |rest| + 1 - lastIndex
  {
    match FindFn(k, rest, lastIndex)
    case None => (added, rest)
    case Some((p, e)) =>
      var m := rest[p..e];
      if m !in colors + added && IsValidColor(accepts, m) then
        ReplacingMatchLowersCount(rest, p, e);
        ExecPass(k, colors, accepts, ReplaceFirst(rest, m, Marker), e, added + [m])
      else ExecPass(k, colors, accepts, rest, e, added)
  }

  /** The `exec` loop of one kind, as written. */
  method ExecFunctions(k: FnKind, colors: seq<string>, remaining: string, accepts: string -> bool)
    returns (added: seq<string>, rest: string)
    ensures (added, rest) == ExecPass(k, colors, accepts, remaining, 0, [])
    ensures forall m :: m in added ==> IsValidColor(accepts, m) && IsFnText(k, m)
    ensures Fresh(colors, added)
    ensures Count(rest, '(') + |added| <= Count(remaining, '(')
  {
    added := [];
    rest := remaining;
    var lastIndex := 0;
    var next := FindFn(k, rest, lastIndex);
    while next.Some?
      invariant forall m :: m in added ==> IsValidColor(accepts, m) && IsFnText(k, m)
      invariant Fresh(colors, added)
      invariant Count(rest, '(') + |added| <= Count(remaining, '(')
      invariant next == FindFn(k, rest, lastIndex)
      invariant ExecPass(k, colors, accepts, rest, lastIndex, added) == ExecPass(k, colors, accepts, remaining, 0, [])
      decreases Count(rest, '('), |rest| + 1 - lastIndex
    {
      var (p, e) := next.value;
      var fullMatch := rest[p..e];
      if fullMatch !in colors + added && IsValidColor(accepts, fullMatch) {
        ReplacingMatchLowersCount(rest, p, e);
        FreshSnoc(colors, added, fullMatch);
        added := added + [fullMatch];
        rest := ReplaceFirst(rest, fullMatch, Marker);
      }
      lastIndex := e;
      next := FindFn(k, rest, lastIndex);
    }
  }

  // --------------------------------------------------------------- named pass

  /** A word the named pass keeps: one of the keyword colours `named` other
      than `inherit` and `currentcolor`. */
  predicate NamedCandidate(named: set<string>, w: string)
  {
    w != [] && w in named && w != "inherit" && w != "currentcolor"
  }

  /** `colors.map(c => c.toLowerCase())`. */
  function Lowered(xs: seq<string>): (r: seq<string>)
    ensures |r| == |xs| && forall i :: 0 <= i < |xs| ==> r[i] == ToLower(xs[i])
  {
    if xs == [] then [] else Lowered(xs[..|xs| - 1]) + [ToLower(xs[|xs| - 1])]
  }

  /** No word of `xs` is listed, ignoring case, in `prefix` or earlier in `xs`. */
  predicate LowerFresh(prefix: seq<string>, xs: seq<string>)
  {
    forall i :: 0 <= i < |xs| ==> xs[i] !in Lowered(prefix + xs[..i])
  }

  lemma {:induction false} LowerFreshSnoc(prefix: seq<string>, xs: seq<string>, w: string)
    requires LowerFresh(prefix, xs) && w !in Lowered(prefix + xs)
    ensures LowerFresh(prefix, xs + [w])
  {
    var ys := xs + [w];
    assert ys[..|xs|] == xs;
    forall i | 0 <= i < |xs| ensures ys[..i] == xs[..i] {
    }
  }

  /** The words the named pass appends, in order: each trimmed word that is a
      candidate and is not yet listed, ignoring case. */
  function AdmitNamed(named: set<string>, colors: seq<string>, words: seq<string>): (r: seq<string>)
    ensures forall w :: w in r ==> NamedCandidate(named, w)
  {
    if words == [] then []
    else
      var init := AdmitNamed(named, colors, words[..|words| - 1]);
      var w := Trim(words[|words| - 1]);
      if NamedCandidate(named, w) && w !in Lowered(colors + init) then init + [w] else init
  }

  /** The named pass never lists a word twice, even with a different letter
      case, nor one listed by an earlier pass. */
  lemma {:induction false} AdmitNamedLowerFresh(named: set<string>, colors: seq<string>, words: seq<string>)
    ensures LowerFresh(colors, AdmitNamed(named, colors, words))
  {
    if words != [] {
      var prev := words[..|words| - 1];
      AdmitNamedLowerFresh(named, colors, prev);
      var init := AdmitNamed(named, colors, prev);
      var w := Trim(words[|words| - 1]);
      if NamedCandidate(named, w) && w !in Lowered(colors + init) {
        LowerFreshSnoc(colors, init, w);
      }
    }
  }

  /** Words without white space or upper-case letters, as the split yields. */
  predicate LowerWords(ws: seq<string>)
  {
    forall i, j :: 0 <= i < |ws| && 0 <= j < |ws[i]| ==> !IsSpace(ws[i][j]) && !IsUpperLetter(ws[i][j])
  }

  lemma {:induction false} WordsAreLower(s: string)
    ensures LowerWords(Words(s))
  {
  }

  lemma {:induction false} LowerWordsPrefix(ws: seq<string>)
    requires LowerWords(ws) && ws != []
    ensures LowerWords(ws[..|ws| - 1])
  {
    var prev := ws[..|ws| - 1];
    forall i | 0 <= i < |prev| ensures prev[i] == ws[i] { }
  }

  /** A word of the split is its own trimmed, lower-cased form. */
  lemma {:induction false} LowerWordFixed(ws: seq<string>, i: nat)
    requires LowerWords(ws) && i < |ws|
    ensures Trim(ws[i]) == ws[i] && ToLower(ws[i]) == ws[i]
  {
    var w := ws[i];
    assert forall j :: 0 <= j < |w| ==> !IsSpace(w[j]) && !IsUpperLetter(w[j]);
    TrimWithoutSpaces(w);
    ToLowerFixed(w);
  }

  /** A word that is listed exactly is listed ignoring case. */
  lemma {:induction false} ListedLowered(xs: seq<string>, w: string)
    requires w in xs && ToLower(w) == w
    ensures w in Lowered(xs)
  {
    var j :| 0 <= j < |xs| && xs[j] == w;
    assert Lowered(xs)[j] == w;
  }

  /** On the split's words, the named pass never repeats an entry: no word it
      appends is listed before it. */
  lemma {:induction false} AdmitNamedFresh(named: set<string>, colors: seq<string>, words: seq<string>)
    requires LowerWords(words)
    ensures Fresh(colors, AdmitNamed(named, colors, words))
  {
    if words != [] {
      var prev := words[..|words| - 1];
      LowerWordsPrefix(words);
      AdmitNamedFresh(named, colors, prev);
      var init := AdmitNamed(named, colors, prev);
      var w := Trim(words[|words| - 1]);
      if NamedCandidate(named, w) && w !in Lowered(colors + init) {
        LowerWordFixed(words, |words| - 1);
        if w in colors + init {
          ListedLowered(colors + init, w);
        }
        FreshSnoc(colors, init, w);
      }
    }
  }

  lemma {:induction false} LoweredSnoc(xs: seq<string>, w: string)
    ensures Lowered(xs + [w]) == Lowered(xs) + [ToLower(w)]
  {
    assert (xs + [w])[..|xs|] == xs;
  }

  /** Every candidate word of the split ends up listed, ignoring case. */
  lemma {:induction false} AdmitNamedComplete(named: set<string>, colors: seq<string>, words: seq<string>, i: nat)
    requires LowerWords(words) && i < |words| && NamedCandidate(named, words[i])
    ensures words[i] in Lowered(colors + AdmitNamed(named, colors, words))
  {
    var n := |words| - 1;
    var init := AdmitNamed(named, colors, words[..n]);
    var r := AdmitNamed(named, colors, words);
    AdmitNamedStep(named, colors, words, n);
    assert words[..n + 1] == words;
    LowerWordFixed(words, n);
    var w := words[n];
    assert r == (if NamedCandidate(named, w) && w !in Lowered(colors + init) then init + [w] else init);
    if i < n {
      LowerWordsPrefix(words);
      assert words[..n][i] == words[i];
      AdmitNamedComplete(named, colors, words[..n], i);
      if NamedCandidate(named, w) && w !in Lowered(colors + init) {
        AdmitNamedKeeps(colors, init, [w], words[i]);
      }
    } else {
      assert i == n && NamedCandidate(named, w);
      if w !in Lowered(colors + init) {
        AdmitNamedAppended(colors, init, w);
      }
    }
  }

  /** What was listed before a step stays listed after it. */
  lemma {:induction false} AdmitNamedKeeps(colors: seq<string>, init: seq<string>, extra: seq<string>, v: string)
    requires v in Lowered(colors + init)
    ensures v in Lowered(colors + (init + extra))
  {
    var xs := colors + init;
    assert colors + (init + extra) == xs + extra;
    var j :| 0 <= j < |xs| && Lowered(xs)[j] == v;
    assert (xs + extra)[j] == xs[j];
  }

  /** A lower-case word that a step appends is listed after it. */
  lemma {:induction false} AdmitNamedAppended(colors: seq<string>, init: seq<string>, w: string)
    requires ToLower(w) == w
    ensures w in Lowered(colors + (init + [w]))
  {
    LoweredSnoc(colors + init, w);
    assert colors + (init + [w]) == (colors + init) + [w];
  }

  /** One more word: it is appended when it is a candidate not yet listed. */
  lemma {:induction false} AdmitNamedStep(named: set<string>, colors: seq<string>, words: seq<string>, i: nat)
    requires i < |words|
    ensures var found := AdmitNamed(named, colors, words[..i]);
      var w := Trim(words[i]);
      AdmitNamed(named, colors, words[..i + 1])
        == if NamedCandidate(named, w) && w !in Lowered(colors + found) then found + [w] else found
  {
    assert words[..i + 1][..i] == words[..i];
  }

  /** Pass 4: the keyword colours among the words of the working copy. */
  method ExtractNamed(named: set<string>, colors: seq<string>, remaining: string) returns (found: seq<string>)
    ensures found == AdmitNamed(named, colors, Words(remaining))
  {
    var words := Words(remaining);
    found := [];
    for i := 0 to |words|
      invariant found == AdmitNamed(named, colors, words[..i])
    {
      AdmitNamedStep(named, colors, words, i);
      var cleanWord := Trim(words[i]);
      if cleanWord != [] && cleanWord in named && cleanWord !in Lowered(colors + found) {
        if cleanWord != "inherit" && cleanWord != "currentcolor" {
          found := found + [cleanWord];
        }
      }
    }
    assert words[..|words|] == words;
  }

  // ----------------------------------------------------------- the whole scan

  /** Fresh lists compose: what the next pass appends is checked against
      everything listed before it. */
  lemma {:induction false} FreshAppend(prefix: seq<string>, a: seq<string>, b: seq<string>)
    requires Fresh(prefix, a) && Fresh(prefix + a, b)
    ensures Fresh(prefix, a + b)
  {
    var ab := a + b;
    forall i | 0 <= i < |ab|
      ensures ab[i] !in prefix + ab[..i]
    {
      if i < |a| {
        assert ab[..i] == a[..i];
      } else {
        assert prefix + ab[..i] == (prefix + a) + b[..i - |a|];
      }
    }
  }

  /** The functional pass over the kinds `kinds`, in order: what it appends,
      and the working copy after it. */
  function FnStage(kinds: seq<FnKind>, colors: seq<string>, remaining: string, accepts: string -> bool)
    : (r: (seq<string>, string))
    ensures Fresh(colors, r.0)
    ensures forall m :: m in r.0 ==> IsValidColor(accepts, m) && exists k :: IsFnText(k, m)
    decreases |kinds|
  {
    if kinds == [] then ([], remaining)
    else
      var added := Admit(accepts, colors, FnMatches(kinds[0], remaining, 0));
      var next := FnStage(kinds[1..], colors + added, ReplaceEach(remaining, added), accepts);
      FreshAppend(colors, added, next.0);
      (added + next.0, next.1)
  }

  /** The hex pass over the lengths `lengths`, in order. */
  function HexStage(lengths: seq<nat>, colors: seq<string>, remaining: string, accepts: string -> bool)
    : (r: (seq<string>, string))
    ensures Fresh(colors, r.0)
    ensures forall m :: m in r.0 ==> IsValidColor(accepts, m) && IsHexLiteral(m)
    decreases |lengths|
  {
    if lengths == [] then ([], remaining)
    else
      var added := Admit(accepts, colors, HexMatches(lengths[0], remaining, 0));
      var next := HexStage(lengths[1..], colors + added, ReplaceEach(remaining, added), accepts);
      FreshAppend(colors, added, next.0);
      (added + next.0, next.1)
  }

  /** The result of `smartExtractColors`, split by the pass that listed each
      entry. */
  datatype Extraction = Extraction(gradients: seq<string>, functions: seq<string>, hex: seq<string>, named: seq<string>)
  {
    function All(): seq<string> { gradients + functions + hex + named }
  }

  /** The four passes over `text`, with `accepts` standing for the browser's
      verdict and `named` for the keyword colours. */
  function Extract(text: string, accepts: string -> bool, named: set<string>): Extraction
  {
    var g := Accepted(accepts, GradientMatches(text, 0));
    var fs := FnStage(FunctionOrder, g, ReplaceEach(text, g), accepts);
    var hs := HexStage(HexLengths, g + fs.0, fs.1, accepts);
    Extraction(g, fs.0, hs.0, AdmitNamed(named, g + fs.0 + hs.0, Words(hs.1)))
  }

  /** Each list holds what its pass recognises: valid gradients, valid
      functional notations, valid hex literals, and keyword colours. */
  lemma {:induction false} ExtractEntries(text: string, accepts: string -> bool, named: set<string>)
    ensures var r := Extract(text, accepts, named);
      && r.gradients == Accepted(accepts, GradientMatches(text, 0))
      && (forall m :: m in r.gradients ==> IsValidColor(accepts, m) && IsGradientText(m))
      && (forall m :: m in r.functions ==> IsValidColor(accepts, m) && exists k :: IsFnText(k, m))
      && (forall m :: m in r.hex ==> IsValidColor(accepts, m) && IsHexLiteral(m))
      && (forall m :: m in r.named ==> NamedCandidate(named, m))
  {
  }

  /** No entry after the gradients repeats an earlier entry. */
  lemma {:induction false} ExtractFresh(text: string, accepts: string -> bool, named: set<string>)
    ensures var r := Extract(text, accepts, named);
      Fresh(r.gradients, r.functions + r.hex + r.named)
  {
    var r := Extract(text, accepts, named);
    var g := r.gradients;
    var fs := FnStage(FunctionOrder, g, ReplaceEach(text, g), accepts);
    var hs := HexStage(HexLengths, g + fs.0, fs.1, accepts);
    WordsAreLower(hs.1);
    AdmitNamedFresh(named, g + fs.0 + hs.0, Words(hs.1));
    FreshChain(g, fs.0, hs.0, r.named);
  }

  lemma {:induction false} FreshChain(g: seq<string>, f: seq<string>, h: seq<string>, n: seq<string>)
    requires Fresh(g, f) && Fresh(g + f, h) && Fresh(g + f + h, n)
    ensures Fresh(g, f + h + n)
  {
    FreshAppend(g, f, h);
    assert g + f + h == g + (f + h);
    FreshAppend(g, f + h, n);
  }

  /** `smartExtractColors(text)`. */
  function SmartExtract(text: string, accepts: string -> bool, named: set<string>): seq<string>
  {
    Extract(text, accepts, named).All()
  }

  /** Every valid gradient match of the text is listed. */
  lemma {:induction false} GradientsKept(text: string, accepts: string -> bool, named: set<string>, g: string)
    requires g in GradientMatches(text, 0) && IsValidColor(accepts, g)
    ensures g in SmartExtract(text, accepts, named)
  {
    AcceptedComplete(accepts, GradientMatches(text, 0), g);
  }

  /** What each list of an extraction can hold, as far as its first
      character and its parentheses go. */
  predicate ShapedEntries(r: Extraction, named: set<string>)
  {
    && (forall m :: m in r.gradients ==> '(' in m)
    && (forall m :: m in r.functions ==> '(' in m)
    && (forall m :: m in r.hex ==> m != [] && m[0] == '#')
    && (forall m :: m in r.named ==> NamedCandidate(named, m))
  }

  lemma {:induction false} ExtractShaped(text: string, accepts: string -> bool, named: set<string>)
    ensures ShapedEntries(Extract(text, accepts, named), named)
  {
    ExtractEntries(text, accepts, named);
  }

  lemma {:induction false} NotShaped(r: Extraction, named: set<string>, w: string)
    requires ShapedEntries(r, named)
    requires w != [] && '(' !in w && w[0] != '#' && !NamedCandidate(named, w)
    ensures w !in r.All()
  {
  }

  /** A word without a parenthesis, not starting with `#` and not a named
      candidate cannot be an entry of any pass. */
  lemma {:induction false} NotAnEntry(text: string, accepts: string -> bool, named: set<string>, w: string)
    requires w != [] && '(' !in w && w[0] != '#' && !NamedCandidate(named, w)
    ensures w !in SmartExtract(text, accepts, named)
  {
    ExtractShaped(text, accepts, named);
    NotShaped(Extract(text, accepts, named), named, w);
  }

  /** `inherit` and `currentcolor` are never listed: gradients and functional
      notations hold a parenthesis, hex literals start with `#`, and the named
      pass skips both words. */
  lemma {:induction false} KeywordsNeverExtracted(text: string, accepts: string -> bool, named: set<string>)
    ensures "inherit" !in SmartExtract(text, accepts, named)
    ensures "currentcolor" !in SmartExtract(text, accepts, named)
  {
    KeywordNotAnEntry(text, accepts, named, "inherit");
    KeywordNotAnEntry(text, accepts, named, "currentcolor");
  }

  lemma {:induction false} KeywordNotAnEntry(text: string, accepts: string -> bool, named: set<string>, w: string)
    requires w == "inherit" || w == "currentcolor"
    ensures w !in SmartExtract(text, accepts, named)
  {
    assert w[0] in "ic" && w[1] in "nu" && |w| >= 7;
    assert '(' !in w;
    NotAnEntry(text, accepts, named, w);
  }

  lemma {:induction false} ConcatAssoc(a: seq<string>, b: seq<string>, c: seq<string>)
    ensures a + (b + c) == (a + b) + c
  {
  }

  /** The functional pass for each kind of `kinds`, in order. */
  method FunctionPasses(kinds: seq<FnKind>, colors: seq<string>, remaining: string, accepts: string -> bool)
    returns (listed: seq<string>, rest: string)
    ensures listed == colors + FnStage(kinds, colors, remaining, accepts).0
    ensures rest == FnStage(kinds, colors, remaining, accepts).1
  {
    listed, rest := colors, remaining;
    for i := 0 to |kinds|
      invariant listed + FnStage(kinds[i..], listed, rest, accepts).0 == colors + FnStage(kinds, colors, remaining, accepts).0
      invariant FnStage(kinds[i..], listed, rest, accepts).1 == FnStage(kinds, colors, remaining, accepts).1
    {
      var added, next := AdmitAll(FnMatches(kinds[i], rest, 0), listed, rest, accepts);
      assert kinds[i..][1..] == kinds[i + 1..];
      ghost var later := FnStage(kinds[i + 1..], listed + added, next, accepts);
      assert FnStage(kinds[i..], listed, rest, accepts) == (added + later.0, later.1);
      ConcatAssoc(listed, added, later.0);
      listed := listed + added;
      rest := next;
    }
  }

  /** The hex pass for each length of `lengths`, in order. */
  method HexPasses(lengths: seq<nat>, colors: seq<string>, remaining: string, accepts: string -> bool)
    returns (listed: seq<string>, rest: string)
    ensures listed == colors + HexStage(lengths, colors, remaining, accepts).0
    ensures rest == HexStage(lengths, colors, remaining, accepts).1
  {
    listed, rest := colors, remaining;
    for i := 0 to |lengths|
      invariant listed + HexStage(lengths[i..], listed, rest, accepts).0 == colors + HexStage(lengths, colors, remaining, accepts).0
      invariant HexStage(lengths[i..], listed, rest, accepts).1 == HexStage(lengths, colors, remaining, accepts).1
    {
      var added, next := AdmitAll(HexMatches(lengths[i], rest, 0), listed, rest, accepts);
      assert lengths[i..][1..] == lengths[i + 1..];
      ghost var later := HexStage(lengths[i + 1..], listed + added, next, accepts);
      assert HexStage(lengths[i..], listed, rest, accepts) == (added + later.0, later.1);
      ConcatAssoc(listed, added, later.0);
      listed := listed + added;
      rest := next;
    }
  }

  /** `smartExtractColors(text)`: the four passes in order over one working
      copy. */
  method SmartExtractColors(text: string, accepts: string -> bool, named: set<string>) returns (colors: seq<string>)
    ensures colors == SmartExtract(text, accepts, named)
  {
    var gradients, remaining := ExtractGradients(text, accepts);
    colors, remaining := FunctionPasses(FunctionOrder, gradients, remaining, accepts);
    colors, remaining := HexPasses(HexLengths, colors, remaining, accepts);
    var found := ExtractNamed(named, colors, remaining);
    colors := colors + found;
  }
}
