/**
 * The pattern matchers of `smartExtractColors`, written out as scanners.
 *
 * - Gradients: one of six gradient function names (any letter case), optional
 *   white space, and a parenthesised argument list that may nest two further
 *   levels of parentheses — the shape the gradient regular expression accepts.
 * - Functional notations (oklch, oklab, lch, lab, hwb, color(), hsl/hsla,
 *   rgb/rgba): none of their components may contain `)`, so a match that
 *   starts at `p` always ends just after the first `)` that follows; each
 *   regular expression is therefore modelled by a deterministic tokeniser that
 *   answers whether, and where, the match starting at `p` ends.
 * - Hex literals: `#` and exactly N hexadecimal digits that are not followed by
 *   a word character (the `\b` of the pattern).
 * - Named colours: the fields of the lower-cased text between runs of the
 *   delimiters `[\s:;,(){}'"]`.
 */
module Recognizers {
  import opened Text

  /** The lower-case literal `lit` occurs at `p` when ASCII case is ignored. */
  predicate LiteralAtCI(s: string, lit: string, p: nat)
  {
    p + |lit| <= |s| && forall i :: 0 <= i < |lit| ==> LowerChar(s[p + i]) == lit[i]
  }

  lemma {:induction false} LiteralAtSlice(s: string, lit: string, p: nat, e: nat)
    requires LiteralAtCI(s, lit, p) && p + |lit| <= e <= |s|
    ensures LiteralAtCI(s[p..e], lit, 0)
  {
    forall i | 0 <= i < |lit| ensures LowerChar(s[p..e][0 + i]) == lit[i] {
      assert s[p..e][i] == s[p + i];
    }
  }

  lemma {:induction false} ParenIn(s: string, p: nat, q: nat, e: nat)
    requires p < q <= e <= |s| && s[q - 1] == '('
    ensures '(' in s[p..e]
  {
    assert s[p..e][q - 1 - p] == '(';
  }

  /** A literal found at `p` (ignoring case) leaves its suffix, lower-cased, in
      any longer text that starts at `p`. */
  lemma {:induction false} LiteralSuffixOccurs(s: string, lit: string, suffix: string, p: nat, e: nat)
    requires LiteralAtCI(s, lit, p) && p + |lit| <= e <= |s| && EndsWith(lit, suffix)
    ensures OccursAt(ToLower(s[p..e]), suffix, |lit| - |suffix|)
  {
    var t := ToLower(s[p..e]);
    var a := |lit| - |suffix|;
    forall j | 0 <= j < |suffix| ensures t[a..|lit|][j] == suffix[j] {
      assert t[a + j] == LowerChar(s[p + a + j]) == lit[a + j];
      assert lit[a..][j] == lit[a + j];
    }
  }

  lemma {:induction false} LiteralSuffixContained(s: string, lit: string, suffix: string, p: nat, e: nat)
    requires LiteralAtCI(s, lit, p) && p + |lit| <= e <= |s| && EndsWith(lit, suffix)
    ensures Contains(ToLower(s[p..e]), suffix)
  {
    LiteralSuffixOccurs(s, lit, suffix, p, e);
    ContainsWitness(ToLower(s[p..e]), suffix, |lit| - |suffix|);
  }

  lemma {:induction false} GradientNamesEndWithGradient(n: nat)
    requires n < |GradientNames|
    ensures EndsWith(GradientNames[n], "gradient")
  {
    if n == 0 {
    } else if n == 1 {
    } else if n == 2 {
    } else if n == 3 {
    } else if n == 4 {
    } else {
    }
  }

  // ---------------------------------------------------------------- gradients

  const GradientNames: seq<string> := [
    "linear-gradient", "radial-gradient", "conic-gradient",
    "repeating-linear-gradient", "repeating-radial-gradient", "repeating-conic-gradient"
  ]

  /** The change in open parentheses that one character makes. */
  function Delta(c: char): int
  {
    if c == '(' then 1 else if c == ')' then -1 else 0
  }

  /** Parentheses opened minus parentheses closed in `w`. */
  function Depth(w: string): int
  {
    if w == [] then 0 else Delta(w[0]) + Depth(w[1..])
  }

  /** Reading `s[i..e]` with `d` groups open closes the last of them exactly at
      `e`, and never holds more than three groups open on the way: the
      gradient's own group and two nested levels. */
  predicate ClosesAt(s: string, i: nat, d: int, e: nat)
  {
    i < e <= |s| && d + Depth(s[i..e]) == 0 &&
    forall k :: i <= k < e ==> 1 <= d + Depth(s[i..k]) <= 3
  }

  /** Scans from `i` with `d` groups open and returns the index just after the
      parenthesis that closes the outermost group. A fourth level of nesting,
      or the end of the text, ends the scan without a match. */
  function GroupEnd(s: string, i: nat, d: nat): (r: Option<nat>)
    requires i <= |s| && 1 <= d <= 3
    ensures r.Some? ==> i < r.value <= |s| && s[r.value - 1] == ')'
    decreases |s| - i
  {
    if i == |s| then None
    else if s[i] == '(' then (if d < 3 then GroupEnd(s, i + 1, d + 1) else None)
    else if s[i] == ')' then (if d == 1 then Some(i + 1) else GroupEnd(s, i + 1, d - 1))
    else GroupEnd(s, i + 1, d)
  }

  lemma {:induction false} DepthStep(s: string, i: nat, k: nat)
    requires i < k <= |s|
    ensures Depth(s[i..k]) == Delta(s[i]) + Depth(s[i + 1..k])
  {
    assert s[i..k][0] == s[i] && s[i..k][1..] == s[i + 1..k];
  }

  /** Closing at `e` from `i` is closing at `e` from `i + 1` with the depth
      that the character at `i` leaves. */
  lemma {:induction false} ClosesAtStep(s: string, i: nat, d: int, e: nat)
    requires i + 1 < e <= |s| && 1 <= d <= 3
    ensures ClosesAt(s, i, d, e) <==> ClosesAt(s, i + 1, d + Delta(s[i]), e)
  {
    var d' := d + Delta(s[i]);
    forall k | i < k <= e
      ensures d + Depth(s[i..k]) == d' + Depth(s[i + 1..k])
    {
      DepthStep(s, i, k);
    }
    assert Depth(s[i..i]) == 0;
    var j := i + 1;
    if ClosesAt(s, i, d, e) {
      forall k | j <= k < e ensures 1 <= d' + Depth(s[j..k]) <= 3 {
        assert 1 <= d + Depth(s[i..k]) <= 3;
      }
    }
    if ClosesAt(s, i + 1, d', e) {
      forall k | i <= k < e ensures 1 <= d + Depth(s[i..k]) <= 3 {
        if k > i {
          assert 1 <= d' + Depth(s[i + 1..k]) <= 3;
        }
      }
    }
  }

  /** The scanner finds the closing parenthesis exactly when one exists within
      the nesting limit, and it is the first one. */
  lemma {:induction false} GroupEndCorrect(s: string, i: nat, d: nat)
    requires i <= |s| && 1 <= d <= 3
    ensures GroupEnd(s, i, d).Some? ==> ClosesAt(s, i, d, GroupEnd(s, i, d).value)
    ensures GroupEnd(s, i, d).None? ==> forall e :: !ClosesAt(s, i, d, e)
    decreases |s| - i
  {
    if i == |s| {
      return;
    }
    var d' := d + Delta(s[i]);
    assert Depth(s[i..i + 1]) == Delta(s[i]) by {
      DepthStep(s, i, i + 1);
    }
    assert Depth(s[i..i]) == 0;
    if s[i] == '(' && d == 3 {
      forall e: nat ensures !ClosesAt(s, i, d, e) {
        if i + 1 < e <= |s| {
          ClosesAtStep(s, i, d, e);
        }
      }
    } else if s[i] == ')' && d == 1 {
    } else {
      GroupEndCorrect(s, i + 1, d');
      var r := GroupEnd(s, i + 1, d');
      assert GroupEnd(s, i, d) == r;
      if r.Some? {
        ClosesAtStep(s, i, d, r.value);
      } else {
        forall e: nat ensures !ClosesAt(s, i, d, e) {
          if i + 1 < e <= |s| {
            ClosesAtStep(s, i, d, e);
          }
        }
      }
    }
  }

  /** The index of the first gradient name (in the order the alternation lists
      them) that occurs at `p`. */
  function GradientNameAt(s: string, p: nat, n: nat): (r: Option<nat>)
    requires n <= |GradientNames|
    ensures r.Some? ==> n <= r.value < |GradientNames| && LiteralAtCI(s, GradientNames[r.value], p)
    decreases |GradientNames| - n
  {
    if n == |GradientNames| then None
    else if LiteralAtCI(s, GradientNames[n], p) then Some(n)
    else GradientNameAt(s, p, n + 1)
  }

  /** After a name of length `len` at `p`: optional white space, `(`, and the
      balanced group that the opening parenthesis starts. */
  function GroupAfterName(s: string, p: nat, len: nat): (r: Option<nat>)
    requires p + len <= |s|
    ensures r.Some? ==> p + len < r.value <= |s| && s[r.value - 1] == ')' && '(' in s[p..r.value]
  {
    var q := SkipSpaces(s, p + len);
    if q < |s| && s[q] == '(' then
      var r := GroupEnd(s, q + 1, 1);
      if r.Some? then ParenIn(s, p, q + 1, r.value); r else r
    else None
  }

  /** The end of the gradient match that starts at `p`, if there is one. */
  function GradientAt(s: string, p: nat): (r: Option<nat>)
    ensures r.Some? ==> p < r.value <= |s| && s[r.value - 1] == ')'
  {
    match GradientNameAt(s, p, 0)
    case None => None
    case Some(n) => GroupAfterName(s, p, |GradientNames[n]|)
  }

  /** Every text a gradient match yields names a gradient, holds an opening
      parenthesis and ends with the closing one. */
  lemma {:induction false} GradientMatchShape(s: string, p: nat)
    requires GradientAt(s, p).Some?
    ensures IsGradientText(s[p..GradientAt(s, p).value])
  {
    NameGroupShape(s, p, GradientNameAt(s, p, 0).value, GradientAt(s, p).value);
  }

  lemma {:induction false} NameGroupShape(s: string, p: nat, n: nat, e: nat)
    requires n < |GradientNames| && LiteralAtCI(s, GradientNames[n], p)
    requires p + |GradientNames[n]| < e <= |s| && s[e - 1] == ')' && '(' in s[p..e]
    ensures IsGradientText(s[p..e])
  {
    GradientNamesEndWithGradient(n);
    LiteralSuffixContained(s, GradientNames[n], "gradient", p, e);
    GradientShapeParts(s, p, e);
  }

  lemma {:induction false} GradientShapeParts(s: string, p: nat, e: nat)
    requires p < e <= |s| && s[e - 1] == ')' && '(' in s[p..e]
    requires Contains(ToLower(s[p..e]), "gradient")
    ensures IsGradientText(s[p..e])
  {
    LastOfSlice(s, p, e);
  }

  lemma {:induction false} LastOfSlice(s: string, p: nat, e: nat)
    requires p < e <= |s|
    ensures s[p..e][e - p - 1] == s[e - 1]
  {
  }

  /** A text that the gradient pattern can yield: it names a gradient and holds
      a parenthesised group that closes at its end. */
  predicate IsGradientText(g: string)
  {
    Contains(ToLower(g), "gradient") && '(' in g && |g| > 0 && g[|g| - 1] == ')'
  }

  /** `text.match(gradientPattern)`: every gradient match, left to right, each
      search resuming after the previous match. */
  function GradientMatches(s: string, from: nat): (r: seq<string>)
    ensures forall g :: g in r ==> IsGradientText(g)
    decreases |s| - from
  {
    if from >= |s| then []
    else match GradientAt(s, from)
      case Some(e) =>
        GradientMatchShape(s, from);
        [s[from..e]] + GradientMatches(s, e)
      case None => GradientMatches(s, from + 1)
  }

  /** Every text of the scan is a whole gradient match: the slice from a
      position at or after `from` where the recogniser succeeds to the end it
      reports. */
  lemma {:induction false} GradientMatchesSound(s: string, from: nat, g: string)
    requires g in GradientMatches(s, from)
    ensures exists p :: from <= p && GradientAt(s, p).Some? && g == s[p..GradientAt(s, p).value]
    decreases |s| - from
  {
    match GradientAt(s, from)
    case Some(e) =>
      if g != s[from..e] {
        GradientMatchesSound(s, e, g);
      }
    case None =>
      GradientMatchesSound(s, from + 1, g);
  }

  /** The scan skips no gradient: every position at or after `from` where the
      recogniser succeeds lies within a match whose text the scan returns. */
  lemma {:induction false} GradientMatchesComplete(s: string, from: nat, p: nat)
    requires from <= p && GradientAt(s, p).Some?
    ensures exists q :: from <= q <= p && GradientAt(s, q).Some? && p < GradientAt(s, q).value
                        && s[q..GradientAt(s, q).value] in GradientMatches(s, from)
    decreases |s| - from
  {
    match GradientAt(s, from)
    case Some(e) =>
      if p < e {
        assert s[from..e] in GradientMatches(s, from);
      } else {
        GradientMatchesComplete(s, e, p);
        var q :| e <= q <= p && GradientAt(s, q).Some? && p < GradientAt(s, q).value
                 && s[q..GradientAt(s, q).value] in GradientMatches(s, e);
        assert s[q..GradientAt(s, q).value] in GradientMatches(s, from);
      }
    case None =>
      GradientMatchesComplete(s, from + 1, p);
      var q :| from + 1 <= q <= p && GradientAt(s, q).Some? && p < GradientAt(s, q).value
               && s[q..GradientAt(s, q).value] in GradientMatches(s, from + 1);
      assert s[q..GradientAt(s, q).value] in GradientMatches(s, from);
  }

  // ------------------------------------------------------ functional notations

  /** The eight functional-notation recognisers, in the order they are tried. */
  datatype FnKind = Oklch | Oklab | Lch | Lab | Hwb | ColorFn | Hsl | Rgb

  const FunctionOrder: seq<FnKind> := [Oklch, Oklab, Lch, Lab, Hwb, ColorFn, Hsl, Rgb]

  /** The shapes a numeric component takes in the patterns:
      Plain `[\d.]+`, Pct `[\d.]+%?`, Signed `-?[\d.]+`, Angle `[\d.]+(deg)?`,
      HueUnits `[\d.]+(deg|rad|grad|turn)?`, DashPct `[-\d.]+%?`. */
  datatype NumForm = Plain | Pct | Signed | Angle | HueUnits | DashPct

  function FnName(k: FnKind): string
  {
    match k
    case Oklch => "oklch"
    case Oklab => "oklab"
    case Lch => "lch"
    case Lab => "lab"
    case Hwb => "hwb"
    case ColorFn => "color"
    case Hsl => "hsl"
    case Rgb => "rgb"
  }

  /** `hsla?` and `rgba?` accept an optional `a` after the name. */
  predicate AllowsA(k: FnKind) { k == Hsl || k == Rgb }

  /** Only hsl and rgb accept the legacy `, alpha` form besides `/ alpha`. */
  predicate AllowsCommaAlpha(k: FnKind) { k == Hsl || k == Rgb }

  /** The forms of the three components of the comma-or-space separated kinds. */
  function ArgForms(k: FnKind): (NumForm, NumForm, NumForm)
  {
    match k
    case Oklch => (Pct, Plain, Angle)
    case Lch => (Pct, Plain, Angle)
    case Oklab => (Pct, Signed, Signed)
    case Lab => (Pct, Signed, Signed)
    case Hwb => (HueUnits, Pct, Pct)
    case Hsl => (HueUnits, Pct, Pct)
    case Rgb => (Pct, Pct, Pct)
    case ColorFn => (DashPct, DashPct, DashPct)
  }

  predicate IsNumChar(c: char) { IsDigit(c) || c == '.' }

  predicate IsDashNumChar(c: char) { IsDigit(c) || c == '.' || c == '-' }

  predicate IsIdentChar(c: char) { IsWordChar(c) || c == '-' }

  /** The end of the run of characters of class `cls` that starts at `i`. */
  function RunFrom(s: string, i: nat, cls: char -> bool): (j: nat)
    requires i <= |s|
    ensures i <= j <= |s|
    ensures forall k :: i <= k < j ==> cls(s[k])
    ensures j < |s| ==> !cls(s[j])
    decreases |s| - i
  {
    if i < |s| && cls(s[i]) then RunFrom(s, i + 1, cls) else i
  }

  /** The end of the first unit of `units` that occurs at `j` (ignoring case),
      or `j` when none does. */
  function UnitEnd(s: string, j: nat, units: seq<string>): (r: nat)
    requires j <= |s|
    ensures j <= r <= |s|
  {
    if units == [] then j
    else if LiteralAtCI(s, units[0], j) then j + |units[0]|
    else UnitEnd(s, j, units[1..])
  }

  /** The end of a numeric component of form `f` that starts at `i`. The digit
      run is maximal because no pattern lets a digit or a dot follow it. */
  function NumberEnd(f: NumForm, s: string, i: nat): (r: Option<nat>)
    requires i <= |s|
    ensures r.Some? ==> i < r.value <= |s|
  {
    var i1 := if f == Signed && i < |s| && s[i] == '-' then i + 1 else i;
    var j := RunFrom(s, i1, if f == DashPct then IsDashNumChar else IsNumChar);
    if j == i1 then None
    else match f
      case Plain => Some(j)
      case Signed => Some(j)
      case Pct => Some(if j < |s| && s[j] == '%' then j + 1 else j)
      case DashPct => Some(if j < |s| && s[j] == '%' then j + 1 else j)
      case Angle => Some(UnitEnd(s, j, ["deg"]))
      case HueUnits => Some(UnitEnd(s, j, ["deg", "rad", "grad", "turn"]))
  }

  /** `\s*[, ]\s*` before a component: white space holding either one comma or
      at least one plain space. */
  function CommaOrSpace(s: string, i: nat): (r: Option<nat>)
    requires i <= |s|
    ensures r.Some? ==> i <= r.value <= |s|
  {
    var a := SkipSpaces(s, i);
    if a < |s| && s[a] == ',' then Some(SkipSpaces(s, a + 1))
    else if ' ' in s[i..a] then Some(a)
    else None
  }

  /** `\s+`. */
  function Spaces1(s: string, i: nat): (r: Option<nat>)
    requires i <= |s|
    ensures r.Some? ==> i < r.value <= |s|
  {
    var a := SkipSpaces(s, i);
    if a > i then Some(a) else None
  }

  /** One step of a functional-notation pattern after its `(\s*`. */
  datatype Step =
    | Number(form: NumForm)   // a numeric component
    | Separator               // `\s*[, ]\s*`
    | Gap                     // `\s+`
    | SpaceName               // the colour-space name `[\w-]+` of color()
    | Close(commaAlpha: bool) // `\s*(?:\/\s*A|,\s*A)?\s*\)`, the comma form when allowed

  /** The steps of each pattern after `name\s*\(\s*`. */
  function Pattern(k: FnKind): (steps: seq<Step>)
    ensures |steps| >= 1 && steps[|steps| - 1].Close?
  {
    if k == ColorFn then
      [SpaceName, Gap, Number(DashPct), Gap, Number(DashPct), Gap, Number(DashPct), Close(false)]
    else
      var (f1, f2, f3) := ArgForms(k);
      [Number(f1), Separator, Number(f2), Separator, Number(f3), Close(AllowsCommaAlpha(k))]
  }

  /** `\s*(?:\/\s*A|,\s*A)?\s*\)` where `A` is `[\d.]+%?`. */
  function CloseEnd(commaAlpha: bool, s: string, i: nat): (r: Option<nat>)
    requires i <= |s|
    ensures r.Some? ==> i < r.value <= |s| && s[r.value - 1] == ')'
  {
    var a := SkipSpaces(s, i);
    if a < |s| && s[a] == ')' then Some(a + 1)
    else if a < |s| && (s[a] == '/' || (commaAlpha && s[a] == ',')) then
      match NumberEnd(Pct, s, SkipSpaces(s, a + 1))
      case None => None
      case Some(b) =>
        var c := SkipSpaces(s, b);
        if c < |s| && s[c] == ')' then Some(c + 1) else None
    else None
  }

  /** The end of one step that starts at `i`. */
  function StepEnd(st: Step, s: string, i: nat): (r: Option<nat>)
    requires i <= |s|
    ensures r.Some? ==> i <= r.value <= |s|
    ensures r.Some? && st.Close? ==> i < r.value && s[r.value - 1] == ')'
  {
    match st
    case Number(f) => NumberEnd(f, s, i)
    case Separator => CommaOrSpace(s, i)
    case Gap => Spaces1(s, i)
    case SpaceName =>
      var a := RunFrom(s, i, IsIdentChar);
      if a == i then None else Some(a)
    case Close(commaAlpha) => CloseEnd(commaAlpha, s, i)
  }

  /** The end of the steps, taken in order from `i`. */
  function StepsEnd(steps: seq<Step>, s: string, i: nat): (r: Option<nat>)
    requires |steps| >= 1 && i <= |s|
    ensures r.Some? ==> i <= r.value <= |s|
    ensures r.Some? && steps[|steps| - 1].Close? ==> i < r.value && s[r.value - 1] == ')'
    decreases |steps|
  {
    match StepEnd(steps[0], s, i)
    case None => None
    case Some(j) =>
      if |steps| == 1 then Some(j)
      else
        var rest := steps[1..];
        assert rest[|rest| - 1] == steps[|steps| - 1];
        StepsEnd(rest, s, j)
  }

  /** The index just after the opening parenthesis's position, when the name
      of kind `k` (and the optional `a`) and `\s*\(` occur at `p`. */
  function OpenerAt(k: FnKind, s: string, p: nat): (r: Option<nat>)
    ensures r.Some? ==> p < r.value <= |s| && s[r.value - 1] == '(' && LiteralAtCI(s, FnName(k), p)
  {
    var n := FnName(k);
    if !LiteralAtCI(s, n, p) then None
    else
      var i := p + |n|;
      var i' := if AllowsA(k) && i < |s| && LowerChar(s[i]) == 'a' then i + 1 else i;
      var q := SkipSpaces(s, i');
      if q < |s| && s[q] == '(' then Some(q + 1) else None
  }

  /** The end of the match of kind `k` that starts at `p`, if there is one. */
  function FnAt(k: FnKind, s: string, p: nat): (r: Option<nat>)
    ensures r.Some? ==> p < r.value <= |s| && s[r.value - 1] == ')'
    ensures r.Some? ==> ClosesAfterOpener(k, s, p, r.value)
  {
    match OpenerAt(k, s, p)
    case None => None
    case Some(q) => StepsEnd(Pattern(k), s, SkipSpaces(s, q))
  }

  /** The opener of kind `k` is found at `p`, and `e` is the end of a text
      that closes with `)` after it. */
  predicate ClosesAfterOpener(k: FnKind, s: string, p: nat, e: nat)
  {
    OpenerAt(k, s, p).Some? && OpenerAt(k, s, p).value <= e <= |s| && s[e - 1] == ')'
  }

  /** A text that a call pattern for `name` can yield: it starts with the
      name, holds the opening parenthesis and ends with the closing one. */
  predicate IsCallText(name: string, m: string)
  {
    LiteralAtCI(m, name, 0) && '(' in m && |m| > 0 && m[|m| - 1] == ')'
  }

  /** A text that the pattern of kind `k` can yield. */
  predicate IsFnText(k: FnKind, m: string)
  {
    IsCallText(FnName(k), m)
  }

  lemma {:induction false} CallTextAt(s: string, name: string, p: nat, q: nat, e: nat)
    requires LiteralAtCI(s, name, p) && p + |name| < q <= e <= |s|
    requires s[q - 1] == '(' && s[e - 1] == ')'
    ensures IsCallText(name, s[p..e])
  {
    ParenIn(s, p, q, e);
    LiteralAtSlice(s, name, p, e);
    assert s[p..e][e - p - 1] == s[e - 1];
  }

  /** Every text a match of kind `k` yields is a call of its name. */
  lemma {:induction false} FnMatchShape(k: FnKind, s: string, p: nat)
    requires FnAt(k, s, p).Some?
    ensures IsFnText(k, s[p..FnAt(k, s, p).value])
  {
    OpenerShape(k, s, p, FnAt(k, s, p).value);
  }

  lemma {:induction false} OpenerShape(k: FnKind, s: string, p: nat, e: nat)
    requires ClosesAfterOpener(k, s, p, e)
    ensures IsFnText(k, s[p..e])
  {
    OpenerAfterName(k, s, p);
    CallTextAt(s, FnName(k), p, OpenerAt(k, s, p).value, e);
  }

  lemma {:induction false} OpenerAfterName(k: FnKind, s: string, p: nat)
    requires OpenerAt(k, s, p).Some?
    ensures p + |FnName(k)| < OpenerAt(k, s, p).value
  {
  }

  /** The first position in `from..n` at which the matcher `at` succeeds,
      with the end that it reports. */
  function FirstMatch(at: nat -> Option<nat>, from: nat, n: nat): (r: Option<(nat, nat)>)
    ensures r.Some? ==> from <= r.value.0 <= n && at(r.value.0) == Some(r.value.1)
    decreases n + 1 - from
  {
    if from > n then None
    else match at(from)
      case Some(e) => Some((from, e))
      case None => FirstMatch(at, from + 1, n)
  }

  /** The search returns the leftmost success, and fails only when the
      matcher fails everywhere in range. */
  lemma {:induction false} FirstMatchLeftmost(at: nat -> Option<nat>, from: nat, n: nat)
    ensures FirstMatch(at, from, n).Some? ==> forall p :: from <= p < FirstMatch(at, from, n).value.0 ==> at(p).None?
    ensures FirstMatch(at, from, n).None? ==> forall p :: from <= p <= n ==> at(p).None?
    decreases n + 1 - from
  {
    if from <= n && at(from).None? {
      FirstMatchLeftmost(at, from + 1, n);
    }
  }

  /** The matcher of kind `k` over `s`, as a function of the start position. */
  function FnMatcher(k: FnKind, s: string): nat -> Option<nat>
  {
    (p: nat) => FnAt(k, s, p)
  }

  /** `pattern.exec(text)` with `lastIndex == from`: the leftmost match of kind
      `k` that starts at or after `from`, as (start, end). */
  function FindFn(k: FnKind, s: string, from: nat): (r: Option<(nat, nat)>)
    ensures r.Some? ==> from <= r.value.0 < r.value.1 <= |s| && FnAt(k, s, r.value.0) == Some(r.value.1)
    ensures r.Some? ==> IsFnText(k, s[r.value.0..r.value.1])
  {
    var r := FirstMatch(FnMatcher(k, s), from, |s|);
    if r.Some? then FnMatchShape(k, s, r.value.0); r else r
  }

  /** No match of kind `k` starts between `from` and the one found, and none
      starts at or after `from` when the search fails. */
  lemma {:induction false} FindFnLeftmost(k: FnKind, s: string, from: nat)
    ensures FindFn(k, s, from).Some? ==> forall p :: from <= p < FindFn(k, s, from).value.0 ==> FnAt(k, s, p).None?
    ensures FindFn(k, s, from).None? ==> forall p :: from <= p <= |s| ==> FnAt(k, s, p).None?
  {
    var at := FnMatcher(k, s);
    var r := FirstMatch(at, from, |s|);
    assert FindFn(k, s, from) == r;
    FirstMatchLeftmost(at, from, |s|);
    var bound := if r.Some? then r.value.0 else |s| + 1;
    forall p | from <= p < bound ensures FnAt(k, s, p).None? {
      assert at(p).None?;
    }
  }

  // ------------------------------------------------------------- hex literals

  /** `#[0-9A-Fa-f]{n}\b` matches at `p`. */
  predicate HexAt(n: nat, s: string, p: nat)
  {
    p + 1 + n <= |s| && s[p] == '#' &&
    (forall i :: p + 1 <= i < p + 1 + n ==> IsHexDigit(s[i])) &&
    (n == 0 || p + 1 + n == |s| || !IsWordChar(s[p + 1 + n]))
  }

  /** `text.match(/#[0-9A-Fa-f]{n}\b/g)`: every match, left to right. */
  function HexMatches(n: nat, s: string, from: nat): (r: seq<string>)
    ensures forall m :: m in r ==> |m| == n + 1 && m[0] == '#' && forall i :: 1 <= i < |m| ==> IsHexDigit(m[i])
    decreases |s| - from
  {
    if from >= |s| then []
    else if HexAt(n, s, from) then
      var m := s[from..from + 1 + n];
      assert forall i :: 1 <= i < |m| ==> m[i] == s[from + i];
      [m] + HexMatches(n, s, from + 1 + n)
    else HexMatches(n, s, from + 1)
  }

  /** Every text of the scan is a whole hex match: `#` and the `n` digits
      at a position at or after `from` where `HexAt` holds, `\b` included. */
  lemma {:induction false} HexMatchesSound(n: nat, s: string, from: nat, m: string)
    requires m in HexMatches(n, s, from)
    ensures exists p :: from <= p && HexAt(n, s, p) && m == s[p..p + 1 + n]
    decreases |s| - from
  {
    if HexAt(n, s, from) {
      if m != s[from..from + 1 + n] {
        HexMatchesSound(n, s, from + 1 + n, m);
      }
    } else {
      HexMatchesSound(n, s, from + 1, m);
    }
  }

  /** The scan skips no hex literal: every position at or after `from` where
      `HexAt` holds lies within a match whose text the scan returns. */
  lemma {:induction false} HexMatchesComplete(n: nat, s: string, from: nat, p: nat)
    requires from <= p && HexAt(n, s, p)
    ensures exists q :: from <= q <= p && HexAt(n, s, q) && p < q + 1 + n
                        && s[q..q + 1 + n] in HexMatches(n, s, from)
    decreases |s| - from
  {
    var next := if HexAt(n, s, from) then from + 1 + n else from + 1;
    HexMatchesStep(n, s, from);
    if HexAt(n, s, from) && p < next {
      assert s[from..next] in HexMatches(n, s, from);
    } else {
      HexMatchesComplete(n, s, next, p);
      var q :| next <= q <= p && HexAt(n, s, q) && p < q + 1 + n
               && s[q..q + 1 + n] in HexMatches(n, s, next);
    }
  }

  lemma {:induction false} HexMatchesStep(n: nat, s: string, from: nat)
    requires from < |s|
    ensures HexAt(n, s, from) ==> HexMatches(n, s, from) == [s[from..from + 1 + n]] + HexMatches(n, s, from + 1 + n)
    ensures !HexAt(n, s, from) ==> HexMatches(n, s, from) == HexMatches(n, s, from + 1)
  {
  }

  /** The hex lengths, longest first, so that a shorter pattern never claims
      the prefix of a longer literal. */
  const HexLengths: seq<nat> := [8, 6, 4, 3]

  // ------------------------------------------------------------- named words

  /** The class `[\s:;,(){}'"]` that separates words. */
  predicate IsWordDelimiter(c: char)
  {
    IsSpace(c) || c == ':' || c == ';' || c == ',' || c == '(' || c == ')' ||
    c == '{' || c == '}' || c == '\'' || c == '"'
  }

  /** `text.toLowerCase().split(/[\s:;,(){}'"]+/)`. */
  function Words(s: string): (r: seq<string>)
    ensures forall i, j :: 0 <= i < |r| && 0 <= j < |r[i]| ==> !IsWordDelimiter(r[i][j])
    ensures forall i, j :: 0 <= i < |r| && 0 <= j < |r[i]| ==> !IsUpperLetter(r[i][j])
  {
    var t := ToLower(s);
    SplitFieldsInherit(t, IsWordDelimiter, c => !IsUpperLetter(c));
    Split(t, IsWordDelimiter)
  }
}
