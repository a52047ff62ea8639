/**
 * The `exec` loop of the functional pass resumes each search at the end of the
 * previous match, in the working copy as it is after that match was replaced
 * by the 15-character marker. A match longer than the marker plus the text
 * that follows it pushes the resume point past the start of the next colour.
 */
module ExecSkip {
  import opened Text
  import opened Validator
  import opened Recognizers
  import opened Extractor

  /** A typical pair of colours, as in `box-shadow` or a palette list. */
  const White: string := "rgb(255, 255, 255)"
  const Black: string := "rgb(0, 0, 0)"
  const Pair: string := White + ", " + Black

  /** No match of kind `k` starts where the first letter of its name is absent. */
  lemma {:induction false} NoMatchWithoutInitial(k: FnKind, s: string, p: nat)
    requires p < |s| ==> LowerChar(s[p]) != FnName(k)[0]
    ensures FnAt(k, s, p).None?
  {
    if p + |FnName(k)| <= |s| {
      assert LowerChar(s[p]) != FnName(k)[0];
    }
  }

  lemma {:induction false} RunTo(s: string, i: nat, j: nat, cls: char -> bool)
    requires i <= j <= |s|
    requires forall k :: i <= k < j ==> cls(s[k])
    requires j < |s| ==> !cls(s[j])
    ensures RunFrom(s, i, cls) == j
  {
  }

  lemma {:induction false} SkipTo(s: string, i: nat, j: nat)
    requires i <= j <= |s|
    requires forall k :: i <= k < j ==> IsSpace(s[k])
    requires j < |s| ==> !IsSpace(s[j])
    ensures SkipSpaces(s, i) == j
  {
  }

  /** A component of three digits followed by neither a digit, a dot nor `%`. */
  lemma {:induction false} Pct3At(s: string, i: nat)
    requires i + 3 < |s| && IsDigit(s[i]) && IsDigit(s[i + 1]) && IsDigit(s[i + 2])
    requires !IsNumChar(s[i + 3]) && s[i + 3] != '%'
    ensures NumberEnd(Pct, s, i) == Some(i + 3)
  {
    RunTo(s, i, i + 3, IsNumChar);
  }

  /** A component of one digit followed by neither a digit, a dot nor `%`. */
  lemma {:induction false} Pct1At(s: string, i: nat)
    requires i + 1 < |s| && IsDigit(s[i]) && !IsNumChar(s[i + 1]) && s[i + 1] != '%'
    ensures NumberEnd(Pct, s, i) == Some(i + 1)
  {
    RunTo(s, i, i + 1, IsNumChar);
  }

  /** `, ` between two components. */
  lemma {:induction false} CommaSpaceAt(s: string, i: nat)
    requires i + 2 < |s| && s[i] == ',' && s[i + 1] == ' ' && !IsSpace(s[i + 2])
    ensures CommaOrSpace(s, i) == Some(i + 2)
  {
    SkipTo(s, i, i);
    SkipTo(s, i + 1, i + 2);
  }

  lemma {:induction false} CloseAt(s: string, i: nat)
    requires i < |s| && s[i] == ')'
    ensures CloseEnd(true, s, i) == Some(i + 1)
  {
    SkipTo(s, i, i);
  }

  /** `rgb(` at `p` opens the call just after the parenthesis. */
  lemma {:induction false} RgbOpenerAt(s: string, p: nat)
    requires p + 4 <= |s| && s[p] == 'r' && s[p + 1] == 'g' && s[p + 2] == 'b' && s[p + 3] == '('
    ensures OpenerAt(Rgb, s, p) == Some(p + 4)
  {
    assert LiteralAtCI(s, "rgb", p);
    SkipTo(s, p + 3, p + 3);
  }

  lemma {:induction false} StepsConsAt(steps: seq<Step>, k: nat, s: string, i: nat, j: nat)
    requires k + 1 < |steps| && i <= |s| && StepEnd(steps[k], s, i) == Some(j)
    ensures StepsEnd(steps[k..], s, i) == StepsEnd(steps[k + 1..], s, j)
  {
    assert steps[k..][0] == steps[k];
    assert steps[k..][1..] == steps[k + 1..];
  }

  lemma {:induction false} StepsLastAt(steps: seq<Step>, s: string, i: nat)
    requires |steps| >= 1 && i <= |s|
    ensures StepsEnd(steps[|steps| - 1..], s, i) == StepEnd(steps[|steps| - 1], s, i)
  {
  }

  lemma {:induction false} RgbPattern()
    ensures Pattern(Rgb) == [Number(Pct), Separator, Number(Pct), Separator, Number(Pct), Close(true)]
  {
  }

  /** The last three rgb steps: a component and the closing parenthesis. */
  lemma {:induction false} RgbTail(s: string, j3: nat, j4: nat, j5: nat, j6: nat)
    requires j3 <= j4 <= j5 <= |s|
    requires CommaOrSpace(s, j3) == Some(j4)
    requires NumberEnd(Pct, s, j4) == Some(j5) && CloseEnd(true, s, j5) == Some(j6)
    ensures StepsEnd(Pattern(Rgb)[3..], s, j3) == Some(j6)
  {
    RgbPattern();
    var t := Pattern(Rgb);
    StepsConsAt(t, 3, s, j3, j4);
    StepsConsAt(t, 4, s, j4, j5);
    StepsLastAt(t, s, j5);
  }

  /** The rgb steps, composed from the ends of its six steps. */
  lemma {:induction false} RgbSteps(s: string, i: nat, j1: nat, j2: nat, j3: nat, j4: nat, j5: nat, j6: nat)
    requires i <= j1 <= j2 <= j3 <= j4 <= j5 <= |s|
    requires NumberEnd(Pct, s, i) == Some(j1) && CommaOrSpace(s, j1) == Some(j2)
    requires NumberEnd(Pct, s, j2) == Some(j3) && CommaOrSpace(s, j3) == Some(j4)
    requires NumberEnd(Pct, s, j4) == Some(j5) && CloseEnd(true, s, j5) == Some(j6)
    ensures StepsEnd(Pattern(Rgb), s, i) == Some(j6)
  {
    RgbPattern();
    var t := Pattern(Rgb);
    RgbTail(s, j3, j4, j5, j6);
    StepsConsAt(t, 0, s, i, j1);
    StepsConsAt(t, 1, s, j1, j2);
    StepsConsAt(t, 2, s, j2, j3);
    assert t[0..] == t;
  }

  lemma {:induction false} White1() ensures NumberEnd(Pct, Pair, 4) == Some(7) { Pct3At(Pair, 4); }
  lemma {:induction false} White2() ensures CommaOrSpace(Pair, 7) == Some(9) { CommaSpaceAt(Pair, 7); }
  lemma {:induction false} White3() ensures NumberEnd(Pct, Pair, 9) == Some(12) { Pct3At(Pair, 9); }
  lemma {:induction false} White4() ensures CommaOrSpace(Pair, 12) == Some(14) { CommaSpaceAt(Pair, 12); }
  lemma {:induction false} White5() ensures NumberEnd(Pct, Pair, 14) == Some(17) { Pct3At(Pair, 14); }
  lemma {:induction false} White6() ensures CloseEnd(true, Pair, 17) == Some(18) { CloseAt(Pair, 17); }
  lemma {:induction false} White0() ensures OpenerAt(Rgb, Pair, 0) == Some(4) && SkipSpaces(Pair, 4) == 4
  {
    RgbOpenerAt(Pair, 0);
    SkipTo(Pair, 4, 4);
  }

  lemma {:induction false} WhiteMatch()
    ensures FnAt(Rgb, Pair, 0) == Some(18)
  {
    White0();
    White1();
    White2();
    White3();
    White4();
    White5();
    White6();
    RgbSteps(Pair, 4, 7, 9, 12, 14, 17, 18);
  }

  lemma {:induction false} Black0() ensures OpenerAt(Rgb, Pair, 20) == Some(24) && SkipSpaces(Pair, 24) == 24
  {
    RgbOpenerAt(Pair, 20);
    SkipTo(Pair, 24, 24);
  }
  lemma {:induction false} Black1() ensures NumberEnd(Pct, Pair, 24) == Some(25) { Pct1At(Pair, 24); }
  lemma {:induction false} Black2() ensures CommaOrSpace(Pair, 25) == Some(27) { CommaSpaceAt(Pair, 25); }
  lemma {:induction false} Black3() ensures NumberEnd(Pct, Pair, 27) == Some(28) { Pct1At(Pair, 27); }
  lemma {:induction false} Black4() ensures CommaOrSpace(Pair, 28) == Some(30) { CommaSpaceAt(Pair, 28); }
  lemma {:induction false} Black5() ensures NumberEnd(Pct, Pair, 30) == Some(31) { Pct1At(Pair, 30); }
  lemma {:induction false} Black6() ensures CloseEnd(true, Pair, 31) == Some(32) { CloseAt(Pair, 31); }

  lemma {:induction false} BlackMatch()
    ensures FnAt(Rgb, Pair, 20) == Some(32)
  {
    Black0();
    Black1();
    Black2();
    Black3();
    Black4();
    Black5();
    Black6();
    RgbSteps(Pair, 24, 25, 27, 28, 30, 31, 32);
  }

  /** Between the two colours and after the second, no match starts. */
  lemma {:induction false} PairGaps()
    ensures FnAt(Rgb, Pair, 18).None? && FnAt(Rgb, Pair, 19).None? && FnAt(Rgb, Pair, 32).None?
  {
    assert |Pair| == 32 && Pair[18] == ',' && Pair[19] == ' ';
    NoMatchWithoutInitial(Rgb, Pair, 18);
    NoMatchWithoutInitial(Rgb, Pair, 19);
    NoMatchWithoutInitial(Rgb, Pair, 32);
  }

  lemma {:induction false} PairLength() ensures |White| == 18 && |Black| == 12 && |Pair| == 32 { }
  lemma {:induction false} WhitePrefix() ensures Pair[0..18] == White { }
  lemma {:induction false} BlackSuffix() ensures Pair[20..32] == Black && Pair[18..] == ", " + Black
  {
    assert Pair[18..] == ", " + Black;
  }

  lemma {:induction false} FirstFound()
    ensures FindFn(Rgb, Pair, 0) == Some((0, 18))
  {
    PairLength();
    WhiteMatch();
    assert FirstMatch(FnMatcher(Rgb, Pair), 0, 32) == Some((0, 18));
  }

  lemma {:induction false} SecondFound()
    ensures FindFn(Rgb, Pair, 18) == Some((20, 32))
  {
    PairLength();
    BlackMatch();
    PairGaps();
    var at := FnMatcher(Rgb, Pair);
    assert FirstMatch(at, 20, 32) == Some((20, 32));
    assert FirstMatch(at, 19, 32) == Some((20, 32));
    assert FirstMatch(at, 18, 32) == Some((20, 32));
  }

  lemma {:induction false} ScanEnds()
    ensures FindFn(Rgb, Pair, 32).None?
  {
    PairLength();
    PairGaps();
    var at := FnMatcher(Rgb, Pair);
    assert FirstMatch(at, 33, 32) == None;
    assert FirstMatch(at, 32, 32) == None;
  }

  lemma {:induction false} ScanStep(k: FnKind, s: string, from: nat, p: nat, e: nat)
    requires FindFn(k, s, from) == Some((p, e))
    ensures FnMatches(k, s, from) == [s[p..e]] + FnMatches(k, s, e)
  {
  }

  lemma {:induction false} ScanStops(k: FnKind, s: string, from: nat)
    requires FindFn(k, s, from).None?
    ensures FnMatches(k, s, from) == []
  {
  }

  /** The left-to-right scan of the pair finds both colours. */
  lemma {:induction false} PairScan()
    ensures FnMatches(Rgb, Pair, 0) == [White, Black]
  {
    FirstFound();
    SecondFound();
    ScanEnds();
    WhitePrefix();
    BlackSuffix();
    ScanStep(Rgb, Pair, 0, 0, 18);
    ScanStep(Rgb, Pair, 18, 20, 32);
    ScanStops(Rgb, Pair, 32);
  }

  lemma {:induction false} WhiteValid(accepts: string -> bool)
    requires accepts(White)
    ensures IsValidColor(accepts, White)
  {
    LongTextValid(accepts, White);
  }

  lemma {:induction false} BlackValid(accepts: string -> bool)
    requires accepts(Black)
    ensures IsValidColor(accepts, Black)
  {
    LongTextValid(accepts, Black);
  }

  /** A text longer than every skipped keyword, without surrounding white
      space and not starting like a number, is valid when the browser
      accepts it. */
  lemma {:induction false} LongTextValid(accepts: string -> bool, m: string)
    requires |m| > 7 && !IsSpace(m[0]) && !IsSpace(m[|m| - 1]) && !IsNumericChar(m[0])
    requires accepts(m)
    ensures IsValidColor(accepts, m)
  {
    SkipTo(m, 0, 0);
    assert TrimmedEnd(m, |m|) == |m|;
    assert m[0..|m|] == m;
    assert Trim(m) == m;
    assert |ToLower(m)| > 7;
  }

  /** The working copy after the first colour has been replaced. */
  function Rest(): string
  {
    Marker + Pair[18..]
  }

  lemma {:induction false} FirstReplaced()
    ensures ReplaceFirst(Pair, White, Marker) == Rest()
  {
    PairLength();
    WhitePrefix();
    assert IndexOf(Pair, White, 0) == Some(0);
    assert Pair[..0] + Marker + Pair[18..] == Rest();
  }

  lemma {:induction false} SecondInitialGone()
    ensures forall q :: 21 <= q < 32 ==> LowerChar(Pair[q]) != 'r'
  {
  }

  lemma {:induction false} FirstMatchNone(at: nat -> Option<nat>, from: nat, n: nat)
    requires forall p :: from <= p <= n ==> at(p).None?
    ensures FirstMatch(at, from, n).None?
    decreases n + 1 - from
  {
    if from <= n {
      FirstMatchNone(at, from + 1, n);
    }
  }

  /** Resuming at 18 in the new copy starts inside the second colour. */
  lemma {:induction false} ResumePastSecond()
    ensures FindFn(Rgb, Rest(), 18).None?
  {
    var r := Rest();
    assert |r| == 29;
    SecondInitialGone();
    forall p | 18 <= p <= 29
      ensures FnAt(Rgb, r, p).None?
    {
      if p < 29 {
        assert r[p] == Pair[p + 3];
      }
      NoMatchWithoutInitial(Rgb, r, p);
    }
    var at := FnMatcher(Rgb, r);
    forall p | 18 <= p <= 29
      ensures at(p).None?
    {
    }
    FirstMatchNone(at, 18, 29);
  }

  /** One step of the loop that accepts the match it finds. */
  lemma {:induction false} ExecAccepts(k: FnKind, colors: seq<string>, accepts: string -> bool, s: string, from: nat,
                    added: seq<string>, p: nat, e: nat)
    requires FindFn(k, s, from) == Some((p, e))
    requires s[p..e] !in colors + added && IsValidColor(accepts, s[p..e])
    ensures ExecPass(k, colors, accepts, s, from, added)
         == ExecPass(k, colors, accepts, ReplaceFirst(s, s[p..e], Marker), e, added + [s[p..e]])
  {
  }

  /** The loop ends when the search fails. */
  lemma {:induction false} ExecEnds(k: FnKind, colors: seq<string>, accepts: string -> bool, s: string, from: nat, added: seq<string>)
    requires FindFn(k, s, from).None?
    ensures ExecPass(k, colors, accepts, s, from, added) == (added, s)
  {
  }

  lemma {:induction false} ExecFirstSearch(accepts: string -> bool)
    requires accepts(White)
    ensures ExecPass(Rgb, [], accepts, Pair, 0, []) == ExecPass(Rgb, [], accepts, Rest(), 18, [White])
  {
    FirstFound();
    WhitePrefix();
    WhiteValid(accepts);
    FirstReplaced();
    ExecAccepts(Rgb, [], accepts, Pair, 0, [], 0, 18);
    assert [] + [White] == [White];
  }

  /** Admission of one more candidate that is valid and not yet listed. */
  lemma {:induction false} AdmitSnoc(accepts: string -> bool, colors: seq<string>, ms: seq<string>, m: string)
    requires m !in colors + Admit(accepts, colors, ms) && IsValidColor(accepts, m)
    ensures Admit(accepts, colors, ms + [m]) == Admit(accepts, colors, ms) + [m]
  {
    assert (ms + [m])[..|ms|] == ms;
  }

  /** Two different valid candidates are both admitted. */
  lemma {:induction false} AdmitTwo(accepts: string -> bool, a: string, b: string)
    requires a != b && IsValidColor(accepts, a) && IsValidColor(accepts, b)
    ensures Admit(accepts, [], [a, b]) == [a, b]
  {
    AdmitSnoc(accepts, [], [], a);
    assert [] + [a] == [a];
    AdmitSnoc(accepts, [], [a], b);
    assert [a] + [b] == [a, b];
  }

  /** The scan of the pair finds both colours, and the corrected pass keeps
      both. */
  lemma {:induction false} PassKeepsBothColors(accepts: string -> bool)
    requires accepts(White) && accepts(Black)
    ensures FnMatches(Rgb, Pair, 0) == [White, Black]
    ensures Admit(accepts, [], FnMatches(Rgb, Pair, 0)) == [White, Black]
  {
    PairScan();
    WhiteValid(accepts);
    BlackValid(accepts);
    PairLength();
    AdmitTwo(accepts, White, Black);
  }

  /** The source's loop keeps the first colour of the pair and drops the
      second; the dropped colour stays in the working copy. */
  lemma {:induction false} ExecPassDropsSecondColor(accepts: string -> bool)
    requires accepts(White) && accepts(Black)
    ensures ExecPass(Rgb, [], accepts, Pair, 0, []) == ([White], Marker + ", " + Black)
  {
    ExecFirstSearch(accepts);
    ResumePastSecond();
    ExecEnds(Rgb, [], accepts, Rest(), 18, [White]);
    BlackSuffix();
    assert Rest() == Marker + ", " + Black;
  }
}
