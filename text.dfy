/**
 * String primitives of the JavaScript runtime that the colour engine relies on:
 * the `\s` character class and `String.prototype.trim`, ASCII case mapping,
 * `startsWith`/`includes`/`indexOf`, `replace` with a literal pattern, `split`
 * on a run of delimiters, and the decimal rendering of a counter.
 */
module Text {

  datatype Option<T> = None | Some(value: T)

  /** The characters that JavaScript's `\s` and `trim()` treat as white space
      (WhiteSpace and LineTerminator of ECMA-262). */
  predicate IsSpace(c: char)
  {
    c == ' ' || c == '\t' || c == '\n' || c == '\U{000B}' || c == '\U{000C}' || c == '\r' ||
    c == '\U{00A0}' || c == '\U{1680}' || ('\U{2000}' <= c <= '\U{200A}') ||
    c == '\U{2028}' || c == '\U{2029}' || c == '\U{202F}' || c == '\U{205F}' ||
    c == '\U{3000}' || c == '\U{FEFF}'
  }

  predicate IsDigit(c: char) { '0' <= c <= '9' }

  predicate IsHexDigit(c: char) { IsDigit(c) || 'a' <= c <= 'f' || 'A' <= c <= 'F' }

  predicate IsLowerLetter(c: char) { 'a' <= c <= 'z' }

  predicate IsUpperLetter(c: char) { 'A' <= c <= 'Z' }

  /** JavaScript's `\w` without the `u` flag: `[A-Za-z0-9_]`. */
  predicate IsWordChar(c: char) { IsLowerLetter(c) || IsUpperLetter(c) || IsDigit(c) || c == '_' }

  function LowerChar(c: char): (d: char)
    ensures !IsUpperLetter(d)
    ensures IsUpperLetter(c) || d == c
  {
    if IsUpperLetter(c) then (c as int - 'A' as int + 'a' as int) as char else c
  }

  /** `toLowerCase()` restricted to the ASCII letters. */
  function ToLower(s: string): (r: string)
    ensures |r| == |s|
    ensures forall i :: 0 <= i < |s| ==> r[i] == LowerChar(s[i])
  {
    if s == [] then [] else [LowerChar(s[0])] + ToLower(s[1..])
  }

  lemma {:induction false} ToLowerIdempotent(s: string)
    ensures ToLower(ToLower(s)) == ToLower(s)
  {
    if s != [] {
      ToLowerIdempotent(s[1..]);
      assert ToLower(s)[1..] == ToLower(s[1..]);
    }
  }

  lemma {:induction false} ToLowerConcat(a: string, b: string)
    ensures ToLower(a + b) == ToLower(a) + ToLower(b)
  {
  }

  predicate AllSpaces(s: string)
  {
    forall i :: 0 <= i < |s| ==> IsSpace(s[i])
  }

  /** The index of the first non-space character at or after `i` (or `|s|`). */
  function SkipSpaces(s: string, i: nat): (j: nat)
    requires i <= |s|
    ensures i <= j <= |s|
    ensures forall k :: i <= k < j ==> IsSpace(s[k])
    ensures j < |s| ==> !IsSpace(s[j])
    decreases |s| - i
  {
    if i < |s| && IsSpace(s[i]) then SkipSpaces(s, i + 1) else i
  }

  /** The end of `s[..j]` once its trailing spaces are dropped. */
  function TrimmedEnd(s: string, j: nat): (k: nat)
    requires j <= |s|
    ensures k <= j
    ensures forall i :: k <= i < j ==> IsSpace(s[i])
    ensures k > 0 ==> !IsSpace(s[k - 1])
  {
    if j > 0 && IsSpace(s[j - 1]) then TrimmedEnd(s, j - 1) else j
  }

  /** `String.prototype.trim()`. */
  function Trim(s: string): (r: string)
    ensures |r| <= |s|
    ensures r == [] <==> AllSpaces(s)
    ensures r != [] ==> !IsSpace(r[0]) && !IsSpace(r[|r| - 1])
  {
    var i := SkipSpaces(s, 0);
    var j := if i == |s| then i else TrimmedEnd(s, |s|);
    assert i == |s| ==> s[0..i] == s;
    s[i..j]
  }

  predicate NoSpaces(s: string)
  {
    forall t :: 0 <= t < |s| ==> !IsSpace(s[t])
  }

  /** A word of lower-case letters holds no white space. */
  lemma {:induction false} LowerWordNoSpaces(s: string)
    requires forall t :: 0 <= t < |s| ==> IsLowerLetter(s[t])
    ensures NoSpaces(s)
  {
    forall t | 0 <= t < |s| ensures !IsSpace(s[t]) {
      assert IsLowerLetter(s[t]);
    }
  }

  /** Trimming never removes an occurrence, found without regard to ASCII
      case, of a pattern that holds no white space. */
  lemma {:induction false} TrimKeepsPattern(s: string, pat: string)
    requires pat != [] && NoSpaces(pat)
    requires Contains(ToLower(s), pat)
    ensures Contains(ToLower(Trim(s)), pat)
  {
    var i, j := TrimBounds(s);
    KeepsPatternBetween(s, pat, i, j);
  }

  lemma {:induction false} KeepsPatternBetween(s: string, pat: string, i: nat, j: nat)
    requires pat != [] && NoSpaces(pat)
    requires i <= j <= |s| && AllSpaces(s[..i]) && AllSpaces(s[j..])
    requires Contains(ToLower(s), pat)
    ensures Contains(ToLower(s[i..j]), pat)
  {
    var k := IndexOf(ToLower(s), pat, 0).value;
    OccurrenceInside(s, pat, i, j, k);
    SliceKeepsOccurrence(s, pat, i, j, k);
    ContainsWitness(ToLower(s[i..j]), pat, k - i);
  }

  lemma {:induction false} SliceKeepsOccurrence(s: string, pat: string, i: nat, j: nat, k: nat)
    requires i <= k && k + |pat| <= j <= |s| && OccursAt(ToLower(s), pat, k)
    ensures OccursAt(ToLower(s[i..j]), pat, k - i)
  {
    OccursInSlice(ToLower(s), pat, i, j, k);
    ToLowerSlice(s, i, j);
  }

  /** An occurrence of a pattern without white space lies between the
      leading and the trailing white space. */
  lemma {:induction false} OccurrenceInside(s: string, pat: string, i: nat, j: nat, k: nat)
    requires pat != [] && NoSpaces(pat)
    requires i <= j <= |s| && AllSpaces(s[..i]) && AllSpaces(s[j..])
    requires OccursAt(ToLower(s), pat, k)
    ensures i <= k && k + |pat| <= j
  {
    var last := k + |pat| - 1;
    OccursAtChar(ToLower(s), pat, k, 0);
    OccursAtChar(ToLower(s), pat, k, |pat| - 1);
    LowerKeepsSpace(s[k]);
    LowerKeepsSpace(s[last]);
    SpaceBefore(s, i, k);
    SpaceAfter(s, j, last);
  }

  lemma {:induction false} LowerKeepsSpace(c: char)
    ensures IsSpace(c) ==> LowerChar(c) == c
  {
  }

  lemma {:induction false} SpaceBefore(s: string, i: nat, k: nat)
    requires i <= |s| && AllSpaces(s[..i]) && k < |s| && !IsSpace(s[k])
    ensures i <= k
  {
  }

  lemma {:induction false} SpaceAfter(s: string, j: nat, k: nat)
    requires j <= |s| && AllSpaces(s[j..]) && k < |s| && !IsSpace(s[k])
    ensures k < j
  {
  }

  lemma {:induction false} OccursAtChar(s: string, pat: string, k: nat, t: nat)
    requires OccursAt(s, pat, k) && t < |pat|
    ensures s[k + t] == pat[t]
  {
    assert s[k..k + |pat|][t] == s[k + t];
  }

  lemma {:induction false} OccursInSlice(s: string, pat: string, i: nat, j: nat, k: nat)
    requires i <= k && k + |pat| <= j <= |s| && OccursAt(s, pat, k)
    ensures OccursAt(s[i..j], pat, k - i)
  {
    var sub := s[i..j];
    assert forall x :: k - i <= x < k - i + |pat| ==> sub[x] == s[x + i];
    assert sub[k - i..k - i + |pat|] == s[k..k + |pat|];
  }

  lemma {:induction false} ToLowerSlice(s: string, i: nat, j: nat)
    requires i <= j <= |s|
    ensures ToLower(s[i..j]) == ToLower(s)[i..j]
  {
    var a, b := ToLower(s[i..j]), ToLower(s)[i..j];
    forall x | 0 <= x < |a| ensures a[x] == b[x] {
      assert s[i..j][x] == s[i + x];
    }
  }

  lemma {:induction false} TrimBounds(s: string) returns (i: nat, j: nat)
    ensures i <= j <= |s| && Trim(s) == s[i..j] && AllSpaces(s[..i]) && AllSpaces(s[j..])
  {
    i := SkipSpaces(s, 0);
    j := if i == |s| then i else TrimmedEnd(s, |s|);
    assert s[..i] == s[0..i];
  }

  /** Trimming twice is trimming once. */
  lemma {:induction false} TrimIdempotent(s: string)
    ensures Trim(Trim(s)) == Trim(s)
  {
    var t := Trim(s);
    if t != [] {
      assert SkipSpaces(t, 0) == 0;
      assert TrimmedEnd(t, |t|) == |t|;
      assert t[0..|t|] == t;
    }
  }

  /** A text without white space is its own trimmed form. */
  lemma {:induction false} TrimWithoutSpaces(w: string)
    requires forall i :: 0 <= i < |w| ==> !IsSpace(w[i])
    ensures Trim(w) == w
  {
    if w != [] {
      assert SkipSpaces(w, 0) == 0;
      assert TrimmedEnd(w, |w|) == |w|;
      assert w[0..|w|] == w;
    }
  }

  /** A text without upper-case letters is its own lower-cased form. */
  lemma {:induction false} ToLowerFixed(w: string)
    requires forall i :: 0 <= i < |w| ==> !IsUpperLetter(w[i])
    ensures ToLower(w) == w
  {
    assert forall i :: 0 <= i < |w| ==> ToLower(w)[i] == w[i];
  }

  predicate StartsWith(s: string, prefix: string)
  {
    |prefix| <= |s| && s[..|prefix|] == prefix
  }

  predicate EndsWith(s: string, suffix: string)
  {
    |suffix| <= |s| && s[|s| - |suffix|..] == suffix
  }

  /** `pat` occurs in `s` starting at index `k`. */
  predicate OccursAt(s: string, pat: string, k: nat)
  {
    k + |pat| <= |s| && s[k..k + |pat|] == pat
  }

  /** `s.indexOf(pat, from)`: the first occurrence of `pat` at or after `from`. */
  function IndexOf(s: string, pat: string, from: nat): (r: Option<nat>)
    ensures r.Some? ==> from <= r.value && OccursAt(s, pat, r.value)
    ensures r.Some? ==> forall k :: from <= k < r.value ==> !OccursAt(s, pat, k)
    ensures r.None? ==> forall k :: from <= k ==> !OccursAt(s, pat, k)
    decreases |s| + 1 - from
  {
    if from + |pat| > |s| then None
    else if s[from..from + |pat|] == pat then Some(from)
    else IndexOf(s, pat, from + 1)
  }

  /** `s.includes(pat)`. */
  predicate Contains(s: string, pat: string)
  {
    IndexOf(s, pat, 0).Some?
  }

  lemma {:induction false} ContainsWitness(s: string, pat: string, k: nat)
    requires OccursAt(s, pat, k)
    ensures Contains(s, pat)
  {
  }

  lemma {:induction false} ContainsInSlice(s: string, pat: string, i: nat, j: nat)
    requires i <= j <= |s| && Contains(s[i..j], pat)
    ensures Contains(s, pat)
  {
    var t := s[i..j];
    var k := IndexOf(t, pat, 0).value;
    assert OccursAt(t, pat, k);
    forall x | 0 <= x < |pat| ensures s[i + k + x] == pat[x] {
      assert t[k..k + |pat|][x] == t[k + x] == s[i + k + x];
    }
    assert s[i + k..i + k + |pat|] == pat;
    ContainsWitness(s, pat, i + k);
  }

  /** `s.replace(pat, rep)` with a literal (or fully escaped) pattern: only the
      first occurrence is replaced, and nothing happens when there is none. */
  function ReplaceFirst(s: string, pat: string, rep: string): (r: string)
    ensures !Contains(s, pat) ==> r == s
    ensures Contains(s, pat) ==>
      var k := IndexOf(s, pat, 0).value;
      r == s[..k] + rep + s[k + |pat|..] && |r| == |s| - |pat| + |rep|
  {
    match IndexOf(s, pat, 0)
    case None => s
    case Some(k) => s[..k] + rep + s[k + |pat|..]
  }

  /** The number of times `c` appears in `s`. */
  function Count(s: string, c: char): (n: nat)
    ensures n <= |s|
    ensures n == 0 <==> c !in s
  {
    if s == [] then 0 else (if s[0] == c then 1 else 0) + Count(s[1..], c)
  }

  lemma {:induction false} CountConcat(a: string, b: string, c: char)
    ensures Count(a + b, c) == Count(a, c) + Count(b, c)
  {
    if a != [] {
      assert (a + b)[0] == a[0] && (a + b)[1..] == a[1..] + b;
      CountConcat(a[1..], b, c);
    } else {
      assert a + b == b;
    }
  }

  /** Replacing an occurrence of a pattern that holds `c` by a text without `c`
      lowers the number of `c` in the text. */
  lemma {:induction false} ReplaceFirstLowersCount(s: string, pat: string, rep: string, c: char)
    requires Contains(s, pat) && c in pat && c !in rep
    ensures Count(ReplaceFirst(s, pat, rep), c) < Count(s, c)
  {
    var k := IndexOf(s, pat, 0).value;
    assert s == s[..k] + pat + s[k + |pat|..];
    CountConcat(s[..k] + pat, s[k + |pat|..], c);
    CountConcat(s[..k], pat, c);
    CountConcat(s[..k] + rep, s[k + |pat|..], c);
    CountConcat(s[..k], rep, c);
  }

  /** `s.replace(/pat/gi, '')` for a lower-case literal `pat`: every
      non-overlapping occurrence, matched without regard to ASCII case and
      found from left to right, is deleted. */
  function RemoveAllCI(s: string, pat: string): (r: string)
    requires pat != []
    ensures |r| <= |s|
    ensures (forall k :: 0 <= k ==> !OccursAt(ToLower(s), pat, k)) ==> r == s
    decreases |s|
  {
    if |s| < |pat| then s
    else if ToLower(s[..|pat|]) == pat then
      assert OccursAt(ToLower(s), pat, 0) by {
        ToLowerConcat(s[..|pat|], s[|pat|..]);
        assert s == s[..|pat|] + s[|pat|..];
      }
      RemoveAllCI(s[|pat|..], pat)
    else
      assert forall k :: 0 <= k && OccursAt(ToLower(s[1..]), pat, k) ==> OccursAt(ToLower(s), pat, k + 1) by {
        forall k | 0 <= k && OccursAt(ToLower(s[1..]), pat, k)
          ensures OccursAt(ToLower(s), pat, k + 1)
        {
          assert ToLower(s)[k + 1..k + 1 + |pat|] == ToLower(s[1..])[k..k + |pat|];
        }
      }
      [s[0]] + RemoveAllCI(s[1..], pat)
  }

  /** Deleting shortens the text by whole copies of the pattern. */
  lemma {:induction false} RemoveAllCIWhole(s: string, pat: string)
    requires pat != []
    ensures MultipleOf(|s| - |RemoveAllCI(s, pat)|, |pat|)
    decreases |s|
  {
    if |s| < |pat| {
      assert |s| - |RemoveAllCI(s, pat)| == 0 * |pat|;
    } else if ToLower(s[..|pat|]) == pat {
      RemoveAllCIWhole(s[|pat|..], pat);
      RemovedAtMatch(s, pat);
      MultipleOfStep(|s| - |RemoveAllCI(s, pat)|, |s[|pat|..]| - |RemoveAllCI(s[|pat|..], pat)|, |pat|);
    } else {
      RemoveAllCIWhole(s[1..], pat);
      RemovedPastMiss(s, pat);
    }
  }

  /** How much one step of the deletion shortens the text: a whole copy of
      the pattern where it matches, nothing where it does not. */
  lemma {:induction false} RemovedAtMatch(s: string, pat: string)
    requires pat != [] && |s| >= |pat| && ToLower(s[..|pat|]) == pat
    ensures |s| - |RemoveAllCI(s, pat)| == |s[|pat|..]| - |RemoveAllCI(s[|pat|..], pat)| + |pat|
  {
    assert RemoveAllCI(s, pat) == RemoveAllCI(s[|pat|..], pat);
  }

  lemma {:induction false} RemovedPastMiss(s: string, pat: string)
    requires pat != [] && |s| >= |pat| && ToLower(s[..|pat|]) != pat
    ensures |s| - |RemoveAllCI(s, pat)| == |s[1..]| - |RemoveAllCI(s[1..], pat)|
  {
    assert RemoveAllCI(s, pat) == [s[0]] + RemoveAllCI(s[1..], pat);
  }

  /** Deleting shortens the text by at least one copy of the pattern when the
      pattern occurs in it at all. */
  lemma {:induction false} RemoveAllCIShortens(s: string, pat: string, k: nat)
    requires pat != [] && OccursAt(ToLower(s), pat, k)
    ensures |RemoveAllCI(s, pat)| <= |s| - |pat|
    decreases |s|
  {
    if ToLower(s[..|pat|]) == pat {
      assert |s| >= |pat|;
    } else {
      assert k != 0 by {
        assert ToLower(s[..|pat|]) == ToLower(s)[..|pat|];
      }
      var t := s[1..];
      assert ToLower(t)[k - 1..k - 1 + |pat|] == ToLower(s)[k..k + |pat|];
      RemoveAllCIShortens(t, pat, k - 1);
    }
  }

  lemma {:induction false} MultipleOfStep(n: int, m: int, d: nat)
    requires MultipleOf(m, d) && n == m + d
    ensures MultipleOf(n, d)
  {
    var c: nat :| m == c * d;
    assert n == (c + 1) * d;
  }

  /** `n` is a sum of copies of `d`: what deleting whole occurrences of a
      pattern of length `d` can shorten a text by. */
  ghost predicate MultipleOf(n: int, d: nat)
  {
    exists c: nat :: n == c * d
  }

  /** `s.split(/[D]+/)` for a delimiter class `D`: the fields between maximal
      runs of delimiters (the first and last field are empty when `s` starts or
      ends with a delimiter). */
  function Split(s: string, delim: char -> bool): (r: seq<string>)
    ensures |r| >= 1
    ensures forall i, j :: 0 <= i < |r| && 0 <= j < |r[i]| ==> !delim(r[i][j])
    decreases |s|
  {
    var i := FirstWhere(s, delim, 0);
    if i == |s| then [s]
    else
      var j := RunEnd(s, delim, i);
      [s[..i]] + Split(s[j..], delim)
  }

  /** A text without delimiters is one field. */
  lemma {:induction false} SplitNone(s: string, delim: char -> bool)
    requires forall k :: 0 <= k < |s| ==> !delim(s[k])
    ensures Split(s, delim) == [s]
  {
  }

  /** A text whose first delimiter run spans `i` to `j` splits into the
      text before `i` and the fields of the text from `j`. */
  lemma {:induction false} SplitAt(s: string, delim: char -> bool, i: nat, j: nat)
    requires i < j <= |s|
    requires forall k :: 0 <= k < i ==> !delim(s[k])
    requires forall k :: i <= k < j ==> delim(s[k])
    requires j == |s| || !delim(s[j])
    ensures Split(s, delim) == [s[..i]] + Split(s[j..], delim)
  {
    FirstWhereIs(s, delim, 0, i);
    RunEndIs(s, delim, i, j);
  }

  /** A character that is not a delimiter joins the first field. */
  lemma {:induction false} SplitCons(c: char, x: string, delim: char -> bool)
    requires !delim(c)
    ensures Split([c] + x, delim) == [[c] + Split(x, delim)[0]] + Split(x, delim)[1..]
  {
    var y := [c] + x;
    var f := FirstWhere(x, delim, 0);
    forall k | 0 <= k < f + 1 ensures !delim(y[k]) {
      if k > 0 {
        assert y[k] == x[k - 1];
      }
    }
    if f < |x| {
      assert y[f + 1] == x[f];
    }
    FirstWhereIs(y, delim, 0, f + 1);
    if f < |x| {
      var j := RunEnd(x, delim, f);
      forall k | f + 1 <= k < j + 1 ensures delim(y[k]) {
        assert y[k] == x[k - 1];
      }
      if j < |x| {
        assert y[j + 1] == x[j];
      }
      RunEndIs(y, delim, f + 1, j + 1);
      assert y[..f + 1] == [c] + x[..f];
      assert y[j + 1..] == x[j..];
    }
  }

  lemma {:induction false} FirstWhereIs(s: string, delim: char -> bool, i: nat, f: nat)
    requires i <= f <= |s|
    requires forall k :: i <= k < f ==> !delim(s[k])
    requires f == |s| || delim(s[f])
    ensures FirstWhere(s, delim, i) == f
    decreases f - i
  {
    if i < f {
      FirstWhereIs(s, delim, i + 1, f);
    }
  }

  lemma {:induction false} RunEndIs(s: string, delim: char -> bool, i: nat, j: nat)
    requires i < j <= |s|
    requires forall k :: i <= k < j ==> delim(s[k])
    requires j == |s| || !delim(s[j])
    ensures RunEnd(s, delim, i) == j
    decreases j - i
  {
    if i + 1 < j {
      RunEndIs(s, delim, i + 1, j);
    }
  }

  /** Every character of every field is a character of `s`, so a property of
      all of the characters of `s` holds of those of the fields. */
  lemma {:induction false} SplitFieldsInherit(s: string, delim: char -> bool, P: char -> bool)
    requires forall k :: 0 <= k < |s| ==> P(s[k])
    ensures forall i, j :: 0 <= i < |Split(s, delim)| && 0 <= j < |Split(s, delim)[i]| ==> P(Split(s, delim)[i][j])
    decreases |s|
  {
    var i := FirstWhere(s, delim, 0);
    if i < |s| {
      var j := RunEnd(s, delim, i);
      SplitFieldsInherit(s[j..], delim, P);
      var r := Split(s, delim);
      assert r == [s[..i]] + Split(s[j..], delim);
      forall a, b | 0 <= a < |r| && 0 <= b < |r[a]| ensures P(r[a][b]) {
        if a > 0 {
          assert r[a] == Split(s[j..], delim)[a - 1];
        }
      }
    }
  }

  /** The first index at or after `i` whose character is a delimiter (or `|s|`). */
  function FirstWhere(s: string, delim: char -> bool, i: nat): (j: nat)
    requires i <= |s|
    ensures i <= j <= |s|
    ensures forall k :: i <= k < j ==> !delim(s[k])
    ensures j < |s| ==> delim(s[j])
    decreases |s| - i
  {
    if i == |s| || delim(s[i]) then i else FirstWhere(s, delim, i + 1)
  }

  /** The end of the run of delimiters that starts at `i`. */
  function RunEnd(s: string, delim: char -> bool, i: nat): (j: nat)
    requires i < |s| && delim(s[i])
    ensures i < j <= |s|
    ensures forall k :: i <= k < j ==> delim(s[k])
    ensures j < |s| ==> !delim(s[j])
    decreases |s| - i
  {
    if i + 1 < |s| && delim(s[i + 1]) then RunEnd(s, delim, i + 1) else i + 1
  }

  /** The characters of `s` that are not delimiters, in order. */
  function Keep(s: string, delim: char -> bool): (r: string)
  {
    if s == [] then [] else (if delim(s[0]) then [] else [s[0]]) + Keep(s[1..], delim)
  }

  function Concat(ss: seq<string>): string
  {
    if ss == [] then [] else ss[0] + Concat(ss[1..])
  }

  lemma {:induction false} KeepConcat(a: string, b: string, delim: char -> bool)
    ensures Keep(a + b, delim) == Keep(a, delim) + Keep(b, delim)
  {
    if a != [] {
      assert (a + b)[0] == a[0] && (a + b)[1..] == a[1..] + b;
      KeepConcat(a[1..], b, delim);
    } else {
      assert a + b == b;
    }
  }

  lemma {:induction false} KeepAll(s: string, delim: char -> bool)
    requires forall k :: 0 <= k < |s| ==> !delim(s[k])
    ensures Keep(s, delim) == s
  {
    if s != [] {
      KeepAll(s[1..], delim);
    }
  }

  lemma {:induction false} KeepNone(s: string, delim: char -> bool)
    requires forall k :: 0 <= k < |s| ==> delim(s[k])
    ensures Keep(s, delim) == []
  {
    if s != [] {
      KeepNone(s[1..], delim);
    }
  }

  /** A prefix without delimiters is kept whole. */
  lemma {:induction false} KeepFrom(s: string, delim: char -> bool, i: nat)
    requires i <= |s| && forall k :: 0 <= k < i ==> !delim(s[k])
    ensures Keep(s, delim) == s[..i] + Keep(s[i..], delim)
  {
    if i > 0 {
      KeepFrom(s[1..], delim, i - 1);
      assert s[1..][i - 1..] == s[i..];
      assert s[..i] == [s[0]] + s[1..][..i - 1];
    }
  }

  /** A prefix of delimiters is dropped whole. */
  lemma {:induction false} KeepSkips(s: string, delim: char -> bool, n: nat)
    requires n <= |s| && forall k :: 0 <= k < n ==> delim(s[k])
    ensures Keep(s, delim) == Keep(s[n..], delim)
  {
    if n > 0 {
      KeepSkips(s[1..], delim, n - 1);
      assert s[1..][n - 1..] == s[n..];
    }
  }

  /** The non-delimiters of a text whose middle part is all delimiters are
      those of its two ends. */
  lemma {:induction false} KeepAround(s: string, delim: char -> bool, i: nat, j: nat)
    requires i <= j <= |s|
    requires forall k :: 0 <= k < i ==> !delim(s[k])
    requires forall k :: i <= k < j ==> delim(s[k])
    ensures Keep(s, delim) == s[..i] + Keep(s[j..], delim)
  {
    KeepFrom(s, delim, i);
    var t := s[i..];
    forall k | 0 <= k < j - i ensures delim(t[k]) {
      assert t[k] == s[i + k];
    }
    KeepSkips(t, delim, j - i);
    assert t[j - i..] == s[j..];
  }

  /** Splitting loses exactly the delimiters: the fields, put back together,
      are the non-delimiter characters of `s` in their original order. */
  lemma {:induction false} SplitKeepsText(s: string, delim: char -> bool)
    ensures Concat(Split(s, delim)) == Keep(s, delim)
    decreases |s|
  {
    var i := FirstWhere(s, delim, 0);
    if i == |s| {
      KeepAll(s, delim);
    } else {
      var j := RunEnd(s, delim, i);
      SplitKeepsText(s[j..], delim);
      assert Concat(Split(s, delim)) == s[..i] + Concat(Split(s[j..], delim));
      KeepAround(s, delim, i, j);
    }
  }

  function DigitChar(d: nat): (c: char)
    requires d < 10
    ensures IsDigit(c)
  {
    ('0' as int + d) as char
  }

  /** The decimal numeral of `n`, as `${n}` renders it. */
  function NatToString(n: nat): (r: string)
    ensures |r| >= 1
    ensures forall i :: 0 <= i < |r| ==> IsDigit(r[i])
    ensures r[0] == '0' ==> n == 0
    ensures |r| == 1 <==> n < 10
  {
    if n < 10 then [DigitChar(n)] else NatToString(n / 10) + [DigitChar(n % 10)]
  }

  /** Distinct numbers have distinct numerals. */
  lemma {:induction false} NatToStringInjective(m: nat, n: nat)
    requires NatToString(m) == NatToString(n)
    ensures m == n
  {
    if m >= 10 {
      var a, b := NatToString(m / 10), NatToString(n / 10);
      assert a == NatToString(m)[..|NatToString(m)| - 1];
      assert b == NatToString(n)[..|NatToString(n)| - 1];
      NatToStringInjective(m / 10, n / 10);
    }
  }
}
