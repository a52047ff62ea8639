/**
 * `parse`: the editor's text is split into lines, each line goes through the
 * line extractor, and every colour found becomes an occurrence that carries
 * its 1-based line number. The occurrence list is rebuilt from scratch on
 * every parse.
 */
module Scanner {
  import opened Text
  import opened Validator
  import opened Classifier
  import opened LineParser

  /** One entry of `this.colors`. */
  datatype Occurrence = Occurrence(line: nat, name: string, value: string, kind: ColorType)

  /** `text.split('\n')`: the pieces between single newline characters; two
      adjacent newlines give an empty line, and the empty text one empty line. */
  function SplitLines(s: string): (r: seq<string>)
    ensures |r| >= 1
    ensures forall l :: l in r ==> '\n' !in l
  {
    if s == [] then [""]
    else if s[0] == '\n' then [""] + SplitLines(s[1..])
    else
      var rest := SplitLines(s[1..]);
      [[s[0]] + rest[0]] + rest[1..]
  }

  /** `lines.join('\n')`. */
  function JoinLines(ls: seq<string>): string
    requires |ls| >= 1
  {
    if |ls| == 1 then ls[0] else ls[0] + "\n" + JoinLines(ls[1..])
  }

  /** Joining the lines gives back the text. */
  lemma {:induction false} JoinSplit(s: string)
    ensures JoinLines(SplitLines(s)) == s
  {
    if s != [] {
      JoinSplit(s[1..]);
      var rest := SplitLines(s[1..]);
      if s[0] == '\n' {
        assert SplitLines(s)[1..] == rest;
      } else {
        var r := SplitLines(s);
        assert r[1..] == rest[1..];
        if |rest| == 1 {
          assert r == [[s[0]] + rest[0]];
        } else {
          assert rest == [rest[0]] + rest[1..];
          assert JoinLines(rest) == rest[0] + "\n" + JoinLines(rest[1..]);
        }
        assert s == [s[0]] + s[1..];
      }
    }
  }

  /** Splitting a join of newline-free lines gives back the lines. */
  lemma {:induction false} SplitJoin(ls: seq<string>)
    requires |ls| >= 1 && forall l :: l in ls ==> '\n' !in l
    ensures SplitLines(JoinLines(ls)) == ls
    decreases |ls|, |ls[0]|
  {
    if |ls| == 1 {
      SplitNoNewline(ls[0]);
    } else if ls[0] == [] {
      assert JoinLines(ls) == "\n" + JoinLines(ls[1..]);
      SplitJoin(ls[1..]);
      assert JoinLines(ls)[1..] == JoinLines(ls[1..]);
    } else {
      var first := ls[0];
      var shorter := [first[1..]] + ls[1..];
      assert first in ls;
      assert forall c :: c in first[1..] ==> c in first;
      assert forall l :: l in shorter ==> '\n' !in l;
      SplitJoin(shorter);
      assert shorter[1..] == ls[1..];
      assert JoinLines(shorter) == first[1..] + "\n" + JoinLines(ls[1..]);
      assert JoinLines(ls) == [first[0]] + JoinLines(shorter);
      assert JoinLines(ls)[1..] == JoinLines(shorter);
      assert [first[0]] + first[1..] == first;
      var joined := JoinLines(ls);
      assert joined[0] == first[0] != '\n';
      assert SplitLines(joined) == [[first[0]] + first[1..]] + ls[1..];
      assert ls == [first] + ls[1..];
    }
  }

  lemma {:induction false} SplitNoNewline(s: string)
    requires '\n' !in s
    ensures SplitLines(s) == [s]
  {
    if s != [] {
      assert '\n' !in s[1..];
      SplitNoNewline(s[1..]);
      assert [s[0]] + s[1..] == s;
    }
  }

  /** The occurrences of the entries of one line. */
  function Tag(n: nat, infos: seq<ColorInfo>): (r: seq<Occurrence>)
    ensures |r| == |infos|
    ensures forall i :: 0 <= i < |r| ==>
      r[i] == Occurrence(n, infos[i].name, infos[i].value, infos[i].kind)
  {
    if infos == [] then []
    else
      var c := infos[|infos| - 1];
      Tag(n, infos[..|infos| - 1]) + [Occurrence(n, c.name, c.value, c.kind)]
  }

  /** The line extractor with its browser verdict and keyword set fixed. */
  function LineExtractor(accepts: string -> bool, named: set<string>): string -> seq<ColorInfo>
  {
    line => ColorsFromLine(line, accepts, named)
  }

  /** The occurrence list `parse` builds from `lines` with the line extractor
      `extract`: line `idx` contributes its entries with the number
      `idx + 1`. */
  function Occurrences(lines: seq<string>, extract: string -> seq<ColorInfo>): seq<Occurrence>
  {
    if lines == [] then []
    else Occurrences(lines[..|lines| - 1], extract) + Tag(|lines|, extract(lines[|lines| - 1]))
  }

  lemma {:induction false} OccurrencesStep(lines: seq<string>, extract: string -> seq<ColorInfo>, i: nat)
    requires i < |lines|
    ensures Occurrences(lines[..i + 1], extract) == Occurrences(lines[..i], extract) + Tag(i + 1, extract(lines[i]))
  {
    assert lines[..i + 1][..i] == lines[..i];
  }

  /** Every line number lies between 1 and the number of lines. */
  lemma {:induction false} LinesInRange(lines: seq<string>, extract: string -> seq<ColorInfo>)
    ensures forall o :: o in Occurrences(lines, extract) ==> 1 <= o.line <= |lines|
  {
    if lines != [] {
      LinesInRange(lines[..|lines| - 1], extract);
    }
  }

  /** Every occurrence is a valid colour with its classification and a
      non-empty name. */
  lemma {:induction false} OccurrencesValid(lines: seq<string>, accepts: string -> bool, named: set<string>)
    ensures forall o :: o in Occurrences(lines, LineExtractor(accepts, named)) ==>
      IsValidColor(accepts, o.value) && o.kind == GetColorType(o.value) && o.name != []
  {
    if lines != [] {
      OccurrencesValid(lines[..|lines| - 1], accepts, named);
      LineEntries(lines[|lines| - 1], accepts, named);
    }
  }

  predicate LinesOrdered(r: seq<Occurrence>)
  {
    forall i, j :: 0 <= i <= j < |r| ==> r[i].line <= r[j].line
  }

  /** Occurrences come in non-decreasing line order. */
  lemma {:induction false} OccurrencesOrdered(lines: seq<string>, extract: string -> seq<ColorInfo>)
    ensures LinesOrdered(Occurrences(lines, extract))
  {
    if lines != [] {
      var init := lines[..|lines| - 1];
      OccurrencesOrdered(init, extract);
      LinesInRange(init, extract);
      var a := Occurrences(init, extract);
      var b := Tag(|lines|, extract(lines[|lines| - 1]));
      var r := a + b;
      assert r == Occurrences(lines, extract);
      forall i, j | 0 <= i <= j < |r| ensures r[i].line <= r[j].line {
        if j < |a| {
          assert r[i] == a[i] && r[j] == a[j];
          assert a[i].line <= a[j].line;
        } else if i < |a| {
          assert r[j] == b[j - |a|];
          assert r[j].line == |lines|;
          assert r[i] == a[i] && a[i] in a;
          assert r[i].line <= |init|;
        } else {
          assert r[i] == b[i - |a|] && r[j] == b[j - |a|];
          assert r[i].line == |lines| == r[j].line;
        }
      }
    }
  }

  /** The occurrences on line `n`, in list order. */
  function OnLine(r: seq<Occurrence>, n: nat): seq<Occurrence>
  {
    if r == [] then []
    else OnLine(r[..|r| - 1], n) + (if r[|r| - 1].line == n then [r[|r| - 1]] else [])
  }

  lemma {:induction false} OnLineAppend(a: seq<Occurrence>, b: seq<Occurrence>, n: nat)
    ensures OnLine(a + b, n) == OnLine(a, n) + OnLine(b, n)
    decreases |b|
  {
    if b == [] {
      assert a + b == a;
    } else {
      var b' := b[..|b| - 1];
      assert (a + b)[..|a + b| - 1] == a + b';
      OnLineAppend(a, b', n);
    }
  }

  lemma {:induction false} OnLineNone(r: seq<Occurrence>, n: nat)
    requires forall o :: o in r ==> o.line != n
    ensures OnLine(r, n) == []
  {
    if r != [] {
      OnLineNone(r[..|r| - 1], n);
    }
  }

  lemma {:induction false} OnLineAll(r: seq<Occurrence>, n: nat)
    requires forall o :: o in r ==> o.line == n
    ensures OnLine(r, n) == r
  {
    if r != [] {
      OnLineAll(r[..|r| - 1], n);
    }
  }

  /** Within one line the occurrences keep the order in which the line
      extractor returned them, and nothing from another line is mixed in. */
  lemma {:induction false} LineOrderKept(lines: seq<string>, extract: string -> seq<ColorInfo>, n: nat)
    requires 1 <= n <= |lines|
    ensures OnLine(Occurrences(lines, extract), n) == Tag(n, extract(lines[n - 1]))
  {
    var init := lines[..|lines| - 1];
    var a := Occurrences(init, extract);
    var b := Tag(|lines|, extract(lines[|lines| - 1]));
    OnLineAppend(a, b, n);
    LinesInRange(init, extract);
    if n == |lines| {
      OnLineNone(a, n);
      OnLineAll(b, n);
    } else {
      LineOrderKept(init, extract, n);
      assert init[n - 1] == lines[n - 1];
      OnLineNone(b, n);
    }
  }

  /** The `forEach` of `parse` over one line's entries: each is pushed with
      the line number. */
  method AppendLine(colors: seq<Occurrence>, lineNum: nat, extracted: seq<ColorInfo>) returns (out: seq<Occurrence>)
    ensures out == colors + Tag(lineNum, extracted)
  {
    out := colors;
    for j := 0 to |extracted|
      invariant out == colors + Tag(lineNum, extracted[..j])
    {
      assert extracted[..j + 1][..j] == extracted[..j];
      var c := extracted[j];
      out := out + [Occurrence(lineNum, c.name, c.value, c.kind)];
    }
    assert extracted[..|extracted|] == extracted;
  }

  /** The editor's state that `parse` rebuilds. */
  class ChromaCode {
    var colors: seq<Occurrence>
    const namedColors: set<string>

    constructor ()
      ensures colors == [] && namedColors == NamedColors
    {
      colors := [];
      namedColors := NamedColors;
    }

    /** `parse()`: the previous list is discarded, and every line's entries
        are appended with their line numbers. `accepts` is the browser's
        verdict on a candidate. */
    method Parse(text: string, accepts: string -> bool)
      modifies this
      ensures colors == Occurrences(SplitLines(text), LineExtractor(accepts, namedColors))
    {
      colors := [];
      var lines := SplitLines(text);
      var extract := LineExtractor(accepts, namedColors);
      for idx := 0 to |lines|
        invariant colors == Occurrences(lines[..idx], extract)
      {
        var extracted := ExtractColorsFromLine(lines[idx], accepts, namedColors);
        assert extracted == extract(lines[idx]);
        OccurrencesStep(lines, extract, idx);
        colors := AppendLine(colors, idx + 1, extracted);
      }
      assert lines[..|lines|] == lines;
    }
  }
}
