/**
 * `slugify`: a colour's name turned into an identifier for the export
 * templates. The name is lower-cased, every character other than word
 * characters, white space and `-` is deleted, every run of white space, `_`
 * and `-` becomes one `-`, dashes at either end are deleted, and `color`
 * stands in when nothing is left.
 */
module Slug {
  import opened Text

  /** A character `[^\w\s-]` does not delete. */
  predicate IsKept(c: char)
  {
    IsWordChar(c) || IsSpace(c) || c == '-'
  }

  /** A character of the class `[\s_-]`. */
  predicate IsSeparator(c: char)
  {
    IsSpace(c) || c == '_' || c == '-'
  }

  /** A character `[^\w\s-]`, which the clean-up deletes. */
  predicate IsDropped(c: char)
  {
    !IsKept(c)
  }

  predicate IsDash(c: char)
  {
    c == '-'
  }

  /** A character a slug may hold. */
  predicate IsSlugChar(c: char)
  {
    IsLowerLetter(c) || IsDigit(c) || c == '-'
  }

  /** What `slugify` promises of its result: non-empty, only `[a-z0-9-]`, no
      dash at either end and never two dashes in a row. */
  predicate IsSlug(s: string)
  {
    s != [] && SlugBody(s) && s[0] != '-' && s[|s| - 1] != '-'
  }

  /** Only slug characters, and never two dashes in a row. */
  predicate SlugBody(s: string)
  {
    && (forall i :: 0 <= i < |s| ==> IsSlugChar(s[i]))
    && (forall i :: 0 <= i < |s| - 1 ==> !(s[i] == '-' && s[i + 1] == '-'))
  }

  /** `.replace(/[^\w\s-]/g, '')`. */
  function KeepChars(s: string): (r: string)
    ensures |r| <= |s|
    ensures forall i :: 0 <= i < |r| ==> IsKept(r[i])
    ensures (forall i :: 0 <= i < |s| ==> IsKept(s[i])) ==> r == s
    ensures r == Keep(s, IsDropped)
  {
    if s == [] then []
    else (if IsKept(s[0]) then [s[0]] else []) + KeepChars(s[1..])
  }

  /** The index after the run of separators that starts at `i`. */
  function SeparatorRunEnd(s: string, i: nat): (j: nat)
    requires i <= |s|
    ensures i <= j <= |s|
    ensures j == |s| || !IsSeparator(s[j])
    ensures forall k :: i <= k < j ==> IsSeparator(s[k])
    decreases |s| - i
  {
    if i == |s| || !IsSeparator(s[i]) then i else SeparatorRunEnd(s, i + 1)
  }

  /** `.replace(/[\s_-]+/g, '-')`: every maximal run of separators becomes
      one dash. */
  function Collapse(s: string): (r: string)
    ensures |r| <= |s|
    ensures forall i :: 0 <= i < |r| ==> r[i] == '-' || (r[i] in s && !IsSeparator(r[i]))
    ensures r != [] && s != [] ==> (r[0] == '-' <==> IsSeparator(s[0]))
    ensures forall i :: 0 <= i < |r| - 1 ==> !(r[i] == '-' && r[i + 1] == '-')
    decreases |s|
  {
    if s == [] then []
    else if IsSeparator(s[0]) then
      var j := SeparatorRunEnd(s, 0);
      var rest := Collapse(s[j..]);
      assert rest != [] ==> rest[0] != '-' by {
        if rest != [] {
          assert s[j..] != [] && !IsSeparator(s[j..][0]);
        }
      }
      assert forall c :: c in rest ==> c == '-' || c in s;
      "-" + rest
    else
      var rest := Collapse(s[1..]);
      assert forall c :: c in rest ==> c == '-' || c in s;
      [s[0]] + rest
  }

  /** Collapsing changes only the separators: the characters of the result
      other than dashes are the characters of the input other than
      separators, in order. */
  lemma {:induction false} CollapseKeepsText(s: string)
    ensures Keep(Collapse(s), IsDash) == Keep(s, IsSeparator)
    decreases |s|
  {
    if s != [] {
      var r := Collapse(s);
      if IsSeparator(s[0]) {
        var j := SeparatorRunEnd(s, 0);
        CollapseKeepsText(s[j..]);
        assert r[0] == '-' && r[1..] == Collapse(s[j..]);
        SeparatorRunKept(s, j);
      } else {
        CollapseKeepsText(s[1..]);
        assert r[0] == s[0] && r[1..] == Collapse(s[1..]);
      }
    }
  }

  /** Collapsing puts exactly one dash where each separator run was: the
      dash-separated fields of the result are the separator-separated fields
      of the input. As the result never holds two dashes in a row, this fixes
      it completely. */
  lemma {:induction false} CollapseSplits(s: string)
    ensures Split(Collapse(s), IsDash) == Split(s, IsSeparator)
    decreases |s|
  {
    if s == [] {
      SplitNone(s, IsSeparator);
      SplitNone(s, IsDash);
    } else if !IsSeparator(s[0]) {
      CollapseCopies(s);
      CollapseSplits(s[1..]);
      SplitCons(s[0], Collapse(s[1..]), IsDash);
      SplitCons(s[0], s[1..], IsSeparator);
      assert [s[0]] + s[1..] == s;
    } else {
      var j := SeparatorRunEnd(s, 0);
      var rest := Collapse(s[j..]);
      CollapseRun(s, j);
      CollapseSplits(s[j..]);
      SplitAt(s, IsSeparator, 0, j);
      if rest != [] {
        assert s[j..] != [] && !IsSeparator(s[j..][0]);
      }
      var c := "-" + rest;
      assert c[1..] == rest && c[..0] == s[..0];
      SplitAt(c, IsDash, 0, 1);
    }
  }

  /** A text without separators is not changed by collapsing. */
  lemma {:induction false} CollapsePlain(s: string)
    requires forall k :: 0 <= k < |s| ==> !IsSeparator(s[k])
    ensures Collapse(s) == s
  {
    if s != [] {
      CollapsePlain(s[1..]);
    }
  }

  /** A leading separator run becomes one dash. */
  lemma {:induction false} CollapseRun(s: string, j: nat)
    requires 0 < j <= |s|
    requires forall k :: 0 <= k < j ==> IsSeparator(s[k])
    requires j == |s| || !IsSeparator(s[j])
    ensures Collapse(s) == "-" + Collapse(s[j..])
  {
    SeparatorRunEndIs(s, 0, j);
  }

  /** A leading character that is not a separator is copied. */
  lemma {:induction false} CollapseCopies(s: string)
    requires s != [] && !IsSeparator(s[0])
    ensures Collapse(s) == [s[0]] + Collapse(s[1..])
  {
  }

  lemma {:induction false} SeparatorRunEndIs(s: string, i: nat, j: nat)
    requires i <= j <= |s|
    requires forall k :: i <= k < j ==> IsSeparator(s[k])
    requires j == |s| || !IsSeparator(s[j])
    ensures SeparatorRunEnd(s, i) == j
    decreases j - i
  {
    if i < j {
      SeparatorRunEndIs(s, i + 1, j);
    }
  }

  /** A leading run of separators contributes nothing to the text that
      survives. */
  lemma {:induction false} SeparatorRunKept(s: string, j: nat)
    requires j <= |s| && forall k :: 0 <= k < j ==> IsSeparator(s[k])
    ensures Keep(s, IsSeparator) == Keep(s[j..], IsSeparator)
  {
    if j > 0 {
      SeparatorRunKept(s[1..], j - 1);
      assert s[1..][j - 1..] == s[j..];
    }
  }

  /** `.replace(/^-+/, '')`. */
  function DropLeadingDashes(s: string): (r: string)
    ensures |r| <= |s|
    ensures r == [] || r[0] != '-'
    ensures r == s[|s| - |r|..]
    ensures forall i :: 0 <= i < |s| - |r| ==> s[i] == '-'
  {
    if s != [] && s[0] == '-' then
      var r := DropLeadingDashes(s[1..]);
      assert forall i :: 1 <= i < |s| - |r| ==> s[i] == s[1..][i - 1];
      r
    else
      assert s == s[0..];
      s
  }

  /** `.replace(/-+$/, '')`. */
  function DropTrailingDashes(s: string): (r: string)
    ensures |r| <= |s|
    ensures r == [] || r[|r| - 1] != '-'
    ensures r == s[..|r|]
    ensures forall i :: |r| <= i < |s| ==> s[i] == '-'
  {
    if s != [] && s[|s| - 1] == '-' then
      var r := DropTrailingDashes(s[..|s| - 1]);
      r
    else s
  }

  /** `.replace(/^-+|-+$/g, '')`: the leading run goes, then the trailing
      run of what is left. */
  function TrimDashes(s: string): string
  {
    DropTrailingDashes(DropLeadingDashes(s))
  }

  /** `slugify(text)`: always a slug, and `color` when nothing survives the
      clean-up. */
  function Slugify(text: string): (r: string)
    ensures IsSlug(r)
    ensures TrimDashes(Collapse(KeepChars(ToLower(text)))) == [] ==> r == "color"
  {
    var c := Collapse(KeepChars(ToLower(text)));
    CollapsedShape(text);
    TrimmedShape(c);
    ColorIsSlug();
    var t := TrimDashes(c);
    if t == [] then "color" else t
  }

  /** Example: the separator between two words becomes a dash. */
  lemma {:induction false} SlugifyTwoWords()
    ensures Slugify("A b") == "a-b"
  {
    TwoWordsLower();
    TwoWordsKept();
    TwoWordsCollapsed();
    TwoWordsTrimmed();
  }

  lemma {:induction false} TwoWordsLower()
    ensures ToLower("A b") == "a b"
  {
    var lower := ToLower("A b");
    assert lower[0] == LowerChar('A') == 'a';
  }

  lemma {:induction false} TwoWordsKept()
    ensures KeepChars("a b") == "a b"
  {
  }

  lemma {:induction false} TwoWordsCollapsed()
    ensures Collapse("a b") == "a-b"
  {
    var s := "a b";
    CollapseCopies(s);
    assert s[1..] == " b" && " b"[1..] == "b";
    CollapseRun(" b", 1);
    CollapsePlain("b");
  }

  lemma {:induction false} TwoWordsTrimmed()
    ensures DropLeadingDashes("a-b") == "a-b"
    ensures DropTrailingDashes("a-b") == "a-b"
  {
  }

  // ---------------------------------------------------------------------
  // What a slug looks like
  // ---------------------------------------------------------------------

  lemma {:induction false} KeptLowerIsSlugChar(c: char)
    requires IsKept(c) && !IsSeparator(c) && !IsUpperLetter(c)
    ensures IsSlugChar(c)
  {
  }

  /** A piece of a text whose characters all satisfy a slug's character and
      adjacency conditions satisfies them too. */
  lemma {:induction false} SliceKeepsShape(s: string, i: nat, j: nat)
    requires i <= j <= |s| && SlugBody(s)
    ensures SlugBody(s[i..j])
  {
  }

  /** Every separator run has become one dash and every other character
      that survives is a lower-case letter or a digit. */
  lemma {:induction false} CollapsedShape(text: string)
    ensures SlugBody(Collapse(KeepChars(ToLower(text))))
  {
    var lower := ToLower(text);
    var kept := KeepChars(lower);
    assert forall c :: c in kept ==> !IsUpperLetter(c) by {
      forall c | c in kept ensures !IsUpperLetter(c) {
        KeptComesFrom(lower, c);
      }
    }
    var collapsed := Collapse(kept);
    forall k | 0 <= k < |collapsed| ensures IsSlugChar(collapsed[k]) {
      if collapsed[k] != '-' {
        KeptLowerIsSlugChar(collapsed[k]);
      }
    }
  }

  /** Trimming the dashes of such a text leaves nothing or a slug. */
  lemma {:induction false} TrimmedShape(c: string)
    requires SlugBody(c)
    ensures TrimDashes(c) == [] || IsSlug(TrimDashes(c))
  {
    var lead := DropLeadingDashes(c);
    SliceKeepsShape(c, |c| - |lead|, |c|);
    var t := DropTrailingDashes(lead);
    SliceKeepsShape(lead, 0, |t|);
    assert lead[0..|t|] == t;
    if t != [] {
      assert t[0] == lead[0];
    }
  }

  lemma {:induction false} ColorIsSlug()
    ensures IsSlug("color")
  {
    assert "color"[0] == 'c' && "color"[4] == 'r';
  }

  lemma {:induction false} KeptComesFrom(s: string, c: char)
    requires c in KeepChars(s)
    ensures c in s
  {
    if s != [] && !(IsKept(s[0]) && c == s[0]) {
      assert c in KeepChars(s[1..]);
      KeptComesFrom(s[1..], c);
    }
  }

  // ---------------------------------------------------------------------
  // Slugs are fixed points
  // ---------------------------------------------------------------------

  lemma {:induction false} LowerSlugFixed(s: string)
    requires forall i :: 0 <= i < |s| ==> IsSlugChar(s[i])
    ensures ToLower(s) == s
  {
    if s != [] {
      LowerSlugFixed(s[1..]);
    }
  }

  /** A text made of slug characters without two dashes in a row is
      unchanged by `Collapse`. */
  lemma {:induction false} CollapseFixed(s: string)
    requires SlugBody(s)
    ensures Collapse(s) == s
    decreases |s|
  {
    if s != [] {
      SliceKeepsShape(s, 1, |s|);
      CollapseStep(s);
      CollapseFixed(s[1..]);
      assert [s[0]] + s[1..] == s;
    }
  }

  lemma {:induction false} SlugCharSeparator(c: char)
    requires IsSlugChar(c)
    ensures IsSeparator(c) <==> c == '-'
  {
  }

  /** A slug character that is not followed by a second dash is copied by
      `Collapse`. */
  lemma {:induction false} CollapseStep(s: string)
    requires s != [] && IsSlugChar(s[0]) && (|s| == 1 || IsSlugChar(s[1]))
    requires |s| == 1 || !(s[0] == '-' && s[1] == '-')
    ensures Collapse(s) == [s[0]] + Collapse(s[1..])
  {
    SlugCharSeparator(s[0]);
    if s[0] == '-' {
      if |s| > 1 {
        SlugCharSeparator(s[1]);
      }
      assert SeparatorRunEnd(s, 0) == 1;
    }
  }

  /** A slug is its own slug. */
  lemma {:induction false} SlugifyIdempotent(text: string)
    ensures Slugify(Slugify(text)) == Slugify(text)
  {
    SlugKept(Slugify(text));
  }

  /** A name that is already a slug is kept as it is. */
  lemma {:induction false} SlugKept(s: string)
    requires IsSlug(s)
    ensures Slugify(s) == s
  {
    LowerSlugFixed(s);
    assert KeepChars(s) == s;
    CollapseFixed(s);
    assert DropLeadingDashes(s) == s;
    assert DropTrailingDashes(s) == s;
  }
}
