/**
 * `getColorType`: the ordered chain of substring and length tests that sorts
 * a recognised colour value into one of three kinds. The gradient test comes
 * first because a gradient may itself hold colour stops with alpha.
 */
module Classifier {
  import opened Text

  datatype ColorType = Solid | Transparent | Gradient

  /** The function openers whose modern syntax introduces alpha with `/`. */
  const SlashAlphaOpeners: seq<string> := ["rgb(", "hsl(", "oklch(", "oklab(", "lch(", "lab(", "hwb(", "color("]

  predicate HasSlashAlphaOpener(lower: string)
  {
    exists i :: 0 <= i < |SlashAlphaOpeners| && Contains(lower, SlashAlphaOpeners[i])
  }

  function GetColorType(value: string): (t: ColorType)
    ensures t == Gradient <==> Contains(ToLower(value), "gradient")
  {
    var lower := ToLower(value);
    if Contains(lower, "gradient") then Gradient
    else if lower == "transparent" then Transparent
    else if Contains(lower, "rgba") || Contains(lower, "hsla") then Transparent
    else if HasSlashAlphaOpener(lower) && Contains(lower, "/") then Transparent
    else if StartsWith(lower, "#") && (|lower| == 5 || |lower| == 9) then Transparent
    else Solid
  }

  /** The classification ignores ASCII letter case. */
  lemma {:induction false} TypeIgnoresCase(value: string)
    ensures GetColorType(ToLower(value)) == GetColorType(value)
  {
    ToLowerIdempotent(value);
  }

  /** `#` followed by hexadecimal digits only. */
  predicate IsHexLiteral(v: string)
  {
    |v| >= 1 && v[0] == '#' && forall i :: 1 <= i < |v| ==> IsHexDigit(v[i])
  }

  /** A text without the character `c` contains no pattern that holds `c`. */
  lemma {:induction false} AbsentCharExcludesPattern(s: string, pat: string, c: char)
    requires c in pat && c !in s
    ensures !Contains(s, pat)
  {
    var j :| 0 <= j < |pat| && pat[j] == c;
    forall k: nat
      ensures !OccursAt(s, pat, k)
    {
      if k + |pat| <= |s| {
        assert s[k..k + |pat|][j] == s[k + j];
      }
    }
  }

  /** Letters outside `a`-`f` never occur in a lower-cased hex literal. */
  lemma {:induction false} HexLiteralLacks(v: string, c: char)
    requires IsHexLiteral(v)
    requires c != '#' && !IsDigit(c) && !('a' <= c <= 'f') && !IsUpperLetter(c)
    ensures c !in ToLower(v)
  {
    forall i | 0 <= i < |v|
      ensures ToLower(v)[i] != c
    {
    }
  }

  /** A hex literal with an alpha digit (`#RGBA`, `#RRGGBBAA`) is transparent;
      one without (`#RGB`, `#RRGGBB`) is solid. */
  lemma {:induction false} HexLiteralType(v: string)
    requires IsHexLiteral(v)
    ensures |v| == 5 || |v| == 9 ==> GetColorType(v) == Transparent
    ensures |v| == 4 || |v| == 7 ==> GetColorType(v) == Solid
  {
    var lower := ToLower(v);
    HexLiteralLacks(v, 'g');
    HexLiteralLacks(v, 'r');
    HexLiteralLacks(v, 's');
    HexLiteralLacks(v, '(');
    AbsentCharExcludesPattern(lower, "gradient", 'g');
    AbsentCharExcludesPattern(lower, "rgba", 'r');
    AbsentCharExcludesPattern(lower, "hsla", 's');
    forall i | 0 <= i < |SlashAlphaOpeners|
      ensures !Contains(lower, SlashAlphaOpeners[i])
    {
      AbsentCharExcludesPattern(lower, SlashAlphaOpeners[i], '(');
    }
    assert lower != "transparent" by {
      assert |lower| == |v|;
      if |v| == 11 {
        assert lower[0] == '#';
      }
    }
    assert StartsWith(lower, "#");
  }

  /** Alpha written with the legacy function names is transparent unless the
      value is a gradient. */
  lemma {:induction false} LegacyAlphaIsTransparent(value: string)
    requires Contains(ToLower(value), "rgba") || Contains(ToLower(value), "hsla")
    requires !Contains(ToLower(value), "gradient")
    ensures GetColorType(value) == Transparent
  {
  }

  /** Alpha written in the modern slash syntax is transparent unless the value
      is a gradient. */
  lemma {:induction false} SlashAlphaIsTransparent(value: string, opener: nat)
    requires opener < |SlashAlphaOpeners| && Contains(ToLower(value), SlashAlphaOpeners[opener])
    requires Contains(ToLower(value), "/")
    requires !Contains(ToLower(value), "gradient")
    ensures GetColorType(value) == Transparent
  {
  }

  /** The keyword `transparent` is classified as such, in any letter case. */
  lemma {:induction false} TransparentKeyword(value: string)
    requires ToLower(value) == "transparent"
    ensures GetColorType(value) == Transparent
  {
    AbsentCharExcludesPattern("transparent", "gradient", 'g');
  }
}
