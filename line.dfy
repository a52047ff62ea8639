/**
 * `extractColorsFromLine`: one line of the editor becomes a list of colour
 * entries. A declaration `name: value;` gives its entries the cleaned-up
 * name; any other line gives them the name `Color`. Blank lines and lines
 * that open or continue a comment give nothing.
 */
module LineParser {
  import opened Text
  import opened Validator
  import opened Classifier
  import opened Extractor

  /** One colour found on a line, before the line number is attached. */
  datatype ColorInfo = ColorInfo(name: string, value: string, kind: ColorType)

  /** The trimmed line is empty, or starts with two slashes, a slash and a
      star, or a star: blank lines and comment lines. */
  predicate IsSkippedLine(line: string)
  {
    var t := Trim(line);
    t == [] || StartsWith(t, "//") || StartsWith(t, "/*") || StartsWith(t, "*")
  }

  /** `name.replace(/^--|^\$|^@/, '')`: the first alternative that matches at
      the start is deleted, and only that one. */
  function StripNamePrefix(name: string): (r: string)
    ensures StartsWith(name, "--") ==> name == "--" + r
    ensures !StartsWith(name, "--") && StartsWith(name, "$") ==> name == "$" + r
    ensures !StartsWith(name, "--") && StartsWith(name, "@") ==> name == "@" + r
    ensures !StartsWith(name, "--") && !StartsWith(name, "$") && !StartsWith(name, "@") ==> r == name
  {
    if StartsWith(name, "--") then name[2..]
    else if StartsWith(name, "$") || StartsWith(name, "@") then name[1..]
    else name
  }

  /** `formatName(name)`: the prefix removed, the rest trimmed, and `Color`
      when nothing is left. */
  function FormatName(name: string): (r: string)
    ensures r != []
    ensures !IsSpace(r[0]) && !IsSpace(r[|r| - 1])
    ensures AllSpaces(StripNamePrefix(name)) ==> r == "Color"
  {
    var t := Trim(StripNamePrefix(name));
    if t == [] then "Color" else t
  }

  /** A custom property, a preprocessor variable or an at-variable is named
      by what follows its sigil. */
  lemma {:induction false} FormatNameDropsSigil(sigil: string, n: string)
    requires sigil == "--" || sigil == "$" || sigil == "@"
    requires n != [] && Trim(n) == n
    requires sigil == "$" || sigil == "@" ==> !StartsWith(sigil + n, "--")
    ensures FormatName(sigil + n) == n
  {
    assert (sigil + n)[..|sigil|] == sigil;
    if sigil == "--" {
      assert StripNamePrefix(sigil + n) == n;
    } else {
      assert StripNamePrefix(sigil + n) == n;
    }
  }

  /** A name without a sigil and without surrounding white space is kept. */
  lemma {:induction false} FormatNameKeepsPlainName(n: string)
    requires n != [] && Trim(n) == n
    requires n[0] != '-' && n[0] != '$' && n[0] != '@'
    ensures FormatName(n) == n
  {
    assert StripNamePrefix(n) == n;
  }

  /** `.replace(/;$/, '')`: one semicolon at the very end is dropped. */
  function StripSemicolon(s: string): (r: string)
    ensures s != [] && s[|s| - 1] == ';' ==> s == r + ";"
    ensures s == [] || s[|s| - 1] != ';' ==> r == s
  {
    if s != [] && s[|s| - 1] == ';' then s[..|s| - 1] else s
  }

  /** The name and the value region of a line that is not skipped: split at
      the first colon of the untrimmed line when there is one. */
  function LineParts(line: string): (r: (string, string))
    ensures r.0 != []
    ensures IndexOf(line, ":", 0).None? ==> r == ("Color", Trim(line))
  {
    match IndexOf(line, ":", 0)
    case None => ("Color", Trim(line))
    case Some(colon) =>
      var value := StripSemicolon(Trim(line[colon + 1..]));
      (FormatName(Trim(line[..colon])), Trim(RemoveAllCI(value, "!important")))
  }

  /** A line split at its first colon: the name is the part before it, the
      value region the part after it, with one trailing semicolon and every
      `!important` removed and the ends trimmed. */
  lemma {:induction false} LineSplitsAtFirstColon(a: string, b: string)
    requires ':' !in a
    ensures LineParts(a + ":" + b) ==
      (FormatName(Trim(a)), Trim(RemoveAllCI(StripSemicolon(Trim(b)), "!important")))
  {
    var line := a + ":" + b;
    assert OccursAt(line, ":", |a|) by {
      assert line[|a|..|a| + 1] == ":";
    }
    forall k | 0 <= k < |a| ensures !OccursAt(line, ":", k) {
      assert line[k..k + 1] == [a[k]];
    }
    match IndexOf(line, ":", 0)
    case None =>
      assert false;
    case Some(k) =>
      assert line[..k] == a;
      assert line[k + 1..] == b;
  }

  /** The entries kept from the extracted values: each value trimmed, and kept
      when it is non-empty and valid, in order. */
  function LineColors(name: string, values: seq<string>, accepts: string -> bool): (r: seq<ColorInfo>)
    ensures |r| <= |values|
    ensures forall c :: c in r ==>
      && c.name == name && c.value != [] && Trim(c.value) == c.value
      && IsValidColor(accepts, c.value) && c.kind == GetColorType(c.value)
  {
    if values == [] then []
    else
      var init := LineColors(name, values[..|values| - 1], accepts);
      var v := Trim(values[|values| - 1]);
      TrimIdempotent(values[|values| - 1]);
      if v != [] && IsValidColor(accepts, v) then init + [ColorInfo(name, v, GetColorType(v))] else init
  }

  /** The kept entries are exactly the valid trimmed values: every one of them
      appears, and nothing else does. */
  lemma {:induction false} LineColorsComplete(name: string, values: seq<string>, accepts: string -> bool, i: nat)
    requires i < |values|
    requires Trim(values[i]) != [] && IsValidColor(accepts, Trim(values[i]))
    ensures ColorInfo(name, Trim(values[i]), GetColorType(Trim(values[i]))) in LineColors(name, values, accepts)
    decreases |values|
  {
    if i < |values| - 1 {
      LineColorsComplete(name, values[..|values| - 1], accepts, i);
    }
  }

  lemma {:induction false} LineColorsSound(name: string, values: seq<string>, accepts: string -> bool, c: ColorInfo)
    requires c in LineColors(name, values, accepts)
    ensures exists i :: 0 <= i < |values| && c.value == Trim(values[i])
    decreases |values|
  {
    var init := LineColors(name, values[..|values| - 1], accepts);
    if c in init {
      LineColorsSound(name, values[..|values| - 1], accepts, c);
      var i :| 0 <= i < |values| - 1 && c.value == Trim(values[..|values| - 1][i]);
      assert values[..|values| - 1][i] == values[i];
    } else {
      assert c.value == Trim(values[|values| - 1]);
    }
  }

  /** `extractColorsFromLine(line)`. */
  function ColorsFromLine(line: string, accepts: string -> bool, named: set<string>): seq<ColorInfo>
  {
    if IsSkippedLine(line) then []
    else
      var parts := LineParts(line);
      LineColors(parts.0, SmartExtract(parts.1, accepts, named), accepts)
  }

  /** Blank lines and comment lines yield nothing. */
  lemma {:induction false} SkippedLineIsEmpty(line: string, accepts: string -> bool, named: set<string>)
    requires IsSkippedLine(line)
    ensures ColorsFromLine(line, accepts, named) == []
  {
  }

  /** Every entry of a line is a valid, trimmed, classified colour with a
      non-empty name, and a line without a colon names its entries `Color`. */
  lemma {:induction false} LineEntries(line: string, accepts: string -> bool, named: set<string>)
    ensures forall c :: c in ColorsFromLine(line, accepts, named) ==>
      && c.name != [] && c.value != [] && Trim(c.value) == c.value
      && IsValidColor(accepts, c.value) && c.kind == GetColorType(c.value)
    ensures IndexOf(line, ":", 0).None? ==>
      forall c :: c in ColorsFromLine(line, accepts, named) ==> c.name == "Color"
  {
  }

  /** Every valid gradient of the value region reaches the line's entries,
      classified as a gradient. */
  lemma {:induction false} LineKeepsGradient(line: string, accepts: string -> bool, named: set<string>, g: string)
    requires !IsSkippedLine(line)
    requires g in Recognizers.GradientMatches(LineParts(line).1, 0) && IsValidColor(accepts, g)
    ensures exists c :: c in ColorsFromLine(line, accepts, named) && c.value == Trim(g) && c.kind == Gradient
  {
    var parts := LineParts(line);
    GradientsKept(parts.1, accepts, named, g);
    LineColorsKeep(parts.0, SmartExtract(parts.1, accepts, named), accepts, g);
    TrimmedGradient(g);
  }

  /** A valid value among the extracted ones is kept, trimmed and classified. */
  lemma {:induction false} LineColorsKeep(name: string, values: seq<string>, accepts: string -> bool, v: string)
    requires v in values && IsValidColor(accepts, v)
    ensures ColorInfo(name, Trim(v), GetColorType(Trim(v))) in LineColors(name, values, accepts)
  {
    var i :| 0 <= i < |values| && values[i] == v;
    ValidColorIgnoresSurroundingSpace(accepts, v);
    LineColorsComplete(name, values, accepts, i);
  }

  /** Trimming a gradient text keeps it a gradient. */
  lemma {:induction false} TrimmedGradient(g: string)
    requires Recognizers.IsGradientText(g)
    ensures GetColorType(Trim(g)) == Gradient
  {
    LowerWordNoSpaces("gradient");
    TrimKeepsPattern(g, "gradient");
  }

  /** The `forEach` over the extracted values: each one trimmed, and kept
      with its classification when it is non-empty and valid. */
  method KeepColors(name: string, values: seq<string>, accepts: string -> bool) returns (results: seq<ColorInfo>)
    ensures results == LineColors(name, values, accepts)
  {
    results := [];
    for i := 0 to |values|
      invariant results == LineColors(name, values[..i], accepts)
    {
      assert values[..i + 1][..i] == values[..i];
      var cleanedValue := Trim(values[i]);
      if cleanedValue != [] && IsValidColor(accepts, cleanedValue) {
        results := results + [ColorInfo(name, cleanedValue, GetColorType(cleanedValue))];
      }
    }
    assert values[..|values|] == values;
  }

  /** `extractColorsFromLine(line)`. */
  method ExtractColorsFromLine(line: string, accepts: string -> bool, named: set<string>) returns (results: seq<ColorInfo>)
    ensures results == ColorsFromLine(line, accepts, named)
  {
    var trimmed := Trim(line);
    if trimmed == [] || StartsWith(trimmed, "//") || StartsWith(trimmed, "/*") || StartsWith(trimmed, "*") {
      return [];
    }
    var parts := LineParts(line);
    var colorValues := SmartExtractColors(parts.1, accepts, named);
    results := KeepColors(parts.0, colorValues, accepts);
  }
}
