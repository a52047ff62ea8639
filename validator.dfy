/**
 * The colour vocabulary and the validator `isValidColor`.
 *
 * The validator first applies cheap pre-filters (empty or blank input,
 * keywords that are not colours, purely numeric text) and then asks the
 * browser whether the trimmed candidate is an acceptable `background` value.
 * That last question is answered by an engine outside the model, so every
 * operation that validates takes it as a parameter `accepts`.
 */
module Validator {
  import opened Text

  /** The CSS keyword colours the extractor recognises by name, including the
      special keywords `transparent`, `currentcolor` and `inherit`. */
  const NamedColors: set<string> := {
    "aliceblue", "antiquewhite", "aqua", "aquamarine", "azure", "beige", "bisque", "black",
    "blanchedalmond", "blue", "blueviolet", "brown", "burlywood", "cadetblue", "chartreuse",
    "chocolate", "coral", "cornflowerblue", "cornsilk", "crimson", "cyan", "darkblue",
    "darkcyan", "darkgoldenrod", "darkgray", "darkgreen", "darkgrey", "darkkhaki",
    "darkmagenta", "darkolivegreen", "darkorange", "darkorchid", "darkred", "darksalmon",
    "darkseagreen", "darkslateblue", "darkslategray", "darkslategrey", "darkturquoise",
    "darkviolet", "deeppink", "deepskyblue", "dimgray", "dimgrey", "dodgerblue", "firebrick",
    "floralwhite", "forestgreen", "fuchsia", "gainsboro", "ghostwhite", "gold", "goldenrod",
    "gray", "green", "greenyellow", "grey", "honeydew", "hotpink", "indianred", "indigo",
    "ivory", "khaki", "lavender", "lavenderblush", "lawngreen", "lemonchiffon", "lightblue",
    "lightcoral", "lightcyan", "lightgoldenrodyellow", "lightgray", "lightgreen", "lightgrey",
    "lightpink", "lightsalmon", "lightseagreen", "lightskyblue", "lightslategray",
    "lightslategrey", "lightsteelblue", "lightyellow", "lime", "limegreen", "linen",
    "magenta", "maroon", "mediumaquamarine", "mediumblue", "mediumorchid", "mediumpurple",
    "mediumseagreen", "mediumslateblue", "mediumspringgreen", "mediumturquoise",
    "mediumvioletred", "midnightblue", "mintcream", "mistyrose", "moccasin", "navajowhite",
    "navy", "oldlace", "olive", "olivedrab", "orange", "orangered", "orchid", "palegoldenrod",
    "palegreen", "paleturquoise", "palevioletred", "papayawhip", "peachpuff", "peru", "pink",
    "plum", "powderblue", "purple", "rebeccapurple", "red", "rosybrown", "royalblue",
    "saddlebrown", "salmon", "sandybrown", "seagreen", "seashell", "sienna", "silver",
    "skyblue", "slateblue", "slategray", "slategrey", "snow", "springgreen", "steelblue",
    "tan", "teal", "thistle", "tomato", "turquoise", "violet", "wheat", "white", "whitesmoke",
    "yellow", "yellowgreen", "transparent", "currentcolor", "inherit"
  }

  /** CSS keywords that are valid property values but never colours. */
  const SkipKeywords: set<string> := {"none", "inherit", "initial", "unset", "auto", "normal", "solid"}

  /** A character of the class `[\d.,%\s]`. */
  predicate IsNumericChar(c: char)
  {
    IsDigit(c) || c == '.' || c == ',' || c == '%' || IsSpace(c)
  }

  /** The text matches `/^[\d.,%\s]+$/`. */
  predicate IsNumericOnly(s: string)
  {
    s != [] && forall i :: 0 <= i < |s| ==> IsNumericChar(s[i])
  }

  /** The checks `isValidColor` makes before it consults the browser. */
  predicate PassesPrefilters(s: string)
  {
    var t := Trim(s);
    t != [] && ToLower(t) !in SkipKeywords && !IsNumericOnly(t)
  }

  /** `isValidColor(str)`: the pre-filters, then the browser's verdict on the
      trimmed text. */
  function IsValidColor(accepts: string -> bool, s: string): (ok: bool)
    ensures ok ==> Trim(s) != [] && accepts(Trim(s))
    ensures AllSpaces(s) ==> !ok
    ensures ToLower(Trim(s)) in SkipKeywords ==> !ok
    ensures IsNumericOnly(Trim(s)) ==> !ok
    ensures PassesPrefilters(s) ==> (ok <==> accepts(Trim(s)))
  {
    PassesPrefilters(s) && accepts(Trim(s))
  }

  /** Validation looks only at the trimmed text: surrounding white space never
      changes the verdict. */
  lemma {:induction false} ValidColorIgnoresSurroundingSpace(accepts: string -> bool, s: string)
    ensures IsValidColor(accepts, Trim(s)) == IsValidColor(accepts, s)
  {
    TrimIdempotent(s);
  }

  predicate AllLowerLetters(w: string)
  {
    forall i :: 0 <= i < |w| ==> IsLowerLetter(w[i])
  }

  lemma {:induction false} LowerWordIsFixed(w: string)
    requires AllLowerLetters(w)
    ensures ToLower(w) == w
  {
    if w != [] {
      LowerWordIsFixed(w[1..]);
    }
  }

  /** A non-empty word of lower-case letters passes the blank and numeric
      pre-filters unchanged. */
  lemma {:induction false} WordPassesShapeFilters(w: string)
    requires w != [] && AllLowerLetters(w)
    ensures Trim(w) == w && ToLower(w) == w && !IsNumericOnly(w)
  {
    assert SkipSpaces(w, 0) == 0;
    assert TrimmedEnd(w, |w|) == |w|;
    assert w[0..|w|] == w;
    LowerWordIsFixed(w);
    assert !IsNumericChar(w[0]);
  }

  /** `inherit` is both a keyword colour and a skipped keyword: the validator
      refuses it whatever the browser says. */
  lemma {:induction false} InheritIsNeverValid(accepts: string -> bool)
    ensures !IsValidColor(accepts, "inherit")
    ensures !PassesPrefilters("inherit")
  {
    WordPassesShapeFilters("inherit");
  }
}
