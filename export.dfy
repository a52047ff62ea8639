/**
 * The export templates of `updateExportPreview`: the occurrence list written
 * as CSS custom properties, SCSS variables, a JSON object, a Tailwind theme
 * extension or a JavaScript array, and the name of the file it is offered
 * under.
 *
 * Each template numbers its entries from 1 in list order, so that two
 * colours with the same name still get different identifiers.
 */
module Export {
  import opened Text
  import opened Slug
  import opened Scanner
  import Convert

  datatype Format = Css | Scss | Json | Tailwind | Array

  /** The `ext` table. */
  function Extension(f: Format): string
  {
    match f
    case Css => "css"
    case Scss => "scss"
    case Json => "json"
    case Tailwind => "js"
    case Array => "js"
  }

  /** `name.replace(/^--|^\$/g, '')`: the pattern is anchored, so at most one
      sigil goes, `--` before `$`. */
  function StripSigil(name: string): (r: string)
    ensures StartsWith(name, "--") ==> name == "--" + r
    ensures !StartsWith(name, "--") && StartsWith(name, "$") ==> name == "$" + r
    ensures !StartsWith(name, "--") && !StartsWith(name, "$") ==> r == name
  {
    if StartsWith(name, "--") then name[2..]
    else if StartsWith(name, "$") then name[1..]
    else name
  }

  /** The slug of the name without its sigil, as every template but CSS
      uses it. */
  function BaseName(c: Occurrence): (r: string)
    ensures IsSlug(r)
  {
    Slugify(StripSigil(c.name))
  }

  // ---------------------------------------------------------------------
  // Identifiers and their distinctness
  // ---------------------------------------------------------------------

  /** A text that ends with a separator and a numeral determines the
      numeral. */
  lemma {:induction false} NumberedInjective(a: string, b: string, sep: char, m: nat, n: nat)
    requires !IsDigit(sep)
    requires a + [sep] + NatToString(m) == b + [sep] + NatToString(n)
    ensures m == n
  {
    var x := a + [sep] + NatToString(m);
    var p, q := NatToString(m), NatToString(n);
    var y := b + [sep] + q;
    assert y[|b|] == sep && x[|a|] == sep;
    SeparatorIsLast(a, sep, p, |b|);
    SeparatorIsLast(b, sep, q, |a|);
    assert x[|x| - |p|..] == p;
    assert (b + [sep] + q)[|x| - |q|..] == q;
    NatToStringInjective(m, n);
  }

  /** Past the separator only digits follow. */
  lemma {:induction false} SeparatorIsLast(a: string, sep: char, p: string, k: nat)
    requires !IsDigit(sep) && forall i :: 0 <= i < |p| ==> IsDigit(p[i])
    requires k < |a| + 1 + |p| && (a + [sep] + p)[k] == sep
    ensures k <= |a|
  {
  }

  /** `${base}${sep}${i + 1}`: the identifier of the entry at position `i`. */
  function Numbered(base: string, sep: char, i: nat): string
  {
    base + [sep] + NatToString(i + 1)
  }

  /** Entries at different positions get different identifiers, whatever
      their base names. */
  lemma {:induction false} NumberedDistinct(a: string, b: string, sep: char, i: nat, j: nat)
    requires !IsDigit(sep) && i != j
    ensures Numbered(a, sep, i) != Numbered(b, sep, j)
  {
    if Numbered(a, sep, i) == Numbered(b, sep, j) {
      NumberedInjective(a, b, sep, i + 1, j + 1);
    }
  }

  /** The CSS variable: a name that is already a custom property is kept,
      any other is slugged and numbered. */
  function CssVarName(c: Occurrence, i: nat): (r: string)
    ensures StartsWith(r, "--")
    ensures StartsWith(c.name, "--") ==> r == c.name
  {
    if StartsWith(c.name, "--") then c.name
    else
      var r := Numbered("--" + Slugify(c.name), '-', i);
      assert r[..2] == "--";
      r
  }

  /** Numbered CSS variables never collide. */
  lemma {:induction false} CssNamesDistinct(c: Occurrence, i: nat, d: Occurrence, j: nat)
    requires i != j && !StartsWith(c.name, "--") && !StartsWith(d.name, "--")
    ensures CssVarName(c, i) != CssVarName(d, j)
  {
    NumberedDistinct("--" + Slugify(c.name), "--" + Slugify(d.name), '-', i, j);
  }

  function ScssVarName(c: Occurrence, i: nat): string
  {
    Numbered("$" + BaseName(c), '-', i)
  }

  /** SCSS variables never collide. */
  lemma {:induction false} ScssNamesDistinct(c: Occurrence, i: nat, d: Occurrence, j: nat)
    requires i != j
    ensures ScssVarName(c, i) != ScssVarName(d, j)
  {
    NumberedDistinct("$" + BaseName(c), "$" + BaseName(d), '-', i, j);
  }

  function JsonKey(c: Occurrence, i: nat): string
  {
    Numbered(BaseName(c), '_', i)
  }

  /** Distinct positions give distinct JSON keys, so no entry overwrites
      another in the object. */
  lemma {:induction false} JsonKeysDistinct(c: Occurrence, i: nat, d: Occurrence, j: nat)
    requires i != j
    ensures JsonKey(c, i) != JsonKey(d, j)
  {
    NumberedDistinct(BaseName(c), BaseName(d), '_', i, j);
  }

  function TailwindKey(c: Occurrence, i: nat): string
  {
    Numbered(BaseName(c), '-', i)
  }

  /** Tailwind keys never collide. */
  lemma {:induction false} TailwindKeysDistinct(c: Occurrence, i: nat, d: Occurrence, j: nat)
    requires i != j
    ensures TailwindKey(c, i) != TailwindKey(d, j)
  {
    NumberedDistinct(BaseName(c), BaseName(d), '-', i, j);
  }

  // ---------------------------------------------------------------------
  // Quoting
  // ---------------------------------------------------------------------

  /** `v.replace(/'/g, "\\'")`: a backslash before every single quote. */
  function EscapeQuotes(v: string): (r: string)
    ensures |r| == |v| + Count(v, '\'')
  {
    if v == [] then []
    else QuotedChar(v[0]) + EscapeQuotes(v[1..])
  }

  /** A LineTerminator of ECMA-262. */
  predicate IsLineTerminator(c: char)
  {
    c == '\n' || c == '\r' || c == '\U{2028}' || c == '\U{2029}'
  }

  /** The character a single-character escape `\e` stands for. */
  function EscapedChar(e: char): char
  {
    if e == 'b' then Backspace
    else if e == 'f' then FormFeed
    else if e == 'n' then '\n'
    else if e == 'r' then '\r'
    else if e == 't' then '\t'
    else if e == 'v' then '\U{000B}'
    else e
  }

  /** How a JavaScript engine reads the body of a single-quoted string
      literal: `None` where the literal does not parse, that is a bare `'`,
      a bare line feed or carriage return, or a backslash at the very end,
      which would escape the closing quote. A backslash before a line
      terminator continues the line, `\0` not followed by a digit is NUL,
      the letters `b f n r t v` name control characters and any other
      character after a backslash stands for itself. The numeric escapes
      `\1`-`\9`, `\x` and `\u` are not read and give `None`. */
  function ReadQuoted(t: string): Option<string>
    decreases |t|
  {
    if t == [] then Some([])
    else if t[0] == '\\' then
      if |t| < 2 then None
      else
        var e := t[1];
        if e == '\r' && |t| >= 3 && t[2] == '\n' then ReadQuoted(t[3..])
        else if IsLineTerminator(e) then ReadQuoted(t[2..])
        else if e == '0' && (|t| == 2 || !IsDigit(t[2])) then Prepend(0 as char, ReadQuoted(t[2..]))
        else if IsDigit(e) || e == 'x' || e == 'u' then None
        else Prepend(EscapedChar(e), ReadQuoted(t[2..]))
    else if t[0] == '\'' || t[0] == '\n' || t[0] == '\r' then None
    else Prepend(t[0], ReadQuoted(t[1..]))
  }

  /** A value without backslashes reads back unchanged from its escaped
      form when it holds no line feed or carriage return. With one, the
      literal the templates write does not parse: only quotes are
      escaped. */
  lemma {:induction false} EscapeQuotesRoundTrip(v: string)
    requires '\\' !in v
    ensures '\n' !in v && '\r' !in v ==> ReadQuoted(EscapeQuotes(v)) == Some(v)
    ensures '\n' in v || '\r' in v ==> ReadQuoted(EscapeQuotes(v)) == None
  {
    if v != [] {
      assert '\\' !in v[1..];
      EscapeQuotesRoundTrip(v[1..]);
      var rest := EscapeQuotes(v[1..]);
      assert EscapeQuotes(v) == QuotedChar(v[0]) + rest;
      ReadQuotedChar(v[0], rest);
      assert v == [v[0]] + v[1..];
      assert ('\n' in v || '\r' in v) <==>
        (v[0] == '\n' || v[0] == '\r' || '\n' in v[1..] || '\r' in v[1..]);
    }
  }

  /** What `EscapeQuotes` writes for one character. */
  function QuotedChar(c: char): string
  {
    if c == '\'' then "\\'" else [c]
  }

  /** Reading an escaped character: a line feed or carriage return ends the
      parse, any other character but a backslash reads back as itself. */
  lemma {:induction false} ReadQuotedChar(c: char, rest: string)
    requires c != '\\'
    ensures ReadQuoted(QuotedChar(c) + rest)
      == if c == '\n' || c == '\r' then None else Prepend(c, ReadQuoted(rest))
  {
    var t := QuotedChar(c) + rest;
    if c == '\'' {
      assert t[0] == '\\' && t[1] == '\'' && t[2..] == rest;
    } else {
      assert t[0] == c && t[1..] == rest;
    }
  }

  /** Every single quote of `r` follows a backslash. */
  predicate QuotesGuarded(r: string)
  {
    forall k :: 0 <= k < |r| && r[k] == '\'' ==> k > 0 && r[k - 1] == '\\'
  }

  /** Every single quote of the escaped text is preceded by a backslash, so
      none of them ends the literal it is written into. */
  lemma {:induction false} EscapeQuotesGuarded(v: string)
    ensures QuotesGuarded(EscapeQuotes(v))
  {
    if v != [] {
      EscapeQuotesGuarded(v[1..]);
      var head := if v[0] == '\'' then "\\'" else [v[0]];
      var rest := EscapeQuotes(v[1..]);
      assert EscapeQuotes(v) == head + rest;
      forall k | 0 <= k < |head + rest| && (head + rest)[k] == '\''
        ensures k > 0 && (head + rest)[k - 1] == '\\'
      {
        if k >= |head| {
          assert (head + rest)[k] == rest[k - |head|];
          if k - |head| > 0 {
            assert (head + rest)[k - 1] == rest[k - |head| - 1];
          }
        }
      }
    }
  }

  const Backspace: char := 8 as char
  const FormFeed: char := 12 as char

  /** The text `JSON.stringify` writes for one character of a string. */
  function JsonChar(c: char): (r: string)
    ensures r != []
    ensures r[0] == '\\' <==> (c == '"' || c == '\\' || c < ' ')
    ensures r[0] != '\\' ==> r == [c]
  {
    if c == '"' then "\\\""
    else if c == '\\' then "\\\\"
    else if c == Backspace then "\\b"
    else if c == FormFeed then "\\f"
    else if c == '\n' then "\\n"
    else if c == '\r' then "\\r"
    else if c == '\t' then "\\t"
    else if c < ' ' then "\\u00" + [Convert.HexDigit(c as int / 16), Convert.HexDigit(c as int % 16)]
    else [c]
  }

  function JsonEscape(s: string): string
  {
    if s == [] then [] else JsonChar(s[0]) + JsonEscape(s[1..])
  }

  /** A JSON string literal. */
  function Quote(s: string): string
  {
    "\"" + JsonEscape(s) + "\""
  }

  /** How a JSON parser reads the body of a string literal: `None` for a
      malformed escape, a bare quote or a bare control character. */
  function ReadJson(t: string): Option<string>
  {
    if t == [] then Some([])
    else if t[0] == '\\' then
      if |t| < 2 then None
      else
        var e := t[1];
        if e == 'u' then
          if |t| < 6 || !(forall k :: 2 <= k < 6 ==> IsHexDigit(t[k])) then None
          else
            var code := 4096 * Convert.HexValue(t[2]) + 256 * Convert.HexValue(t[3])
              + 16 * Convert.HexValue(t[4]) + Convert.HexValue(t[5]);
            if 0xD800 <= code < 0xE000 then None
            else Prepend(code as char, ReadJson(t[6..]))
        else
          var d := if e == '"' then Some('"') else if e == '\\' then Some('\\') else if e == '/' then Some('/')
            else if e == 'b' then Some(Backspace) else if e == 'f' then Some(FormFeed) else if e == 'n' then Some('\n')
            else if e == 'r' then Some('\r') else if e == 't' then Some('\t') else None;
          if d.None? then None else Prepend(d.value, ReadJson(t[2..]))
    else if t[0] == '"' || t[0] < ' ' then None
    else Prepend(t[0], ReadJson(t[1..]))
  }

  function Prepend(c: char, r: Option<string>): Option<string>
  {
    if r.None? then None else Some([c] + r.value)
  }

  lemma {:induction false} ReadJsonChar(c: char, rest: string)
    ensures ReadJson(JsonChar(c) + rest) == Prepend(c, ReadJson(rest))
  {
    var t := JsonChar(c) + rest;
    if c == '"' || c == '\\' || c == Backspace || c == FormFeed || c == '\n' || c == '\r' || c == '\t' {
      assert t[2..] == rest;
    } else if c < ' ' {
      ControlEscape(c, rest);
    } else {
      assert t[1..] == rest;
    }
  }

  lemma {:induction false} ControlEscape(c: char, rest: string)
    requires c < ' ' && c != Backspace && c != FormFeed && c != '\n' && c != '\r' && c != '\t'
    ensures ReadJson(JsonChar(c) + rest) == Prepend(c, ReadJson(rest))
  {
    var hi, lo := c as int / 16, c as int % 16;
    Convert.HexDigitValue(hi);
    Convert.HexDigitValue(lo);
    var t := JsonChar(c) + rest;
    assert t[..6] == "\\u00" + [Convert.HexDigit(hi), Convert.HexDigit(lo)];
    assert t[6..] == rest;
    assert t[2] == '0' && t[3] == '0';
    assert forall k :: 2 <= k < 6 ==> IsHexDigit(t[k]);
    assert 16 * hi + lo == c as int;
  }

  /** A JSON parser reads every escaped string back unchanged. */
  lemma {:induction false} JsonEscapeRoundTrip(s: string)
    ensures ReadJson(JsonEscape(s)) == Some(s)
  {
    if s != [] {
      JsonEscapeRoundTrip(s[1..]);
      ReadJsonChar(s[0], JsonEscape(s[1..]));
      assert s == [s[0]] + s[1..];
    }
  }

  // ---------------------------------------------------------------------
  // The templates
  // ---------------------------------------------------------------------

  /** `cs.forEach((c, i) => output += line(c, i))`: one line per entry, in
      list order. */
  function Lines(cs: seq<Occurrence>, line: (Occurrence, nat) -> string): string
  {
    if cs == [] then [] else Lines(cs[..|cs| - 1], line) + line(cs[|cs| - 1], |cs| - 1)
  }

  /** The lines of a prefix of the list start the lines of the list. */
  lemma {:induction false} LinesPrefix(cs: seq<Occurrence>, line: (Occurrence, nat) -> string, k: nat)
    requires k <= |cs|
    ensures StartsWith(Lines(cs, line), Lines(cs[..k], line))
    decreases |cs|
  {
    if k < |cs| {
      var init := cs[..|cs| - 1];
      LinesPrefix(init, line, k);
      assert init[..k] == cs[..k];
      var a, b := Lines(init, line), Lines(cs[..k], line);
      assert (a + line(cs[|cs| - 1], |cs| - 1))[..|b|] == a[..|b|];
    } else {
      assert cs[..k] == cs;
    }
  }

  /** Every entry's line is written, right after the lines of the entries
      before it. */
  lemma {:induction false} EntryLineWritten(cs: seq<Occurrence>, line: (Occurrence, nat) -> string, i: nat)
    requires i < |cs|
    ensures StartsWith(Lines(cs, line), Lines(cs[..i], line) + line(cs[i], i))
  {
    LinesPrefix(cs, line, i + 1);
    assert cs[..i + 1][..i] == cs[..i];
  }

  /** The `forEach` loop of a line-per-entry template. */
  method AppendLines(output: string, cs: seq<Occurrence>, line: (Occurrence, nat) -> string) returns (out: string)
    ensures out == output + Lines(cs, line)
  {
    out := output;
    for i := 0 to |cs|
      invariant out == output + Lines(cs[..i], line)
    {
      assert cs[..i + 1][..i] == cs[..i];
      out := out + line(cs[i], i);
    }
    assert cs[..|cs|] == cs;
  }

  function CssLine(c: Occurrence, i: nat): string
  {
    "  " + CssVarName(c, i) + ": " + c.value + ";\n"
  }

  function ScssLine(c: Occurrence, i: nat): string
  {
    ScssVarName(c, i) + ": " + c.value + ";\n"
  }

  function TailwindLine(c: Occurrence, i: nat): string
  {
    "        '" + TailwindKey(c, i) + "': '" + EscapeQuotes(c.value) + "',\n"
  }

  const TailwindHead: string := "module.exports = {\n  theme: {\n    extend: {\n      colors: {\n"
  const TailwindTail: string := "      },\n    },\n  },\n}"

  /** The properties of the JSON object, in insertion order. */
  function JsonEntries(cs: seq<Occurrence>): (r: seq<(string, string)>)
    ensures |r| == |cs|
  {
    if cs == [] then [] else JsonEntries(cs[..|cs| - 1]) + [(JsonKey(cs[|cs| - 1], |cs| - 1), cs[|cs| - 1].value)]
  }

  /** Property `i` of the object is the key and the value of entry `i`. */
  lemma {:induction false} JsonEntryAt(cs: seq<Occurrence>, i: nat)
    requires i < |cs|
    ensures JsonEntries(cs)[i] == (JsonKey(cs[i], i), cs[i].value)
  {
    if i < |cs| - 1 {
      JsonEntryAt(cs[..|cs| - 1], i);
    }
  }

  /** The object holds one property per entry: no key repeats another. */
  lemma {:induction false} JsonEntriesDistinct(cs: seq<Occurrence>, i: nat, j: nat)
    requires i < j < |cs|
    ensures JsonEntries(cs)[i].0 != JsonEntries(cs)[j].0
  {
    JsonEntryAt(cs, i);
    JsonEntryAt(cs, j);
    JsonKeysDistinct(cs[i], i, cs[j], j);
  }

  /** `obj[key] = value`: an existing property keeps its place and takes the
      new value, a new one is appended. */
  function Put(obj: seq<(string, string)>, key: string, value: string): (r: seq<(string, string)>)
    ensures (forall k :: 0 <= k < |obj| ==> obj[k].0 != key) ==> r == obj + [(key, value)]
  {
    if obj == [] then [(key, value)]
    else if obj[0].0 == key then [(key, value)] + obj[1..]
    else [obj[0]] + Put(obj[1..], key, value)
  }

  /** Assigning to a key the object already holds replaces that property's
      value in place. */
  lemma {:induction false} PutOverwrites(obj: seq<(string, string)>, key: string, value: string, k: nat)
    requires k < |obj| && obj[k].0 == key
    requires forall m :: 0 <= m < k ==> obj[m].0 != key
    ensures Put(obj, key, value) == obj[..k] + [(key, value)] + obj[k + 1..]
  {
    if k > 0 {
      PutOverwrites(obj[1..], key, value, k - 1);
      assert obj[1..][..k - 1] == obj[1..k];
      assert obj[1..][k..] == obj[k + 1..];
      assert [obj[0]] + obj[1..k] == obj[..k];
    }
  }

  /** The key of entry `i` is not among the properties of the entries before
      it. */
  lemma {:induction false} FreshKey(cs: seq<Occurrence>, i: nat)
    requires i < |cs|
    ensures forall k :: 0 <= k < i ==> JsonEntries(cs[..i])[k].0 != JsonKey(cs[i], i)
  {
    forall k | 0 <= k < i ensures JsonEntries(cs[..i])[k].0 != JsonKey(cs[i], i) {
      JsonEntryAt(cs[..i], k);
      JsonKeysDistinct(cs[k], k, cs[i], i);
    }
  }

  /** The `forEach` that fills the JSON object. */
  method BuildJsonObject(cs: seq<Occurrence>) returns (obj: seq<(string, string)>)
    ensures obj == JsonEntries(cs)
  {
    obj := [];
    for i := 0 to |cs|
      invariant obj == JsonEntries(cs[..i])
    {
      assert cs[..i + 1][..i] == cs[..i];
      FreshKey(cs, i);
      obj := Put(obj, JsonKey(cs[i], i), cs[i].value);
    }
    assert cs[..|cs|] == cs;
  }

  /** One property as `JSON.stringify` indents it, without the comma. */
  function Member(p: (string, string)): string
  {
    "  " + Quote(p.0) + ": " + Quote(p.1)
  }

  function JsonMembers(obj: seq<(string, string)>): string
    requires obj != []
  {
    if |obj| == 1 then Member(obj[0]) else Member(obj[0]) + ",\n" + JsonMembers(obj[1..])
  }

  /** `JSON.stringify(obj, null, 2)` for an object whose values are
      strings. */
  function Stringify(obj: seq<(string, string)>): (r: string)
    ensures |r| >= 2 && r[0] == '{' && r[|r| - 1] == '}'
  {
    if obj == [] then "{}" else "{\n" + JsonMembers(obj) + "\n}"
  }

  /** The object text line by line: `{`, then property i on line i + 1,
      followed by a comma unless it is the last, then `}`. A reader that
      splits the text into lines gets every key and value back from its
      line, as `JsonEscapeRoundTrip` shows for the quoted strings. */
  lemma {:induction false} StringifyLines(obj: seq<(string, string)>)
    requires obj != []
    ensures |SplitLines(Stringify(obj))| == |obj| + 2
    ensures SplitLines(Stringify(obj))[0] == "{"
    ensures SplitLines(Stringify(obj))[|obj| + 1] == "}"
    ensures forall i :: 0 <= i < |obj| ==>
      SplitLines(Stringify(obj))[i + 1] == Member(obj[i]) + (if i + 1 < |obj| then "," else "")
  {
    var all := ObjectLines(obj);
    StringifyJoin(obj);
    ObjectLinesPlain(obj);
    SplitJoin(all);
  }

  /** `{`, the member lines and `}`. */
  function ObjectLines(obj: seq<(string, string)>): seq<string>
    requires obj != []
  {
    ["{"] + MemberLines(obj) + ["}"]
  }

  lemma {:induction false} StringifyJoin(obj: seq<(string, string)>)
    requires obj != []
    ensures JoinLines(ObjectLines(obj)) == Stringify(obj)
  {
    MemberLinesJoin(obj);
    JoinBraces(JsonMembers(obj), MemberLines(obj));
  }

  /** Lines joined between a `{` line and a `}` line. */
  lemma {:induction false} JoinBraces(body: string, ls: seq<string>)
    requires |ls| >= 1 && JoinLines(ls) == body
    ensures JoinLines(["{"] + ls + ["}"]) == "{\n" + body + "\n}"
  {
    var tail := ls + ["}"];
    JoinLinesSnoc(ls, "}");
    JoinLinesCons("{", tail);
    assert ["{"] + ls + ["}"] == ["{"] + tail;
  }

  lemma {:induction false} JoinLinesCons(first: string, ls: seq<string>)
    requires |ls| >= 1
    ensures JoinLines([first] + ls) == first + "\n" + JoinLines(ls)
  {
    assert ([first] + ls)[1..] == ls;
  }

  lemma {:induction false} ObjectLinesPlain(obj: seq<(string, string)>)
    requires obj != []
    ensures forall l :: l in ObjectLines(obj) ==> '\n' !in l
  {
    var all := ObjectLines(obj);
    var ls := MemberLines(obj);
    forall k | 0 <= k < |all| ensures '\n' !in all[k] {
      if k == 0 {
        assert all[k] == "{";
      } else if k == |all| - 1 {
        assert all[k] == "}";
      } else {
        assert all[k] == ls[k - 1];
        MemberLinePlain(obj, k - 1);
      }
    }
  }

  lemma {:induction false} MemberLinePlain(obj: seq<(string, string)>, i: nat)
    requires i < |obj|
    ensures '\n' !in MemberLines(obj)[i]
  {
    MemberNoNewline(obj[i]);
  }

  /** The lines `JsonMembers` writes, each with its comma. */
  function MemberLines(obj: seq<(string, string)>): (ls: seq<string>)
    requires obj != []
    ensures |ls| == |obj|
    ensures forall i :: 0 <= i < |obj| ==> ls[i] == Member(obj[i]) + (if i + 1 < |obj| then "," else "")
  {
    if |obj| == 1 then [Member(obj[0])]
    else [Member(obj[0]) + ","] + MemberLines(obj[1..])
  }

  lemma {:induction false} MemberLinesJoin(obj: seq<(string, string)>)
    requires obj != []
    ensures JoinLines(MemberLines(obj)) == JsonMembers(obj)
  {
    if |obj| > 1 {
      MemberLinesJoin(obj[1..]);
      var ls := MemberLines(obj);
      assert ls[1..] == MemberLines(obj[1..]);
      assert JoinLines(ls) == ls[0] + "\n" + JoinLines(ls[1..]);
    }
  }

  lemma {:induction false} JoinLinesSnoc(ls: seq<string>, last: string)
    requires |ls| >= 1
    ensures JoinLines(ls + [last]) == JoinLines(ls) + "\n" + last
    decreases |ls|
  {
    if |ls| > 1 {
      JoinLinesSnoc(ls[1..], last);
      assert (ls + [last])[1..] == ls[1..] + [last];
    }
  }

  lemma {:induction false} MemberNoNewline(p: (string, string))
    ensures '\n' !in Member(p) && '\n' !in Member(p) + ","
  {
    JsonEscapeNoNewline(p.0);
    JsonEscapeNoNewline(p.1);
  }

  /** Escaping writes a line feed as `\n`, so no line feed remains. */
  lemma {:induction false} JsonEscapeNoNewline(s: string)
    ensures '\n' !in JsonEscape(s)
  {
    if s != [] {
      JsonEscapeNoNewline(s[1..]);
      var c := s[0];
      if c < ' ' && c != Backspace && c != FormFeed && c != '\n' && c != '\r' && c != '\t' {
        var hi, lo := c as int / 16, c as int % 16;
        assert JsonChar(c) == "\\u00" + [Convert.HexDigit(hi), Convert.HexDigit(lo)];
      }
      assert '\n' !in JsonChar(c);
    }
  }

  /** `arr.map(v => ...).join(',\n')`: one quoted value per entry. */
  function ArrayItems(cs: seq<Occurrence>): string
  {
    if cs == [] then []
    else
      var item := "  '" + EscapeQuotes(cs[0].value) + "'";
      if |cs| == 1 then item else item + ",\n" + ArrayItems(cs[1..])
  }

  /** The text `updateExportPreview` shows for the list `cs`. */
  function ExportText(f: Format, cs: seq<Occurrence>): string
  {
    match f
    case Css => ":root {\n" + Lines(cs, CssLine) + "}"
    case Scss => Lines(cs, ScssLine)
    case Json => Stringify(JsonEntries(cs))
    case Tailwind => TailwindHead + Lines(cs, TailwindLine) + TailwindTail
    case Array => "const colors = [\n" + ArrayItems(cs) + "\n];\n\nexport default colors;"
  }

  /** `updateExportPreview()`: the file name and the text for the chosen
      format. */
  method UpdateExportPreview(colors: seq<Occurrence>, f: Format) returns (fileName: string, output: string)
    ensures fileName == "colors." + Extension(f)
    ensures output == ExportText(f, colors)
  {
    fileName := "colors." + Extension(f);
    match f {
      case Css =>
        output := AppendLines(":root {\n", colors, CssLine);
        output := output + "}";
      case Scss =>
        output := AppendLines("", colors, ScssLine);
      case Json =>
        var obj := BuildJsonObject(colors);
        output := Stringify(obj);
      case Tailwind =>
        output := AppendLines(TailwindHead, colors, TailwindLine);
        output := output + TailwindTail;
      case Array =>
        output := "const colors = [\n" + ArrayItems(colors) + "\n];\n\nexport default colors;";
    }
  }
}
