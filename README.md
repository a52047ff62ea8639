# ChromaCode colour engine in Dafny

This project models the colour extraction and classification engine of
ChromaCode (`script.js`), a browser tool that scans CSS, SCSS or any text for
colour values. The model covers these parts:

- **`parse`.** The editor text is split into lines and every line goes
  through `extractColorsFromLine`. Each colour becomes an occurrence that
  carries its 1-based line number. The list is rebuilt from scratch on every
  call.
  - Modelled as the class `Scanner.ChromaCode`, with a `colors` field that
    `Parse` reassigns.
- **`extractColorsFromLine`.** Blank lines and comment lines are skipped. A
  line with a colon is split into a name and a value region:
  - the name loses one `--`, `$` or `@` sigil and defaults to `Color`;
  - the value region loses one trailing `;` and every `!important`.

  The values `smartExtractColors` finds are trimmed, validated and
  classified.
- **`smartExtractColors`.** Four recognition passes run over one working
  copy of the value text, in this order:
  1. gradients;
  2. the functional notations oklch, oklab, lch, lab, hwb, `color()`, hsl and
     rgb;
  3. hex literals of 8, 6, 4 and 3 digits;
  4. named colour words.

  Every accepted gradient, functional notation and hex literal is replaced
  in the working copy by the marker ` __EXTRACTED__ `, so that a later pass
  does not see it again. Functional and hex matches are only appended when
  they are not listed already. The named pass compares in lower case and
  never lists `inherit` or `currentcolor`.
  - The regular expressions are modelled as hand-written scanners. The
    gradient scanner checks balanced parentheses up to two nested levels. The
    functional-notation patterns are deterministic tokenisers. The hex
    matcher is `#` followed by N hex digits and a word boundary. The word
    split uses the delimiter class `[\s:;,(){}'"]`.
- **`isValidColor`.** The pre-filters reject empty or blank input, the
  non-colour keywords and purely numeric text. The browser's verdict is the
  parameter `accepts`.
- **`getColorType`.** An ordered chain of substring and length tests that
  yields gradient, transparent or solid.
- **Conversions.**
  - `rgbToHex` is integer work with zero-padded lower-case hex digits.
  - `rgbToHSL` is modelled over `real`.
  - The lightness ramp of `renderShades` and the hue list of
    `renderHarmony`.
- **Export.**
  - `slugify` and `formatName`.
  - The five templates of `updateExportPreview` (CSS, SCSS, JSON, Tailwind,
    array), including the JSON object that `JSON.stringify` writes and the
    single-quote escaping of the JavaScript templates.

Modules, one per file:

| file | module | source |
|---|---|---|
| text.dfy | `Text` | the JavaScript string operations the engine uses (`trim`, `toLowerCase`, `indexOf`, `replace`, `split`, number to text) |
| validator.dfy | `Validator` | `isValidColor`, the keyword colour set |
| classifier.dfy | `Classifier` | `getColorType` |
| recognizers.dfy | `Recognizers` | the pattern matchers of `smartExtractColors` |
| extractor.dfy | `Extractor` | `smartExtractColors` |
| exec_skip.dfy | `ExecSkip` | the `exec` loop of the functional pass, as written (see Findings) |
| gradient_unit.dfy | `GradientUnit` | gradients extracted as single units, with the example `linear-gradient(to right, #fff, #000)` |
| line.dfy | `LineParser` | `extractColorsFromLine`, `formatName` |
| scanner.dfy | `Scanner` | `parse` and the `ChromaCode` state it rebuilds |
| convert.dfy | `Convert` | `rgbToHex`, `rgbToHSL`, shades, harmonies |
| slug.dfy | `Slug` | `slugify` |
| export.dfy | `Export` | `updateExportPreview` |

The model follows the code, with one exception: the `exec` loop of the
functional pass (script.js:475-486). As written it skips colours that closely
follow an accepted one (see Findings). `Extractor.SmartExtract`, `Extractor.FnStage`,
`Extractor.FunctionPasses`, `LineParser.ColorsFromLine`,
`LineParser.ExtractColorsFromLine` and `Scanner.ChromaCode.Parse` therefore
use the corrected functional pass, which considers every match.
`Extractor.ExecPass` and `Extractor.ExecFunctions` keep the loop as written.
Other points where the code is followed:
- The gradient pattern at script.js:424 accepts two nested levels of
  parentheses inside the gradient's own group.
- `extractColorsFromLine` looks for the colon in the untrimmed line and takes
  the name from it (script.js:381-383).

## Model

| member | source | states |
|---|---|---|
| Text.ToLower | script.js:507 | `toLowerCase` keeps the length and maps every character by the lower-case map |
| Text.ToLowerIdempotent | script.js:507 | lower-casing an already lower-cased text changes nothing |
| Text.Trim | script.js:370 | `trim` gives the empty text exactly when the text is all white space; otherwise neither end of the result is white space |
| Text.TrimBounds | script.js:370 | the trimmed text is the slice between a leading and a trailing run of white space |
| Text.TrimIdempotent | script.js:394 | trimming a trimmed value changes nothing |
| Text.IndexOf | script.js:382 | `indexOf` gives the first occurrence at or after the start, and none exists when it gives nothing |
| Text.ReplaceFirst | script.js:431 | `replace` with a text pattern leaves a text without the pattern unchanged; otherwise it replaces exactly the first occurrence |
| Text.RemoveAllCI | script.js:384 | `replace(/!important/gi, '')` never lengthens the text and leaves a text without a case-insensitive occurrence unchanged |
| Text.RemoveAllCIWhole | script.js:384 | the text shrinks by whole copies of the pattern: the length lost is a multiple of the pattern's length |
| Text.RemoveAllCIShortens | script.js:384 | when the pattern occurs in the text in any letter case, at least one whole copy is removed |
| Text.Split | script.js:507 | `split` with a delimiter class gives at least one field and no field holds a delimiter; `Text.SplitKeepsText` says the fields joined are the text without delimiters |
| Text.SplitKeepsText | script.js:507 | the fields of a split, joined, are the text without its delimiters |
| Text.NatToString | script.js:887 | the numeral `i + 1` has only digits, no leading zero, and one digit exactly below ten |
| Text.NatToStringInjective | script.js:887 | different numbers have different numerals |
| Validator.IsValidColor | script.js:521-542 | a valid text trims to a non-empty text the browser accepts; blank text, a skipped keyword in any case and purely numeric text are rejected; past the pre-filters the browser decides |
| Validator.ValidColorIgnoresSurroundingSpace | script.js:524-542 | validity depends only on the trimmed text |
| Validator.InheritIsNeverValid | script.js:531-532 | `inherit` fails the pre-filters, whatever the browser says |
| Validator.WordPassesShapeFilters | script.js:524-535 | a word of lower-case letters is trimmed, lower-case and not numeric, so only the keyword list and the browser judge it |
| Classifier.GetColorType | script.js:545-577 | the type is gradient exactly when the text contains `gradient` in any letter case |
| Classifier.TypeIgnoresCase | script.js:545-546 | the type of a text and of its lower-cased form agree |
| Classifier.TransparentKeyword | script.js:554-556 | `transparent` in any letter case is transparent |
| Classifier.LegacyAlphaIsTransparent | script.js:559-561 | a non-gradient containing `rgba` or `hsla` is transparent |
| Classifier.SlashAlphaIsTransparent | script.js:564-568 | a non-gradient containing a function opener and `/` is transparent |
| Classifier.HexLiteralType | script.js:572-576 | a hex literal of length 5 or 9 is transparent, one of length 4 or 7 is solid |
| Recognizers.GroupEndCorrect | script.js:424 | the gradient group scanner stops exactly at the first parenthesis that closes the group within the nesting limit, and fails exactly when there is none |
| Recognizers.GradientMatchShape | script.js:424-426 | a gradient match contains `gradient` in some letter case, holds `(` and ends with `)` |
| Recognizers.GroupEnd | script.js:424 | a group that the scanner closes ends with `)` inside the text; `Recognizers.GroupEndCorrect` says it is the first parenthesis closing the group within the nesting limit |
| Recognizers.GradientAt | script.js:424 | a gradient match at `p` ends after `p`, inside the text, with `)`; `Recognizers.GradientMatchShape` gives the rest of its shape |
| Recognizers.GradientMatches | script.js:426 | every text `match` returns for the gradient pattern has that shape |
| Recognizers.GradientMatchesSound | script.js:426 | every text of the scan is the slice from a position where the gradient recogniser succeeds to the end it reports |
| Recognizers.GradientMatchesComplete | script.js:426 | the scan skips no gradient: each position where the recogniser succeeds lies inside a returned match |
| Recognizers.FnMatchShape | script.js:439-462 | a functional-notation match starts with its function name (any case), holds `(` and ends with `)` |
| Recognizers.FindFn | script.js:477 | `exec` reports a match that starts at or after `lastIndex` and ends where the recogniser says |
| Recognizers.FindFnLeftmost | script.js:477 | no match starts between `lastIndex` and the one reported, and none at all when nothing is reported |
| Recognizers.FnAt | script.js:438-462 | a functional-notation match at `p` ends after `p` with `)` and after its opener; `Recognizers.FnMatchShape` gives its shape |
| Recognizers.HexMatches | script.js:489-497 | every hex match is `#` followed by exactly N hex digits |
| Recognizers.HexMatchesSound | script.js:489-497 | every hex match is the slice at a position where `HexAt` holds, so it is followed by no word character (the `\b`) |
| Recognizers.HexMatchesComplete | script.js:489-497 | the scan skips no hex literal: each position where `HexAt` holds lies inside a returned match |
| Recognizers.Words | script.js:507 | the words hold no delimiter and no upper-case letter |
| Extractor.ReplaceEach | script.js:430 | replacing the accepted matches one after the other; `Extractor.ReplaceEachSnoc` says one more match replaces its first occurrence in the result so far |
| Extractor.Accepted | script.js:427-429 | the kept gradients are valid matches, no more than were found |
| Extractor.AcceptedComplete | script.js:427-429 | no valid gradient match is dropped |
| Extractor.ExtractGradients | script.js:426-433 | the gradient loop keeps exactly the valid matches, replaces each of them once in the working copy, and each is a valid gradient text |
| Extractor.Admit | script.js:479-484 | a pass appends only valid matches, each not listed before it |
| Extractor.AdmitComplete | script.js:479 | every valid match is listed after the pass, earlier or by the pass |
| Extractor.AdmitAll | script.js:497-502 | the admission loop appends what `Admit` keeps and replaces each appended match once |
| Extractor.FnMatches | script.js:475-486 | every match the scan returns is a call text of its kind |
| Extractor.FnMatchesSound | script.js:475-486 | every text the scan returns is the slice from a position where the recogniser of its kind succeeds to its end |
| Extractor.FnMatchesComplete | script.js:475-486 | the scan skips no match: each place where a match starts lies inside a returned match |
| Extractor.ExecPass | script.js:475-486 | the `exec` loop as written, resuming at `lastIndex` in the rewritten text; `ExecSkip.ExecPassDropsSecondColor` shows it losing a colour |
| Extractor.ExecFunctions | script.js:475-486 | the `exec` loop as written: appended texts are valid, of their kind and fresh, and every accepted match removes a `(` from the working copy |
| Extractor.FnStage | script.js:463-486 | the corrected functional pass: the passes append fresh, valid call texts, considering every match of each kind |
| Extractor.FunctionPasses | script.js:463-486 | the corrected functional pass: the loop over the eight kinds computes `FnStage` |
| Extractor.HexStage | script.js:488-503 | the hex passes append fresh, valid hex literals |
| Extractor.HexPasses | script.js:496-503 | the loop over the four lengths computes `HexStage` |
| Extractor.AdmitNamed | script.js:506-515 | the named pass lists only keyword colours other than `inherit` and `currentcolor` |
| Extractor.AdmitNamedLowerFresh | script.js:510 | no named word repeats, case-insensitively, a listed colour or an earlier word |
| Extractor.AdmitNamedFresh | script.js:510 | no named word repeats a listed colour or an earlier word |
| Extractor.AdmitNamedComplete | script.js:506-515 | every keyword-colour word of the working copy is listed afterwards, case-insensitively |
| Extractor.ExtractNamed | script.js:506-515 | the word loop computes `AdmitNamed` |
| Extractor.ExtractEntries | script.js:419-519 | the gradient list holds the valid gradient matches; the other passes list valid call texts, valid hex literals and keyword colours |
| Extractor.ExtractFresh | script.js:479 | no entry after the gradients repeats an earlier entry |
| Extractor.GradientsKept | script.js:426-430 | every valid gradient match is in the result |
| Extractor.NotAnEntry | script.js:419-519 | a word without `(`, not starting with `#` and not a keyword colour is never extracted |
| Extractor.KeywordsNeverExtracted | script.js:510-513 | `inherit` and `currentcolor` are never extracted |
| Extractor.Extract | script.js:419-519 | the four lists of the passes; `Extractor.ExtractEntries` and `Extractor.ExtractFresh` say what each holds |
| Extractor.SmartExtract | script.js:419-519 | the lists joined in pass order; `Extractor.GradientsKept`, `Extractor.NotAnEntry`, `Extractor.KeywordsNeverExtracted` and `GradientUnit.GradientListedOnce` state its properties |
| Extractor.SmartExtractColors | script.js:419-519 | the four passes over one working copy, with the corrected functional pass, compute `SmartExtract` |
| GradientUnit.GradientListedOnce | script.js:407-433 | a text that is one accepted gradient gives that gradient alone: no colour inside it is listed again by a later pass |
| GradientUnit.ExampleListedOnce | script.js:407-433 | `linear-gradient(to right, #fff, #000)` gives the gradient alone, and neither `#fff` nor `#000` |
| GradientUnit.FnStageWithoutParen | script.js:474-486 | a working copy without `(` gives the functional passes nothing to list and is left unchanged |
| GradientUnit.HexStageWithoutHash | script.js:496-503 | a working copy without `#` gives the hex passes nothing to list and is left unchanged |
| GradientUnit.MarkerNamesNothing | script.js:506-515 | the marker's words name no keyword colour, so the named pass lists nothing from it |
| LineParser.StripNamePrefix | script.js:387 | exactly one leading sigil goes, `--` before `$` and `@` |
| LineParser.FormatName | script.js:659-661 | the name is non-empty and trimmed, and is `Color` when nothing but white space remains |
| LineParser.FormatNameDropsSigil | script.js:659-661 | a trimmed name behind `--`, `$` or `@` is shown without the sigil |
| LineParser.FormatNameKeepsPlainName | script.js:659-661 | a trimmed name without a sigil is kept |
| LineParser.StripSemicolon | script.js:384 | one trailing `;` is removed, and nothing else |
| LineParser.LineParts | script.js:377-388 | a line without a colon names its value `Color` and uses the whole trimmed line |
| LineParser.LineSplitsAtFirstColon | script.js:381-387 | a line is split at its first colon: the name is the formatted part before it, the value the part after it without one trailing `;` and every `!important`, trimmed |
| LineParser.LineColors | script.js:393-402 | every kept entry has the line's name and a trimmed, valid, classified value |
| LineParser.LineColorsComplete | script.js:393-402 | every value that trims to a valid text is kept |
| LineParser.LineColorsSound | script.js:393-402 | every kept value is one of the extracted values, trimmed |
| LineParser.SkippedLineIsEmpty | script.js:370-375 | a blank line or a line starting with `//`, `/*` or `*` yields nothing |
| LineParser.LineEntries | script.js:377-402 | every entry has a non-empty name and a trimmed, valid, classified value; a line without a colon names them `Color` |
| LineParser.LineKeepsGradient | script.js:391-402 | every valid gradient of the value region becomes an entry of type gradient |
| LineParser.TrimmedGradient | script.js:394 | trimming a gradient text keeps its type gradient |
| LineParser.KeepColors | script.js:393-402 | the `forEach` over the values computes `LineColors` |
| LineParser.ColorsFromLine | script.js:368-405 | the entries of one line; `LineParser.SkippedLineIsEmpty`, `LineParser.LineEntries` and `LineParser.LineKeepsGradient` state its properties |
| LineParser.ExtractColorsFromLine | script.js:368-405 | the method computes `ColorsFromLine` |
| Scanner.SplitLines | script.js:347 | `split('\n')` gives at least one line and no line holds a newline |
| Scanner.JoinSplit | script.js:347 | joining the lines with newlines gives back the text |
| Scanner.SplitJoin | script.js:347 | splitting a join of newline-free lines gives back the lines |
| Scanner.Tag | script.js:352-357 | each pushed occurrence carries the line number and the entry's name, value and type |
| Scanner.Occurrences | script.js:349-359 | the list `parse` builds; `Scanner.LinesInRange`, `Scanner.OccurrencesValid`, `Scanner.OccurrencesOrdered` and `Scanner.LineOrderKept` state its properties |
| Scanner.LinesInRange | script.js:349-350 | every line number lies between 1 and the number of lines |
| Scanner.OccurrencesValid | script.js:349-359 | every occurrence is valid, classified and named |
| Scanner.OccurrencesOrdered | script.js:349-359 | line numbers never decrease along the list |
| Scanner.LineOrderKept | script.js:349-359 | the occurrences of line n are the entries of line n, in the extractor's order |
| Scanner.AppendLine | script.js:352-358 | one line's entries are appended in order with its number |
| Scanner.ChromaCode.constructor | script.js:7-37 | the list starts empty and the keyword set is the CSS colour keywords |
| Scanner.ChromaCode.Parse | script.js:345-361 | the previous list is discarded and rebuilt from the lines of the text |
| Convert.ToHex | script.js:1111 | `toString(16)` writes at least one lower-case hex digit |
| Convert.ChannelRoundTrip | script.js:1110-1113 | a byte is written with exactly two hex digits, which read back as the byte |
| Convert.RgbToHex | script.js:1109-1114 | the text is `#` followed by lower-case hex digits, at least six |
| Convert.RgbToHexRoundTrip | script.js:1109-1114 | for bytes the result is `#` and six lower-case hex digits whose pairs read back as r, g and b |
| Convert.RgbToHexInjective | script.js:1109-1114 | different byte triples give different hex texts |
| Convert.Max3 | script.js:1121 | `Math.max` of three is one of them and no smaller than any |
| Convert.Min3 | script.js:1122 | `Math.min` of three is one of them and no larger than any |
| Convert.GreyHasNoHue | script.js:1125-1126 | equal channels give hue 0 and saturation 0 |
| Convert.HueFractionRange | script.js:1131-1141 | the hue fraction of distinct channels lies in [0, 1) |
| Convert.RgbToHSL | script.js:1116-1149 | for byte channels, lightness and saturation lie in [0, 100] and hue in [0, 360) |
| Convert.Primaries | script.js:1116-1149 | red, green and blue have hues 0, 120 and 240 at full saturation and half lightness |
| Convert.Shades | script.js:809-812 | the ramp has ten shades of the colour's hue and saturation with lightness 5, 15, …, 95 |
| Convert.Mod360 | script.js:837-840 | `% 360` of a non-negative hue lies in [0, 360) |
| Convert.Harmonies | script.js:834-840 | five chips titled Original, Complementary, Triadic, Triadic and Analogous; the first hue is the colour's own; for a hue in [0, 360), as `rgbToHSL` yields, the others are the hue turned by 180, 120, 240 and 30 degrees, wrapped once past 360, and every hue lies in [0, 360) |
| Convert.ComplementInvolutive | script.js:837 | the complement of the complement is the original hue |
| Convert.TriadicSpacing | script.js:838-839 | the two triadic hues and the original are 120 degrees apart, all the way round |
| Slug.KeepChars | script.js:1082 | exactly the characters outside `[\w\s-]` are deleted, in order |
| Slug.Collapse | script.js:1083 | no `--` remains, the result starts with `-` exactly when the input starts with a separator, and every other character comes from the input and is not a separator |
| Slug.CollapseSplits | script.js:1083 | each separator run becomes exactly one `-` in its place: the `-`-separated fields of the result are the separator-separated fields of the input |
| Slug.CollapseKeepsText | script.js:1083 | only separators change: the non-dash characters of the result are the non-separator characters of the input, in order |
| Slug.DropLeadingDashes | script.js:1084 | the result is the suffix left after a run of dashes, and does not start with `-` |
| Slug.DropTrailingDashes | script.js:1084 | the result is the prefix left before a run of dashes, and does not end with `-` |
| Slug.Slugify | script.js:1080-1085 | the slug is non-empty, made of `[a-z0-9-]`, has no `-` at either end and no `--`, and is `color` when nothing survives |
| Slug.SlugifyTwoWords | script.js:1080-1085 | `A b` becomes `a-b`: lower-cased, with the space turned into a dash |
| Slug.SlugifyIdempotent | script.js:1080-1085 | slugifying a slug changes nothing |
| Slug.SlugKept | script.js:1080-1085 | a text that already has the slug shape is its own slug |
| Export.StripSigil | script.js:895 | one leading `--` or, failing that, one `$` is removed |
| Export.BaseName | script.js:895 | the base of every SCSS, JSON and Tailwind identifier is a slug |
| Export.NumberedInjective | script.js:887 | a text ending in a separator and a numeral determines the numeral |
| Export.CssVarName | script.js:887 | every CSS variable starts with `--`, and a name that already does is kept |
| Export.CssNamesDistinct | script.js:887 | two entries without their own `--` name get different CSS variables |
| Export.ScssNamesDistinct | script.js:895 | different entries get different SCSS variables |
| Export.JsonKeysDistinct | script.js:903 | different entries get different JSON keys |
| Export.TailwindKeysDistinct | script.js:912 | different entries get different Tailwind keys |
| Export.EscapeQuotes | script.js:913 | the escaped text is longer by the number of single quotes |
| Export.EscapeQuotesRoundTrip | script.js:913-914 | for a value without backslashes, the quoted form reads back unchanged when the value holds no line feed or carriage return, and does not parse as a JavaScript literal when it holds one |
| Export.EscapeQuotesGuarded | script.js:913-914 | every single quote of the escaped text follows a backslash |
| Export.JsonChar | script.js:906 | `"`, `\` and control characters are written as a backslash escape, every other character as itself |
| Export.JsonEscapeRoundTrip | script.js:906 | a JSON parser reads every escaped string back unchanged |
| Export.EntryLineWritten | script.js:886-889 | every entry's line is written, right after the lines of the entries before it |
| Export.AppendLines | script.js:886-889 | the `forEach` appends one line per entry, in order |
| Export.Stringify | script.js:906 | the JSON text is one object, from `{` to `}`; `Export.StringifyLines`, `Export.JsonEscapeRoundTrip` and `Export.JsonEntryAt` say what it holds |
| Export.StringifyLines | script.js:906 | a non-empty object's text is a `{` line, then property i on line i + 1, as its quoted key and value indented by two spaces, with a comma unless it is the last property, then a `}` line |
| Export.JsonEntryAt | script.js:902-905 | property i of the object holds the key and the value of entry i |
| Export.JsonEntriesDistinct | script.js:902-905 | no two properties share a key, so the object has one property per entry |
| Export.Put | script.js:904 | assigning a new key appends the property |
| Export.PutOverwrites | script.js:904 | assigning an existing key replaces that property's value in place |
| Export.FreshKey | script.js:902-904 | the key of entry i is new when it is assigned |
| Export.BuildJsonObject | script.js:901-905 | the loop builds exactly the object `JsonEntries` describes |
| Export.ExportText | script.js:883-922 | the five templates; `Export.EntryLineWritten`, `Export.JsonEntryAt` and `Export.EscapeQuotesRoundTrip` say what each holds |
| Export.UpdateExportPreview | script.js:874-922 | the file name is `colors.` plus the format's extension, and the text is the format's template over the list |
| ExecSkip.PairScan | script.js:472-477 | the rgb pattern has two matches in `rgb(255, 255, 255), rgb(0, 0, 0)` |
| ExecSkip.ExecPassDropsSecondColor | script.js:477-484 | the `exec` loop as written keeps only the first of the two colours |
| ExecSkip.PassKeepsBothColors | script.js:477-484 | the corrected pass keeps both colours |

## Left out

- The browser's verdict in `isValidColor` (script.js:537-542) is the
  parameter `accepts`.
- The keyword colour set is a parameter `named` of the extractor.
  `ChromaCode` fills it from the constructor's list.
- Document, event, clipboard, file and modal code is UI and I/O. This
  includes `updateStats`, `filterAndRender`, `updateGutter` and the writes
  to `textContent`. The model returns the values these would display.
- `parseToRGB` draws on a canvas. Its result is the input of `RgbToHSL`,
  whose hue feeds `Harmonies`.
- `getColorFormats`, the `Math.round` display rounding and floating-point
  formatting are presentation.
- Text.ToLower: letter case is ASCII only. Letters outside A–Z with
  lower-case forms are not mapped.
- Recognizers.HexMatches: the word boundary `\b` is ASCII word characters
  only, as in JavaScript without the `u` flag.
- Recognizers.FnAt: each functional regular expression is modelled as a
  deterministic tokeniser. Because no component can contain `)`, a match
  always ends at the first `)` after its opening parenthesis. The tokeniser
  stands for the regular expression engine.
- Extractor.SmartExtract: the model's result uses the corrected functional
  pass (see Findings). `Extractor.ExecFunctions` and `Extractor.ExecPass`
  keep the loop as written.
- Extractor.ExecFunctions: the replacement in the source escapes the match
  and builds a new regular expression. That finds the same first occurrence
  as a plain text search, and the model uses the plain search.
- Convert.RgbToHex: channels above 255 or not integers are not meaningful
  for `rgbToHex`. The round trip is stated for bytes only.
- Convert.RgbToHSL: requires channels in [0, 255], as the canvas delivers
  them. Real arithmetic stands for IEEE doubles.
- Convert.Mod360: JavaScript's `%` is modelled for all reals, but the range
  is stated for non-negative hues, which is all `rgbToHSL` yields.
- LineParser.FormatNameDropsSigil: one direction only. It says what
  happens to names of the given shape and does not characterise every name.
- Export.CssNamesDistinct: covers only names without `--`. A custom
  property keeps its own name, so two occurrences of the same `--x` give
  the same identifier.
- Export.EscapeQuotesRoundTrip: requires a value without backslashes. The
  source escapes only quotes, so a backslash in a value changes how the
  literal reads. It does not escape line terminators either: a value
  holding a carriage return (which `split('\n')` leaves inside a line and
  `\s` matches) or a line feed makes the Tailwind and array templates
  write a literal that does not parse, and the lemma states that outcome.
  The reader `ReadQuoted` does not decode the numeric escapes `\1`-`\9`,
  `\x` and `\u`, which the templates never write.
- Export.JsonEscapeRoundTrip: characters are Unicode scalar values, so
  lone surrogates, which `JSON.stringify` writes as `\u` escapes, do not
  arise.
- Export.Stringify: JavaScript lists integer-like keys first. Every key
  here ends in `_` and a numeral after a slug, so none is integer-like and
  insertion order holds.

## Findings

| source | as written | input that shows it | evidently intended | confidence | as-written member | corrected member |
|---|---|---|---|---|---|---|
| script.js:477-484 | After an accepted match, the `exec` loop searches again from the regex's `lastIndex`, the end of the match. That search runs in the working copy after the match was replaced by the 15-character marker. A match longer than the marker shifts the following text left, so the next search starts past colours that follow closely. | `rgb(255, 255, 255), rgb(0, 0, 0)` with both colours accepted by the browser: the second colour is never listed | every match of the pattern in the working copy is considered, as the hex pass does with `match` | not executed | ExecSkip.ExecPassDropsSecondColor | ExecSkip.PassKeepsBothColors |
