# A verified model of the component editor's code patcher

The component editor of ReactComponentEditor lets a user click an element of a rendered React
component and change its text, colours, font size and font weight. The edit is written back
into the component's source code, which is a chain of `React.createElement` calls. This is done
by `updateElementInCode` in `components/component-editor.tsx`. It works purely on text:

1. It splits the code into lines.
2. It finds the first `React.createElement` line whose following lines carry the element's
   `data-v0-id` marker, before another call starts. The marker has six spellings.
3. It finds the line where that call's parentheses balance again. The count restarts on every
   line that holds a call.
4. It scans that block for the props object, the last `style:` line inside it, and the first
   line after it that starts with a quote.
5. It rewrites or inserts the style object.
6. It rewrites the text argument with the first strategy that applies: a `}, '...')` line
   from the end of the props object on; the quoted text line; or a regular expression over the
   whole block.
7. It puts the lines back together.

The file also defines `rgbToHex`, which turns a computed colour such as `rgb(12, 34, 56)` into
`#0c2238`.

The Dafny project mirrors that structure:

- `text.dfy` (module `Text`): the JavaScript string operations the editor relies on. These are
  `split`/`join` on line feeds, `includes`, `trim`, `startsWith`, the `\s` white-space set,
  replacing the first `}`, and printing an integer.
- `patterns.dfy` (module `Patterns`): the three regular expressions, each as a matcher proved
  against a declarative description of the pattern's language and of the match the engine
  reports. The three patterns are the style object, the trailing text argument with its lazy
  `.+?`, and the inline call. Each also has the replacement that rewrites the match.
- `substitution.dfy` (module `Substitution`): what `String.prototype.replace` does with a string
  replacement (GetSubstitution, section 22.1.3.19.1 of ECMA-262). It relates the editor's text
  updates as written to the literal updates the model uses.
- `locator.dfy` (module `Locator`): the two line scans that find the element's call, as
  imperative methods with loops. Each is proved equal to a recursive specification with "first
  line such that" lemmas.
- `patcher.dfy` (module `Patcher`): the scan of the block as an imperative `for` loop proved
  against its specification, with lemmas on what each index found means. It also holds the
  style and text updates, what each changes in the block, and the updates as the source writes
  them with the conditions under which they agree with the model's.
- `editor.dfy` (module `Editor`): `updateElementInCode` as a method. The specification is
  characterised by "the lines found are exactly the element's call" and "only the call's text
  changes". The model's update is the corrected one of the findings below: it inserts the text
  literally and puts a comma in front of an inserted style property where one is missing.
  `UpdatedCodeAsWritten` is the source's update, and `UpdatedCodeAgrees` says when the two
  coincide.
- `colour.dfy` (module `Colour`): `rgbToHex`, with ECMAScript's ToInt32 for `<<` and
  `toString(16)`. For `rgb(r, g, b)` with channels in 0..255 it is proved to give
  `#rrggbb`, and reading that back gives the channels.

The model follows the code where it departs from a natural reading of it:

- The style line is the LAST `style:` line in the props object, which excludes the line that
  opens the object. The `continue` skips that line.
- The text line may be the line that closes the props object.
- The end of the call is where the parenthesis count returns to 0 after restarting on each line
  holding a call. A call whose child call starts on a later line therefore ends where that
  line's parentheses balance.
- With one or two digit runs, `rgbToHex` returns `#aN`: the blue channel is `undefined`, so the
  sum is NaN.
- Because the count restarts on each line holding a call, a parent call ends early. In the
  example component of app/page.tsx:12-22, the block of `main-container` ends at line 22, the
  closing line of its first child `heading-welcome`. The trailing-argument scan then finds that
  child's `}, 'Welcome to React Editor'),` and rewrites the child's text instead of the
  parent's.

## Model

| member | source | states |
|---|---|---|
| Text.IndexOfFirst | components/component-editor.tsx:439 | the index `indexOf` reports is the first occurrence at or after the start, and -1 means there is none |
| Text.ContainsIff | components/component-editor.tsx:439 | `includes` holds exactly when the pattern occurs somewhere in the line |
| Text.ContainsSingle | components/component-editor.tsx:490 | `includes` of a one-character string is membership of that character |
| Text.TrimStart | components/component-editor.tsx:503 | `trim` removes exactly a leading run of `\s` white space: what remains is a suffix that starts with a non-space character |
| Text.TrimEnd | components/component-editor.tsx:503 | likewise at the end: a prefix that ends with a non-space character, after white space only |
| Text.LeadingSpace | components/component-editor.tsx:543 | `match(/^\s*/)` is the longest prefix of white space |
| Text.Split | components/component-editor.tsx:432 | `split('\n')` gives at least one piece and no piece holds a line feed |
| Text.JoinSplit | components/component-editor.tsx:432 | joining the split lines with line feeds gives back the code |
| Text.SplitJoin | components/component-editor.tsx:560 | splitting the joined block gives back its lines when no line holds a line feed |
| Text.JoinAround | components/component-editor.tsx:564-569 | the joined text of three runs of lines is the middle run's text between the text of the other two |
| Text.SplitAround | components/component-editor.tsx:564-569 | the code is the text of any block of its lines between the text of the lines before and after it |
| Text.ReplaceFirstChar | components/component-editor.tsx:520 | `replace('}', r)`: the first `}` becomes `r`, nothing else changes, and a line without `}` is unchanged |
| Text.DecimalRoundTrip | components/component-editor.tsx:514 | the decimal numeral printed for the font size reads back as the number |
| Patterns.StyleMatchAt | components/component-editor.tsx:517 | at each position at most one match of `style:\s*\{[^}]*\}` starts, and the matcher finds it |
| Patterns.FindStyle | components/component-editor.tsx:517 | the search returns the leftmost position where the style pattern matches, and -1 when it matches nowhere |
| Patterns.ReplaceStyle | components/component-editor.tsx:517 | the leftmost style match is replaced by the new style; a line without a match is unchanged |
| Patterns.TrailingMatchAtSpec | components/component-editor.tsx:527 | at each position the matcher returns the engine's match of `}\s*,\s*(['"`])(.+?)\1\s*\),?`: the one whose closing quote is nearest (lazy `.+?`), or none when no match starts there |
| Patterns.TrailingLeftmostCorrect | components/component-editor.tsx:527 | the line's search finds the leftmost match of the trailing pattern, and finds none exactly when the pattern matches nowhere |
| Patterns.LeftmostTrailingUnique | components/component-editor.tsx:527 | the match the engine reports is determined by the line |
| Patterns.HasTrailingArgIff | components/component-editor.tsx:527-528 | `match(...)` is non-null exactly when some match of the trailing pattern exists in the line |
| Patterns.FindTrailing | components/component-editor.tsx:527 | the search returns the leftmost position with a trailing match, and no position before it has one |
| Patterns.ReplaceTrailingTextSpec | components/component-editor.tsx:531 | a line where the trailing pattern matches nowhere is unchanged; otherwise, for the leftmost match as characterised declaratively, only the contents of its quoted literal become the text, and the quote characters and the rest of the line are kept |
| Patterns.InlineMatchAtIsMatch | components/component-editor.tsx:552 | the inline matcher at a position returns a match of the inline pattern, and every match starting there is the one it returns |
| Patterns.InlineLeftmostCorrect | components/component-editor.tsx:552 | the search over the joined block finds the leftmost inline match, and finds none exactly when the pattern matches nowhere |
| Patterns.FindInline | components/component-editor.tsx:552 | the search returns the leftmost position with an inline match, and no position before it has one |
| Patterns.ReplaceInlineTextSpec | components/component-editor.tsx:551-554 | a block where the inline pattern matches nowhere is unchanged; otherwise the leftmost match's quoted literal, as characterised declaratively, becomes the text in single quotes, and everything outside that literal is kept |
| Substitution.SubstituteLiteral | components/component-editor.tsx:531 | in a string replacement, a stretch without `$` expands to itself |
| Substitution.SubstituteDollar | components/component-editor.tsx:531 | `$$` in a string replacement expands to a single `$` |
| Substitution.SubstituteCapture | components/component-editor.tsx:531 | `$n` followed by a non-digit expands to capture n when it exists |
| Substitution.ReplaceTrailingTextAsWrittenSpec | components/component-editor.tsx:531 | the source's update: a line without a trailing match is unchanged; otherwise the template `$1${quote}${text}${quote}$3` is expanded over the leftmost match |
| Substitution.ExpandTrailingLiteral | components/component-editor.tsx:531 | expanding the source's template with a text without `$` puts the text between the quotes and keeps the rest of the line |
| Substitution.ExpandTrailingDollar | components/component-editor.tsx:531 | expanding the source's template with the text `$$` puts a single `$` between the quotes |
| Substitution.TrailingAsWrittenAgrees | components/component-editor.tsx:531 | for a text without `$` the source's update equals the literal update |
| Substitution.TrailingDollarMangled | components/component-editor.tsx:531 | on every line with a trailing match, the source's update of the text `$$` differs from the literal one |
| Substitution.ReplaceInlineTextAsWrittenSpec | components/component-editor.tsx:551-554 | the source's inline update: a block without an inline match is unchanged; otherwise the template `$1'${text}'` is expanded over the leftmost inline match |
| Substitution.ExpandInlineLiteral | components/component-editor.tsx:553 | expanding the inline template with a text without `$` gives the text in single quotes in place of the literal |
| Substitution.ExpandInlineDollar | components/component-editor.tsx:553 | expanding the inline template with the text `$$` gives `'$'` |
| Substitution.InlineAsWrittenAgrees | components/component-editor.tsx:551-554 | for a text without `$` the source's inline update equals the literal one |
| Substitution.InlineDollarMangled | components/component-editor.tsx:551-554 | wherever the inline pattern matches, the source's update of the text `$$` differs from the literal one |
| Locator.SomeMarkerIff | components/component-editor.tsx:442-450 | `patterns.some(...)` holds exactly when the line holds one of the six spellings of the marker |
| Locator.HasMarkerQuoted | components/component-editor.tsx:442-450 | a line holds the marker only where the id stands between quote characters, so an id is not found inside a longer id |
| Locator.MarkerFromIff | components/component-editor.tsx:441-457 | the inner scan finds the marker exactly when some line has it and no earlier line of the scan has the marker or another call |
| Locator.ScanForMarker | components/component-editor.tsx:441-457 | the inner loop's `found` equals the inner scan's specification |
| Locator.StartFromFirst | components/component-editor.tsx:438-460 | the start is a line that holds a call and whose scan meets the marker, and no earlier line does; -1 means no line does |
| Locator.FindStart | components/component-editor.tsx:438-461 | the outer loop's `startIdx` is that first start line |
| Locator.CountParens | components/component-editor.tsx:466-469 | counting a line's characters adds its balance of `(` over `)` to the depth |
| Locator.CallEndFirst | components/component-editor.tsx:464-474 | the end is the first line from the start at which the depth, restarted on lines with a call, is 0; -1 means it never is |
| Locator.FindEnd | components/component-editor.tsx:464-475 | the loop's `endIdx` is that first line |
| Patcher.ScanProps | components/component-editor.tsx:488-512 | the scan's four indices are those of the block's layout specification |
| Patcher.PropsStartFirst | components/component-editor.tsx:490-495 | the props object opens on the first line holding `{`, and -1 means no line does |
| Patcher.PropsEndFirst | components/component-editor.tsx:496-502 | the props object closes on the first line after its start at which the brace count is 0, and the count stays positive before it |
| Patcher.PropsEndStable | components/component-editor.tsx:499-501 | once the props object has closed, later lines do not move its end |
| Patcher.StyleIsInProps | components/component-editor.tsx:503 | the style line found lies inside the props object and starts with `style:` |
| Patcher.NoStyleAfter | components/component-editor.tsx:503 | no later line of the props object starts with `style:` |
| Patcher.TextFirst | components/component-editor.tsx:509-511 | the text line is the first line from the props object's closing line on whose trimmed text starts with `'`; there is none while the object is open |
| Patcher.TextAfterEnd | components/component-editor.tsx:509-511 | the text line found starts with a quote and the props object has closed by then |
| Patcher.TextNoneBefore | components/component-editor.tsx:509-511 | no line from the closing line up to the text line found starts with a quote |
| Patcher.LayoutOf | components/component-editor.tsx:484-512 | each of the four indices of the scan is -1 or a line of the block |
| Patcher.StyleStringBalance | components/component-editor.tsx:514 | the style string's own braces pair up: its brace balance is that of the colour, background colour and font weight written into it |
| Patcher.CloseLineHasBrace | components/component-editor.tsx:496-501 | the line that closes the props object holds a `}` |
| Patcher.StyleInsertBalanced | components/component-editor.tsx:518-521 | with values free of braces, inserting the style property keeps the brace balance of the closing line |
| Patcher.WriteStyle | components/component-editor.tsx:516-521 | the style update keeps the number of lines, changes no line but the style line (or, without one, the closing line), and on an insertion adds exactly the style's brace balance to the closing line |
| Patcher.StyleInsertUnseparated | components/component-editor.tsx:520 | as written: when the text before the closing `}` ends with a property and no comma, the inserted `style` property follows it with only white space in between |
| Patcher.StyleInsertSeparated | components/component-editor.tsx:520 | corrected: the inserted `style` property always follows the object's `{` or a comma, and the rest of the closing line is kept |
| Patcher.WriteStyleAgrees | components/component-editor.tsx:516-521 | where no comma is missing, the corrected style update is the source's |
| Patcher.TrailingFromFirst | components/component-editor.tsx:526-536 | the trailing line taken is the first from the end of the props object that matches the pattern, and -1 means none does |
| Patcher.TextLineWith | components/component-editor.tsx:543-544 | the rewritten text line keeps the line's leading white space, and its trimmed text is the text in single quotes |
| Patcher.TextLineQuotesText | components/component-editor.tsx:543-544 | the rewritten text line holds the text between two equal quotes |
| Patcher.TrailingQuotesText | components/component-editor.tsx:527-531 | on a line the trailing pattern matches, the update leaves the text between the match's quotes |
| Patcher.WriteTextChanges | components/component-editor.tsx:523-562 | when the text is written in place, only the target line changes and it holds the text between quotes; otherwise the block's joined text is the inline update of the old one |
| Patcher.UpdateText | components/component-editor.tsx:523-562 | the three text strategies in order give the block of the text-update specification |
| Patcher.Patch | components/component-editor.tsx:480-562 | the style and text updates of the block give the patched-block specification |
| Patcher.PatchBlock | components/component-editor.tsx:482-562 | the patched block of a non-empty block is non-empty |
| Patcher.PatchBlockChanges | components/component-editor.tsx:514-562 | when the text is written in place, the patched block differs from the block only on the style update's line and the text update's line, and the latter holds the text between quotes |
| Patcher.PatchAgrees | components/component-editor.tsx:514-562 | for a text without `$` and a style insertion that needs no comma, the source's block update equals the model's |
| Editor.Locate | components/component-editor.tsx:438-475 | the located lines are a start line and an end line at or after it, inside the code |
| Editor.LocateIsCallSpan | components/component-editor.tsx:438-475 | the lines located are exactly the element's call, in both directions: the first line that opens it and the first line where its parentheses balance |
| Editor.LocateNone | components/component-editor.tsx:461-475 | nothing is located exactly when the code holds no call of the element |
| Editor.LocateCall | components/component-editor.tsx:438-475 | the two scans together give the located lines |
| Editor.UpdatedLinesAt | components/component-editor.tsx:477-568 | when the call spans lines `s` to `e`, the updated lines are the lines before `s`, the patched block, and the lines after `e` |
| Editor.UpdateElementInCode | components/component-editor.tsx:430-569 | the method returns the specified updated code |
| Editor.NoCallUnchanged | components/component-editor.tsx:461-475 | without a call of the element the code comes back unchanged |
| Editor.EditIsLocal | components/component-editor.tsx:564-569 | the code before and after the call's lines is kept, and only the call's text is replaced by the patched block's text |
| Editor.UpdatedCodeAgrees | components/component-editor.tsx:430-569 | for a text without `$`, and an element whose style insertion needs no comma, the source's code as written is the model's |
| Colour.DigitRuns | components/component-editor.tsx:579 | each run of `match(/\d+/g)` is a non-empty string of decimal digits |
| Colour.ToInt32 | components/component-editor.tsx:586 | ToInt32 gives a signed 32-bit value congruent to its input modulo 2^32 |
| Colour.ShiftLeftSmall | components/component-editor.tsx:586 | a shift whose result stays inside 31 bits multiplies by the power of two |
| Colour.SumOfChannels | components/component-editor.tsx:586 | for channels in 0..255 the source's sum is 2^24 + r·2^16 + g·2^8 + b |
| Colour.HexOfSum | components/component-editor.tsx:586 | that sum prints in base 16 as `1` followed by two digits per channel |
| Colour.RgbToHexHash | components/component-editor.tsx:571-589 | every result begins with `#`, and a colour that already starts with `#` comes back unchanged |
| Colour.RunsNone | components/component-editor.tsx:579-580 | `match(/\d+/g)` finds nothing exactly when the colour holds no decimal digit |
| Colour.RgbToHexBlack | components/component-editor.tsx:579-583 | a colour without `#` and without any digit becomes `#000000` |
| Colour.ChannelsHex | components/component-editor.tsx:586 | for channels in 0..255 the printed sum without its leading digit is `#` and two hex digits per channel |
| Colour.RgbToHexChannels | components/component-editor.tsx:579-588 | when the first three digit runs are in 0..255 the result is `#` and two lower-case hex digits per channel |
| Colour.CssRgbRuns | components/component-editor.tsx:579 | the runs of `rgb(r, g, b)` are the three channels' numerals |
| Colour.RgbToHexCss | components/component-editor.tsx:571-589 | `rgb(r, g, b)` with channels in 0..255 becomes `#rrggbb` |
| Colour.Hex2RoundTrip | components/component-editor.tsx:586 | the two hex digits of a channel read back as the channel |
| Colour.RgbToHexRoundTrip | components/component-editor.tsx:571-589 | reading the result for `rgb(r, g, b)` back gives the three channels |

## Left out

- The `console.log` calls and the emoji-tagged messages are output only. They have no effect on the result.
- The check at components/component-editor.tsx:504-506 has an empty body, so it has no effect.
- The editor's React state, DOM inspection and preview frame are not part of this model; only the code transformation is.
- `rgbToHex` is declared after the `return` of `updateElementInCode`, inside its unclosed body. It is modelled as a stand-alone function, since nothing in the function's body calls it.
- Patcher.StyleString: the font size is an integer. A JavaScript number with a fraction prints differently and is not modelled.
- Patterns.ReplaceStyle: the style object is inserted literally. The source's `replace` at components/component-editor.tsx:517 would expand `$` sequences in the colour and font values, the same mechanism as the findings below. Here that expansion is not modelled.
- Text.ReplaceFirstChar: the inserted style is taken literally. At components/component-editor.tsx:520 `$` sequences in the style string would be expanded, which this model does not capture.
- Colour.RgbToHex: a digit run's value is taken exactly. JavaScript's `Number` rounds values of 2^53 and above and gives `Infinity` beyond the double range; neither is modelled.
- Patcher.WriteText / Editor.UpdatedCode: the model writes the user's text literally and puts a comma before an inserted style property where one is missing, which are the corrected behaviours of the findings below. The source as written is `Editor.UpdatedCodeAsWritten`. `Editor.UpdatedCodeAgrees` proves the two equal when the text holds no `$` and the style insertion needs no comma; outside those conditions they differ as the findings describe.
- Characters are Dafny `char`s and strings are sequences of them. `for (c of line)` walks code points rather than UTF-16 units, but only `(` and `)` are counted, so the counts agree.

## Findings

| source | as written | input that shows it | evidently intended | confidence | as-written member | corrected member |
|---|---|---|---|---|---|---|
| components/component-editor.tsx:531 | the user's text is spliced into the replacement string `$1${quote}${text}${quote}$3`, which `replace` expands (`$$`, `$&`, `$1`, …) | text `$$` on the line `}, 'Hi'),` gives `}, '$'),` | the text appears between the quotes exactly as typed | high; not executed | Substitution.TrailingDollarMangled | Patterns.ReplaceTrailingTextSpec |
| components/component-editor.tsx:553 | the user's text is spliced into the replacement string `$1'${text}'`, which `replace` expands | text `$$` on a block the inline pattern matches gives `'$'` | the text appears in single quotes exactly as typed | high; not executed | Substitution.InlineDollarMangled | Patterns.ReplaceInlineTextSpec |
| components/component-editor.tsx:520 | with no `style` line, `replace('}', "  " + styleString + ",\n}")` inserts the new property right after the text before the `}`, adding no comma when the last property has none | a props object with the property line `className: 'a'` (no trailing comma) followed by the line `}, 'Hi')` gives `className: 'a'` then `  style: {…},` with no comma between them | the inserted property is separated from the previous one by a comma | medium; not executed | Patcher.StyleInsertUnseparated | Patcher.StyleInsertSeparated |
