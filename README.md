# Accessibility checker: contrast verdict and report assembly

This project models the core of a small web-accessibility auditor. The code
exists twice: once as a server-side checker driven by a headless browser
(`frontend/com/routes/AccessChecker.js`) and once as a browser-extension content
script (`backend/AccesssWeb_Extenssion/content.js`). Both copies contain the same
two parts.

- **`checkContrast(foreground, background)`**. First it decodes each colour
  string: it drops the first character, applies `parseInt(…, 16)`, then takes
  `(rgb >> 16) & 0xff`, `(rgb >> 8) & 0xff` and `(rgb >> 0) & 0xff`. Next it
  applies the sRGB transfer function to each byte and weights the results into
  a relative luminance, as that term is defined in WCAG 2.1. Finally it
  returns whether `(L_fg + 0.05) / (L_bg + 0.05) > 4.5`.
- **The audit itself.** Eight checks each push a `{title, details}` record
  onto `results`. The colour-contrast check also builds a `contrastIssues`
  list: it loops over every element and keeps the markup of the elements whose
  two colours are set but fail `checkContrast`.

The model has three modules:

- `JsRuntime` (`js_runtime.dfy`) holds the JavaScript semantics the code relies
  on:
  - `parseInt` with radix 16, as ECMAScript defines it, except that a string
    is a sequence of Unicode characters rather than of UTF-16 code units. It
    skips leading white space, takes an optional sign and an optional `0x`,
    reads the longest run of hexadecimal digits, and gives NaN when there is
    no digit.
  - The ToInt32 conversion that `>>` and `&` apply, where NaN becomes 0.
  - Decimal formatting of the counts in template literals.
  - `Array.prototype.join`.
- `Contrast` (`contrast.dfy`) holds the decoding, the luminance, the ratio and
  the verdict. It also has the WCAG 2.1 contrast ratio (lighter luminance on
  top, pass at `>= 4.5`) as a reference to compare the verdict with.
- `Audit` (`audit.dfy`) holds the page as an abstract snapshot. The snapshot
  has the images with their `alt` text, a count per tag name, the focusable
  elements, every element with its computed `color`, `backgroundColor` and
  `outerHTML`, the forms, and whether a viewport `<meta>` tag is present.
  `Audit` also has the contrast loop as a method, and the entry point as a
  method that pushes the eight findings one after the other.

Numbers are Dafny reals and integers. `Math.pow(x, 2.4)` is a parameter of
type `SrgbPower`: any function from reals to reals that maps `(0, 1]` into
`[0, 1]` and maps 1 to 1. Everything else is exact.

Several facts in the model follow from the code as written. Some of them
contradict what one expects from a colour checker:

- Every string decodes; there is no error case (for strings of Unicode
  characters, see `Contrast.DropFirst` under "## Left out").
- A string whose second character cannot start a number decodes to black. This
  includes the `rgb(…)` notation that computed styles return.
- A word like `banana` is not black: it reads as `0xa`, the hexadecimal prefix
  of `anana`.
- A three-digit shorthand `#fff` is read as `0xfff`, giving (0, 15, 255).
- `#-1` is white.
- A `0x` after the first character is skipped.
- The verdict is order-dependent and strict. A foreground no lighter than its
  background never passes, so black text on white fails while white text on
  black passes.

## Model

| member | source | states |
|---|---|---|
| JsRuntime.ParseIntHexOfDigits | frontend/com/routes/AccessChecker.js:8 | `parseInt(s, 16)` of a non-empty string of hexadecimal digits is the hexadecimal value of the whole string |
| JsRuntime.ParseIntHex | frontend/com/routes/AccessChecker.js:8 | definition of `parseInt(s, 16)`: white space skipped, optional sign, optional `0x`, longest hexadecimal prefix, None for NaN; characterised by the four `ParseIntHex…` lemmas below |
| JsRuntime.TrimStart | backend/AccesssWeb_Extenssion/content.js:3 | the result is a suffix of the input, everything removed is white space, and the result does not start with white space |
| JsRuntime.HexPrefixLength | frontend/com/routes/AccessChecker.js:8 | the prefix read is the longest one: every character before it is a hexadecimal digit and the next one is not |
| JsRuntime.HexValue | backend/AccesssWeb_Extenssion/content.js:3 | the value of n digits is below 16^n; `HexValueAppend` states the positional reading |
| JsRuntime.HexValueAppend | backend/AccesssWeb_Extenssion/content.js:3 | digits are read positionally: the value of `a + b` is the value of `a` times 16 to the power of the length of `b`, plus the value of `b` |
| JsRuntime.ParseIntHexNegative | backend/AccesssWeb_Extenssion/content.js:3 | a leading `-` before hexadecimal digits yields the negated value |
| JsRuntime.ParseIntHexRadixPrefix | backend/AccesssWeb_Extenssion/content.js:3 | a leading `0x` or `0X` is skipped and the digits after it are read |
| JsRuntime.ParseIntHexNaN | frontend/com/routes/AccessChecker.js:8 | a string that is empty, or starts with neither a digit, white space nor a sign, parses to NaN |
| JsRuntime.ShiftedByte | frontend/com/routes/AccessChecker.js:9-11 | `(x >> k) & 0xff` for k = 16, 8, 0 is byte k/8 of the integer `x` stands for, with NaN read as 0 |
| JsRuntime.ToInt32 | frontend/com/routes/AccessChecker.js:9-11 | the result is a signed 32-bit integer congruent to the input modulo 2^32 |
| JsRuntime.NumberToInt32 | backend/AccesssWeb_Extenssion/content.js:4-6 | ToInt32 of a parsed Number is a signed 32-bit integer, and NaN becomes 0 |
| JsRuntime.IntegerOrZero | backend/AccesssWeb_Extenssion/content.js:4-6 | definition: the integer a parsed Number denotes, NaN read as 0; `ShiftedByte` relates it to the shifts |
| JsRuntime.ShiftRight | frontend/com/routes/AccessChecker.js:9-11 | `x >> k` is a signed 32-bit integer; `ShiftedByte` states which byte the mask then extracts |
| JsRuntime.LowByte | backend/AccesssWeb_Extenssion/content.js:4-6 | `& 0xff` gives a value in 0..255 |
| JsRuntime.NatToString | frontend/com/routes/AccessChecker.js:60 | a count's text is a non-empty run of decimal digits, with a leading zero only for 0 |
| JsRuntime.DecimalRoundTrip | backend/AccesssWeb_Extenssion/content.js:31 | reading the decimal text of a count back gives the count |
| JsRuntime.NatToStringInjective | frontend/com/routes/AccessChecker.js:81 | different counts have different decimal texts |
| JsRuntime.BoolToString | frontend/com/routes/AccessChecker.js:132 | definition: `true` or `false`, as a template literal writes a boolean |
| JsRuntime.Join | frontend/com/routes/AccessChecker.js:72 | definition of `join(sep)`; `Audit.JoinSix` states it for six parts |
| Contrast.DecodeColor | frontend/com/routes/AccessChecker.js:8-11 | every string decodes to three channels in 0..255, and they are bytes 2, 1 and 0 of the parsed value (0 for NaN) |
| Contrast.DropFirst | frontend/com/routes/AccessChecker.js:8 | `slice(1)` removes the first character of a non-empty string and leaves the empty string empty |
| Contrast.ColorValue | backend/AccesssWeb_Extenssion/content.js:3 | definition: the parsed value of the rest of the string, NaN read as 0; characterised by `HexColorValue`, `UnparsableDecodesToBlack` and the other decoding lemmas |
| Contrast.BytesOf | frontend/com/routes/AccessChecker.js:9-11 | bytes 2, 1 and 0 of an integer always form a byte triple; `ByteTripleValue` shows that they recover the triple an integer is built from |
| Contrast.HexByte | backend/AccesssWeb_Extenssion/content.js:4-6 | a byte's two hexadecimal digits read back as that byte |
| Contrast.FormatHex | frontend/com/routes/AccessChecker.js:8-11 | the `#rrggbb` text of a byte triple is `#` and six hexadecimal digits, and each pair reads back as its channel |
| Contrast.HexColorValue | frontend/com/routes/AccessChecker.js:8 | for `#rrggbb` the parsed value is `rr * 65536 + gg * 256 + bb` |
| Contrast.SixDigitChannels | backend/AccesssWeb_Extenssion/content.js:3-6 | for `#rrggbb` the channels are the values of the three digit pairs |
| Contrast.DecodeFormatRoundTrip | frontend/com/routes/AccessChecker.js:8-11 | decoding the `#rrggbb` text of any byte triple gives the triple back |
| Contrast.SixDigitFormat | backend/AccesssWeb_Extenssion/content.js:3-6 | formatting the decoded `#rrggbb` gives the string back, lower-cased, with `#` first |
| Contrast.ShorthandNotExpanded | backend/AccesssWeb_Extenssion/content.js:3-6 | `#xyz` decodes to (0, x, 0xyz), not to `#xxyyzz` |
| Contrast.UnparsableDecodesToBlack | frontend/com/routes/AccessChecker.js:8-11 | when the second character is not a digit, white space or sign (or the string is shorter than 2), the value is 0 and the colour is black |
| Contrast.FunctionalNotationIsBlack | frontend/com/routes/AccessChecker.js:8-11 | any `rgb…` text decodes to black |
| Contrast.LeadingHexDigit | backend/AccesssWeb_Extenssion/content.js:3-6 | a single hexadecimal digit in second place followed by a non-digit puts that digit in the blue channel and zeros elsewhere (`banana` is (0, 0, 10)) |
| Contrast.NegativeValueWraps | backend/AccesssWeb_Extenssion/content.js:3-6 | `#-h` decodes to the two's-complement bytes of -h; `#-1` is white |
| Contrast.RadixPrefixSkipped | backend/AccesssWeb_Extenssion/content.js:3 | `#0xh…` decodes to the bytes of the digits after the `0x` |
| Contrast.Linearise | frontend/com/routes/AccessChecker.js:12-15 | a linearised channel lies in [0, 1]; a byte up to 10 gives exactly v / 3294.6, that is (v / 255) / 12.92; 255 gives 1 |
| Contrast.LinearBranchBound | backend/AccesssWeb_Extenssion/content.js:8-9 | for a byte, the linear branch `v / 255 <= 0.03928` is taken if and only if v <= 10 |
| Contrast.RelativeLuminance | frontend/com/routes/AccessChecker.js:16 | because the weights sum to 1, the weighted sum lies in [0, 1], and a grey has the linearised value of its channel |
| Contrast.DarkLuminance | backend/AccesssWeb_Extenssion/content.js:7-11 | for channels all at most 10 the luminance is the weighted sum of the bytes divided by 3294.6, whatever the power |
| Contrast.Luminance | backend/AccesssWeb_Extenssion/content.js:2-12 | `getLuminance` of any string lies in [0, 1] |
| Contrast.BlackLuminance | frontend/com/routes/AccessChecker.js:7-17 | `#000000`, or anything that decodes to black, has luminance exactly 0 |
| Contrast.WhiteLuminance | backend/AccesssWeb_Extenssion/content.js:2-12 | `#ffffff` in either case decodes to white and has luminance exactly 1 |
| Contrast.LuminanceRatio | frontend/com/routes/AccessChecker.js:21 | the ratio lies in [1/21, 21]; it is below 1 if and only if lum1 < lum2; it exceeds 4.5 if and only if lum1 + 0.05 > 4.5 (lum2 + 0.05) |
| Contrast.ContrastRatio | backend/AccesssWeb_Extenssion/content.js:14-16 | the ratio, always taken foreground over background, lies in [1/21, 21] and is below 1 exactly when the background is lighter |
| Contrast.CheckContrast | frontend/com/routes/AccessChecker.js:19-22 | passes if and only if L_fg + 0.05 > 4.5 (L_bg + 0.05); a ratio of exactly 4.5 fails; L_fg <= L_bg always fails |
| Contrast.WhiteOnBlackPasses | backend/AccesssWeb_Extenssion/content.js:14-17 | white on black has ratio 21 and passes |
| Contrast.BlackForegroundNeverPasses | frontend/com/routes/AccessChecker.js:19-22 | a foreground that decodes to black, such as `#000000` or any `rgb(…)`, fails on every background |
| Contrast.SameColourNeverPasses | backend/AccesssWeb_Extenssion/content.js:14-17 | a colour against itself fails, and so do two strings that both parse to NaN |
| Contrast.WcagContrastRatio | frontend/com/routes/AccessChecker.js:21 | the WCAG 2.1 ratio, with the lighter luminance on top, lies in [1, 21] |
| Contrast.WcagSymmetric | frontend/com/routes/AccessChecker.js:22 | the WCAG 2.1 ratio does not depend on which colour is the text |
| Contrast.VerdictAgainstWcag | frontend/com/routes/AccessChecker.js:21-22 | whatever the verdict passes, WCAG 2.1 passes; when the foreground is at least as light, the two agree except at a ratio of exactly 4.5 |
| Contrast.BlackOnWhiteDivergesFromWcag | backend/AccesssWeb_Extenssion/content.js:16-17 | for black on white the ratio is 1/21 and the verdict fails, although WCAG 2.1 passes it |
| Audit.MissingAltsMultiset | frontend/com/routes/AccessChecker.js:57 | the filter keeps every image whose `alt` is empty, as many times as it occurs, and no other image |
| Audit.TagCount | frontend/com/routes/AccessChecker.js:67 | definition: the number of elements with a tag, 0 for a tag that does not occur |
| Audit.MissingAlts | frontend/com/routes/AccessChecker.js:57 | the filter keeps at most as many images as it is given; characterised by `MissingAltsMultiset` and `MissingAltsCount` |
| Audit.CountSentence | frontend/com/routes/AccessChecker.js:60 | definition of a template literal with one count; `CountReadBack` reads the count back |
| Audit.AltTextDetails | backend/AccesssWeb_Extenssion/content.js:31 | definition of the alt-text sentence, read back by `CountReadBack` |
| Audit.MissingAltsCount | backend/AccesssWeb_Extenssion/content.js:28 | the number of missing alts is the number of positions holding an image with an empty `alt` |
| Audit.EmptyAltPositionsStep | backend/AccesssWeb_Extenssion/content.js:28 | one more image adds its position to the set exactly when its `alt` is empty |
| Audit.TagEntries | frontend/com/routes/AccessChecker.js:65-72 | one `tag: count` entry per tag, in the order of the tags |
| Audit.TagEntry | frontend/com/routes/AccessChecker.js:72 | definition of `tag: count` for one tag |
| Audit.SemanticDetailsSpelledOut | backend/AccesssWeb_Extenssion/content.js:35-42 | the semantic details are `Semantic tags found: ` followed by the header, nav, main, footer, article and section entries in that order, separated by `, ` |
| Audit.SemanticDetails | backend/AccesssWeb_Extenssion/content.js:41 | definition of the semantic details; spelled out by `SemanticDetailsSpelledOut` |
| Audit.JoinSix | backend/AccesssWeb_Extenssion/content.js:41 | joining six parts puts the separator between each pair of neighbours |
| Audit.SemanticNavEntry | backend/AccesssWeb_Extenssion/content.js:41 | the semantic details hold `nav: ` and the `nav` count right after the header entry |
| Audit.Positions | frontend/com/routes/AccessChecker.js:87-92 | the positions listed are increasing, each holds an element that passes the test, and every such element is listed |
| Audit.HasInsufficientContrast | backend/AccesssWeb_Extenssion/content.js:55 | definition of the loop condition: both colours non-empty (JavaScript truthiness of a string) and `checkContrast` false |
| Audit.Collect | backend/AccesssWeb_Extenssion/content.js:53-58 | the loop keeps at most one markup string per element; characterised by `CollectExact` |
| Audit.ContrastIssues | frontend/com/routes/AccessChecker.js:86-93 | at most one issue per element; `ContrastIssuesExact` states which |
| Audit.CollectExact | backend/AccesssWeb_Extenssion/content.js:53-58 | what the loop keeps is, entry by entry, the markup at the passing positions in document order |
| Audit.CollectAll | frontend/com/routes/AccessChecker.js:87-92 | when every element passes the test, the loop keeps the markup of all of them, in order |
| Audit.FlaggedPositions | backend/AccesssWeb_Extenssion/content.js:55 | a position is flagged if and only if its element has both colours set and fails `checkContrast`; the positions are increasing |
| Audit.ContrastIssuesExact | backend/AccesssWeb_Extenssion/content.js:52-62 | the issues are the markup of exactly the flagged elements, in document order, and there are as many issues as flagged elements |
| Audit.CollectContrastIssues | frontend/com/routes/AccessChecker.js:86-93 | the `forEach` loop with `push` returns exactly the contrast issues of the elements |
| Audit.FunctionalNotationFlagsAll | frontend/com/routes/AccessChecker.js:88-90 | when every element's colour is in `rgb(…)` notation and its background is set, every element is reported, in order |
| Audit.RunAudit | frontend/com/routes/AccessChecker.js:48-139 | the entry point returns the contrast issues of the page's elements and the eight findings for the page and those issues |
| Audit.AuditReport | frontend/com/routes/AccessChecker.js:58-139 | definition of the eight findings; `ReportShape` and `ReportCounts` state their titles and counts |
| Audit.FocusableDetails | frontend/com/routes/AccessChecker.js:81 | definition of the keyboard sentence, read back by `CountReadBack` |
| Audit.ContrastDetails | frontend/com/routes/AccessChecker.js:97 | definition of the contrast sentence, read back by `CountReadBack` |
| Audit.NavigationDetails | frontend/com/routes/AccessChecker.js:106 | definition of the navigation sentence, read back by `CountReadBack` |
| Audit.FormsDetails | frontend/com/routes/AccessChecker.js:123 | definition of the forms sentence, read back by `CountReadBack` |
| Audit.ViewportDetails | backend/AccesssWeb_Extenssion/content.js:90 | definition of the viewport sentence with the flag as `true` or `false` |
| Audit.ReportShape | backend/AccesssWeb_Extenssion/content.js:29-97 | whatever the page, the report has exactly eight entries with the fixed titles in the fixed order |
| Audit.ReportCounts | frontend/com/routes/AccessChecker.js:57-107 | the alt-text entry states the number of images with empty `alt`; the contrast entry states the number of flagged elements; the semantic entry holds `nav: ` and the `nav` count, and the navigation entry states the same count |
| Audit.CountReadBack | backend/AccesssWeb_Extenssion/content.js:31 | the text between a sentence's fixed prefix and suffix is decimal and reads back as the count |
| Audit.CountSentenceInjective | frontend/com/routes/AccessChecker.js:60 | two sentences of the same template are equal only when their counts are equal |

## Left out

- Browser automation is not modelled: the Puppeteer launch, `page.goto`, the `page.evaluate` round trips and `browser.close` (frontend/com/routes/AccessChecker.js:44-46, 141). They are I/O and asynchronous foreign calls. The `PageSnapshot` given to `Audit.RunAudit` stands for everything the DOM queries return, read at one moment. The content script runs all its queries without awaiting in between (backend/AccesssWeb_Extenssion/content.js:20-100), so there one snapshot is exact. The frontend reads the page through seven separate `page.evaluate` calls (frontend/com/routes/AccessChecker.js:51, 64, 76, 85, 101, 110, 127), and the page's own scripts may change the DOM between them. The model assumes a page that does not change between those calls.
- Audit.ReportCounts: the agreement between the `nav` count in the semantic entry and the one in the navigation entry holds for the content script, but for the frontend only on a page that does not change between its `page.evaluate` calls.
- The frontend passes `checkContrast` to `page.evaluate` as an argument (frontend/com/routes/AccessChecker.js:85, 94). Whether the browser side can call it depends on how the library serialises arguments, which is not visible here. The model calls the contrast function directly, as the content script does.
- `generatePDFReport` (frontend/com/routes/AccessChecker.js:26-40) is left out: it is PDF layout and a file stream.
- `chrome.storage.local.set` (backend/AccesssWeb_Extenssion/content.js:99) is left out: it is extension storage I/O. The model returns `results` instead.
- backend/server.js, backend/AccesssWeb_Extenssion/puppeteer-server.js and backend/AccesssWeb_Extenssion/popup.js are not part of this model. They are HTTP routing, database and file storage, PDF layout and UI handling.
- Form-input extraction is left out: input type, name and label. The report uses only the number of forms, so a `Form` keeps just its method and action. The model also does not capture the failure when an input has no label: `input.labels[0]` is then undefined, and reading `innerText` from it throws, which aborts the report. The model assumes every query succeeds.
- Contrast.DropFirst: a Dafny string is a sequence of Unicode characters, while a JavaScript string is a sequence of UTF-16 code units. For a string whose first character lies outside the Basic Multilingual Plane, `slice(1)` leaves a lone low surrogate, `parseInt` gives NaN and the colour is black. The model drops the whole character instead: for `😀ff` it decodes (0, 0, 255) where JavaScript gives (0, 0, 0). Colour strings from computed styles are ASCII, so they are not affected.
- Contrast.IsSrgbPower: the model does not compute `Math.pow(x, 2.4)`. It assumes only that the power maps `(0, 1]` into `[0, 1]` and maps 1 to 1. So no luminance above channel value 10 is computed exactly, except for 255.
- IEEE-754 rounding is not modelled. Luminances and ratios are exact reals. A ratio that floating point rounds across 4.5 can therefore get a different verdict than in the model.
- Contrast.ColorValue is exact on unbounded integers. `parseInt` loses precision above 2^53, and a prefix of 14 or more hexadecimal digits can exceed 2^53; the rounded value is then converted by ToInt32 (`JsRuntime.ToInt32`). For up to 13 digits the model and JavaScript agree; for longer prefixes the bytes may differ.
- JsRuntime.NatToString writes the decimal digits of a count. JavaScript switches to exponent notation from 10^21, and no DOM count gets that large.
- Conformance levels other than AA for normal text (large text at 3.0, AAA at 7.0) are not in the code, so they are not modelled. Nor is a rejection of malformed colours: the code has none, and the model proves what every string decodes to instead.
