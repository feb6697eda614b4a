# postcss-do-math: `processStringValue` and `processExpression` in Dafny

postcss-do-math is a PostCSS plugin. It rewrites `do_math(<expression>)` in
declaration values and in `@media` parameters into the value of the
expression. This project models its two core functions and proves
properties of them.

- **`processStringValue`** (module `StringValue`, with the pattern search in
  `Locator`) works on one declaration value or media query.
  - It returns "no change" (`false`, modelled as `None`) when the text lacks
    `do_math(`, when the pattern does not match, or when the capture is empty.
  - Otherwise it hands the capture to `processExpression`.
  - It then replaces the first occurrence of the full match's text with the
    result, through `String.prototype.replace` and its `$` replacement
    patterns.
  - It returns "no change" as well when that leaves the text as it was.
  - Declarations use the pattern `do_math\((.*)\)`. Media queries use
    `do_math\((.*)\)(?=\))`. `.` stops at line terminators, and `.*` is greedy.
- **`processExpression`** (module `Expression`) takes the expression and
  trims it. It then scans for the tokens `([0-9.]+)([a-z%]+)` (module
  `UnitScan`) and collects their lower-cased units (module `Rewrite`).
  - **calc path.** Percentages mixed with px, em or rem give
    `calc(<expression>)`. Each em/rem token's first occurrence is replaced by
    its value times the base pixel size, followed by `px`.
  - **Otherwise:**
    - It picks the target unit.
    - It warns about mixed units.
    - It replaces each token's first occurrence by its number. The number is
      converted to pixels when px is mixed with em or rem.
    - It evaluates the result and formats it. Integers are printed as they
      are. Other numbers are rounded to six decimals, with trailing zeros
      dropped (module `Numbers`).
    - It appends the target unit.
  - **On failure.** A failed evaluation gives `do_math(<trimmed expression>)`
    back, with a warning.

Design of the model:

- **The evaluator.** mathjs `evaluate`, together with the formatting that
  throws on a result that is not a number, is the parameter
  `eval: string -> Evaluation`. An `Evaluation` is a number, NaN or an
  infinity, or an error message.
- **Warnings.** `console.warn` output is returned as a list of `Warning`
  values, in the order in which it is written.
- **Numbers.**
  - Token literals are exact decimals, `Decimal(mantissa, scale)`.
  - Evaluated results are reals.
  - `parseFloat`, `toString` and `toFixed(6)` rounding (half away from zero)
    are written out on those values.
- **Loops.** `ProcessExpression` is a method. Its two `forEach` loops
  (`CalcLoop`, `CleanLoop`) are proved against the specification function
  `ExpressionOutcome`. The function `ReplaceEach` states what they do.
- **String replacement.** `String.prototype.replace(string, string)` is
  `Text.JsReplace`. It replaces the first occurrence and expands `$$`, `$&`,
  ``$` `` and `$'` in the replacement.
- **Splicing.** `Text.Splice` puts text in place of a given span. It is the
  corrected replacement used by `StringValue.ProcessStringValueSpliced`; see
  Findings.

## Model

| member | source | states |
|---|---|---|
| StringValue.ProcessStringValue | src/index.ts:39-76 | A value without `do_math(` gives "no change"; a new value is never equal to the old one |
| StringValue.LocatedIsFirstMatch | src/index.ts:50-62 | An expression is processed exactly when the pattern matches somewhere and its capture is non-empty; the match used is then the leftmost one |
| StringValue.OnlyFirstOccurrenceReplaced | src/index.ts:65 | As written, the text before and the text after the first occurrence of the matched text are kept unchanged |
| StringValue.ProcessStringValueSpliced | src/index.ts:39-76 | The corrected operation keeps the same contract: no marker gives no change; a new value always differs from the old one |
| StringValue.SplicedReplacesMatch | src/index.ts:57-75 | The corrected replacement puts the processed text, as written, in place of the match. The warnings are those of the expression. The result is "no change" exactly when the processed text equals the full match |
| StringValue.FallbackKeepsValue | src/index.ts:65-75 | With the corrected splice, processing that gives back `do_math(<capture>)` leaves the value unchanged (`false`) and keeps the expression's warnings |
| StringValue.FallbackKeepsValueAsWritten | src/index.ts:65-75 | As written, with `replace`, processing that gives back `do_math(<capture>)` for a capture without `$` leaves the value unchanged (`false`) and keeps the expression's warnings |
| StringValue.FailedEvaluationKeepsValue | src/index.ts:57-75 | With the corrected splice, a capture without surrounding white space whose evaluation fails leaves the value as it was, and the failure is reported last |
| StringValue.FailedEvaluationKeepsValueAsWritten | src/index.ts:57-75 | As written, a capture without `$` and without surrounding white space whose evaluation fails leaves the value as it was, and the failure is reported last |
| StringValue.DollarFreeOutcome | src/index.ts:87-191 | `processExpression` never introduces a `$` into an expression that had none |
| StringValue.DeclarationReplacesMatch | src/index.ts:50-65 | For a declaration without `$`, replacing the first occurrence of the full match is the same as replacing the match itself |
| Locator.FirstMatch | src/index.ts:53 | `exec` returns the leftmost position where the pattern matches; no earlier position matches |
| Locator.MatchShape | src/index.ts:50 | A match is `do_math(`, then a capture with no line terminator, then an accepted `)`. No later accepted `)` exists on that line, so the capture is the longest one |
| Locator.MatchNeedsMarker | src/index.ts:42-53 | A match exists only if the text contains `do_math(`, so the `includes` guard loses nothing |
| Locator.FirstOccurrenceIsMatch | src/index.ts:50-65 | For the declaration pattern, the first occurrence of the matched text is the match itself, because an earlier copy would itself match |
| Expression.ProcessExpression | src/index.ts:87-191 | The method returns exactly the text and the warnings that the specification `ExpressionOutcome` gives |
| Expression.CalcLoop | src/index.ts:113-131 | The calc loop builds the sequential first-occurrence rewrite `ReplaceEach` of the em/rem tokens |
| Expression.CleanLoop | src/index.ts:149-171 | The clean loop builds the sequential first-occurrence rewrite `ReplaceEach` of every token into its number |
| Expression.TrimFirst | src/index.ts:89 | Trimming the expression first makes its outcome independent of surrounding white space |
| Expression.CalcPath | src/index.ts:110-132 | Percentages mixed with px, em or rem give `calc(<rewritten expression>)` with no warning |
| Expression.CalcIgnoresEvaluator | src/index.ts:110-132 | The calc path evaluates nothing, so its outcome is the same for every evaluator |
| Expression.CalcRewritesInPlace | src/index.ts:113-131 | In the calc path, each em/rem token becomes its pixel value plus `px` at the place where it was found; all other text is kept |
| Expression.CleanInPlace | src/index.ts:149-171 | The expression handed to the evaluator has every token replaced, where it stood, by its number, and no number-with-unit is left in it |
| Expression.OutsideCalc | src/index.ts:134-183 | Outside the calc path, the outcome is the evaluator's answer on the clean expression, with the target unit and the mixed-units warning |
| Expression.EvaluationFails | src/index.ts:185-190 | A failed evaluation returns `do_math(<trimmed expression>)`. The last warning reports the failure and carries the evaluator's message |
| Expression.EvaluationSucceeds | src/index.ts:173-183 | A successful evaluation returns the formatted number followed by the target unit. The only warning possible is the mixed-units one, and it appears exactly when units are mixed |
| Expression.TargetUnitFacts | src/index.ts:134-140 | The target unit is empty without tokens and otherwise one of the units found. It is px exactly when px is mixed with em/rem or px comes first |
| Expression.WarnsMixedIff | src/index.ts:142-146 | The mixed-units warning is written exactly when two different units occur and the set of units is neither {px, em} nor {px, rem} |
| UnitScan.ScanFrom | src/index.ts:93 | The global match returns each leftmost match after the previous one, leaves no match between or after them, and each match is a greedy run of `[0-9.]` and then of unit characters |
| UnitScan.TokenFacts | src/index.ts:93 | Each token has at least one number character and at least one unit character, sits in the expression at its position, and is not followed by a unit character |
| UnitScan.RematchGivesParts | src/index.ts:101-104 | Matching a token's own text again splits it into the same number and unit |
| Rewrite.UnitsRematch | src/index.ts:101-104 | Re-matching each token's own text always succeeds, so the `?? ''` fallback never applies. Each entry of `units` is the lower-cased unit group of that re-match: non-empty, and made only of lower-case letters and `%` |
| Rewrite.Rewritten | src/index.ts:117-125 | The calc loop rewrites a token exactly when its unit is em or rem; the clean loop rewrites every token, and a token whose number parses becomes text with no unit character |
| Rewrite.ReplaceEachIsPositional | src/index.ts:149-171 | When every token's number parses (and, in the calc loop, no unit merely starts like em/rem), the sequential first-occurrence rewrite replaces each token where the scan found it |
| Rewrite.CleanLeavesNoUnits | src/index.ts:149-171 | When every number parses, the clean expression contains no number-with-unit |
| Numbers.Scale | src/index.ts:124 | Multiplying by the base pixel size keeps NaN as NaN and multiplies the value of a finite number |
| Numbers.ParseFloatNaN | src/index.ts:119 | `parseFloat` of a token's number gives NaN exactly when the text is empty or starts with a `.` that is not followed by a digit |
| Numbers.Normalize | src/index.ts:168 | Dropping trailing zeros keeps the value and the sign and leaves no trailing zero in a fraction |
| Numbers.DecimalToStringRoundTrip | src/index.ts:168 | The text `toString` writes for a number reads back through `parseFloat` as that number (after a leading `-`) |
| Numbers.DecimalToStringNoTrailingZero | src/index.ts:168 | A printed fraction never ends in `0`, and a whole number is printed without a point |
| Numbers.RoundedSpec | src/index.ts:178-180 | An integer result is printed exactly. Any other result is printed within half a millionth, with at most six decimals |
| Numbers.FormatResultShape | src/index.ts:178-180 | An integer result has no decimal point, and a printed fraction does not end in zero |
| Text.TrimSpec | src/index.ts:89 | `trim` removes exactly the leading and trailing white space and line terminators |
| Text.JsReplaceSpec | src/index.ts:65 | `replace` leaves a text without the pattern unchanged. Otherwise it keeps the text before and after the first occurrence, and inserts a `$`-free replacement as written |
| Text.ReplaceWithItself | src/index.ts:65 | Replacing a `$`-free text that occurs with itself changes nothing |
| Text.JsReplaceLiteral | src/index.ts:65 | With a `$`-free replacement, `replace` splices the replacement over the first occurrence |
| Findings.DollarPatternFinding | src/index.ts:65 | As written, `do_math($&)` with a failing evaluation becomes `do_math(do_math($&))`; the spliced version leaves it unchanged |
| Findings.MediaEarlierCopyFinding | src/index.ts:65 | As written, the media value `do_math(1)` + newline + `do_math(1))` has its first line rewritten, although the match is on the second line; the spliced version rewrites the match |

## Left out

- The plugin wiring is not modelled. This covers the option default
  `basePixelSize ?? 16`, the declaration and `@media` hooks, and writing the
  result back (src/index.ts:12-35, 193-195). The base size and the pattern
  mode are parameters instead.
- The `prop` text given for a media query (`@media <params>`) is an ordinary
  string parameter.
- `console.warn` is not called. Warnings are returned as values, in order,
  and the message templates are not formatted.
- mathjs `evaluate` is a parameter, and its expression language is not
  modelled.
  - A result that is not a number (a unit, a matrix, a string) makes the
    formatting throw. It is modelled as a `Threw` evaluation.
- IEEE-754 arithmetic is not modelled.
  - `value * basePixelSize` is an exact decimal product (`Numbers.Scale`).
  - `toString` is the exact shortest decimal. It does not switch to
    exponent notation for very large or very small magnitudes.
  - `toFixed(6)` rounds the exact real.
- Strings are sequences of characters, not UTF-16 code units.
  - Lower-casing covers only ASCII letters. That is enough for units, which
    are made of ASCII letters and `%`.
- A caller-supplied regular expression other than the two patterns is not
  modelled. The `g` flag's `lastIndex` is always 0 here, because each call
  makes a new expression.
- Rewrite.ReplaceEachIsPositional: assumes every token's number parses and,
  in the calc loop, that no unit merely starts like em/rem (such as `emx`).
  Without that, the first occurrence of a token's text can lie inside an
  earlier rewritten token or inside a `NaN`.
- Rewrite.CleanLeavesNoUnits: assumes every token's number parses, because
  a `NaN` left by `parseFloat` is itself made of unit characters.
- Expression.CalcRewritesInPlace: holds under the same assumption as
  Rewrite.ReplaceEachIsPositional.
- Expression.CleanInPlace: holds under the same assumption as
  Rewrite.CleanLeavesNoUnits.
- StringValue.DeclarationReplacesMatch: stated only for values without `$`.
  With `$`, the two replacements differ (see Findings).
- StringValue.FailedEvaluationKeepsValue: stated only for captures without
  surrounding white space. Otherwise the fallback `do_math(<trimmed>)`
  differs from the match, and the value does change. It is a property of
  the corrected splice; StringValue.FailedEvaluationKeepsValueAsWritten
  gives the as-written `replace`.
- StringValue.FallbackKeepsValue: a property of the corrected splice. For
  the as-written `replace`, see StringValue.FallbackKeepsValueAsWritten.
- StringValue.FallbackKeepsValueAsWritten: stated only for captures without
  `$`. With `$&` and similar in the capture, the fallback is expanded and
  the value grows (first row of Findings).
- StringValue.FailedEvaluationKeepsValueAsWritten: stated only for captures
  without `$` and without surrounding white space, for the same two
  reasons.

## Findings

| source | as written | input that shows it | evidently intended | confidence | as-written member | corrected member |
|---|---|---|---|---|---|---|
| src/index.ts:65 | The processed result is passed as the replacement string of `replace`, so `$&`, `$$`, `` $` `` and `$'` in it are expanded | Declaration value `do_math($&)` where evaluating `$&` fails: the fallback `do_math($&)` expands to `do_math(do_math($&))` | The result is inserted as written, so a failed evaluation leaves the value unchanged | high (derived by proof, not executed) | Findings.DollarPatternFinding | StringValue.ProcessStringValueSpliced |
| src/index.ts:65 | The first occurrence of the matched text is replaced, which need not be the match; with the media pattern an earlier identical text on another line is hit | Media parameters `do_math(1)` + newline + `do_math(1))` where `1` evaluates to 1: the result is `1` + newline + `do_math(1))` | The match itself is replaced, giving `do_math(1)` + newline + `1)` | high (derived by proof, not executed) | Findings.MediaEarlierCopyFinding | StringValue.SplicedReplacesMatch |
