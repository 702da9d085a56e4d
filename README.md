# Calculator engine and keypad state, in Dafny

A model of a browser calculator. The calculator has two parts.

- **The engine (engine.js).** It turns the typed expression into tokens with `tokenize`. It evaluates them with `evaluateExpression`: a shunting-yard pass to postfix order, then a value-stack reduction. It also has small string helpers used while typing:
  - `getPreviewExpression` drops trailing operators;
  - `getLastNumber` is the `-?\d*\.?\d*` suffix;
  - `getTrailingBinaryOperator` finds the operator to highlight;
  - `replaceLastNumber`, `insertValue` and `applyUnaryToExpression` edit the expression;
  - the last step of `formatResult` trims trailing zeros.
- **The keypad handlers (script.js).** They update three variables: `expression`, `errorState` and `justEvaluated`.

## What is modelled

- **Text.** Expressions are `string`s.
- **Tokens.** Tokens are `Numeral(text)` or `Operator(op)`. A numeral can never be spelled like an operator, so nothing is lost by using a datatype instead of the source's strings.
- **Numbers.** Numbers are exact reals plus one `NonFinite` value, which stands for NaN and the infinities.
- **parseFloat.** `ParseFloat` reads the longest prefix of the form `-?\d*(\.\d*)?`. Text without a digit gives no number.
- **Loops become methods.** Each source loop is a method proved equal to a specification function:
  - the tokenizer loop, `Tokenizer.TokenizeExpression`, against `Tokenize`;
  - the three loops of `evaluateExpression`, `Evaluator.EvaluateExpression`, against `Evaluate`;
  - the `while` loop of `getPreviewExpression`, `Editing.GetPreviewExpression`, against `Preview`.
- **A reference for precedence.** `Precedence.ParseAst` is an independent parse of the tokens into a tree. The proofs show:
  - it is the only tree that keeps the tokens in order and respects precedence and left associativity;
  - the shunting-yard output is its post-order;
  - reducing that post-order computes its value, so the stack-size check never fires.
- **Editing helpers.** They are pure functions. Each is specified on the string itself: `Preview` as the unique prefix without trailing operators, `LastNumber` as the longest suffix that the regular expression matches. On expressions made only of digits, '.' and operators, the last-number helpers are also related to the token sequence of the expression.
- **The keypad.** The handlers are the class `Calculator.Calculator`, whose fields are `expression`, `errorState` and `justEvaluated`. Each method is proved to move the state as a pure transition function says (`DigitKey`, `DecimalKey`, and so on). The lemmas about the handlers are stated on those functions.
- **`formatResult`.** Its numeric part is the parameter `format: real -> string`. Only its trailing-zero trimming is modelled, as `Formatting.TrimFraction`.

## Model

| member | source | states |
|---|---|---|
| Tokenizer.TokenizeExpression | engine.js:23-53 | the character loop with its early `null` returns computes exactly `Tokenize` |
| Tokenizer.TokenizeShape | engine.js:28-52 | a successful tokenization alternates numerals (at even positions) and operators, starts with a numeral, and every numeral is decimal text other than "" and "-" |
| Tokenizer.TokenizeSpelling | engine.js:28-52 | concatenating the tokens gives back the input without the characters the tokenizer skips |
| Tokenizer.TokenizeLexical | engine.js:28-47 | characters other than digits, '.' and operators are skipped: the input tokenizes as its lexical characters do |
| Tokenizer.SpellingTokenizes | engine.js:28-52 | alternating tokens written back to back tokenize to exactly those tokens |
| Tokenizer.TokenizeExactly | engine.js:23-53 | `tokenize` gives `ts` if and only if `ts` alternates numerals and operators and spells the input's lexical characters |
| Tokenizer.TrailingSignRejected | engine.js:50 | a '-' at the end, at the start or after an operator, leaves a bare sign and makes `tokenize` return `null` |
| Tokenizer.ExampleSecondPoint | engine.js:33 | a second '.' in one number makes `tokenize` return `null`: "1.2.3" is rejected |
| Tokenizer.ExampleOperatorAfterOperator | engine.js:41 | a binary operator with an empty buffer makes `tokenize` return `null`: "5*+3" is rejected |
| Tokenizer.DoubleMinusRejected | engine.js:37-41 | "--" at the start or after an operator makes `tokenize` return `null` |
| Tokenizer.ExampleDoubleMinus | engine.js:37-41 | "5*--3" is rejected |
| Tokenizer.LastNumeralSplit | engine.js:28-52 | on input ending in a numeral, that numeral is the input's suffix, and the text before it scans to the earlier tokens with an empty buffer |
| Tokenizer.TokenizeEndsInOperator | engine.js:36-46 | input ending in an operator character tokenizes with that operator as its last token; a final '-' then follows a non-operator |
| Evaluator.EvaluateExpression | engine.js:55-118 | the shunting-yard loops and the stack reduction compute exactly `Evaluate`: invalid on a failed or empty tokenization or a trailing operator, divide-by-zero on a zero divisor, otherwise the single finite value left |
| Numbers.Apply | engine.js:95-110 | an operation is finite exactly when both operands are and it is not a division by zero |
| Numbers.ParseWhole | engine.js:83 | `parseFloat` of an optional '-' and digits is the signed value of the digits |
| Numbers.ParsePointed | engine.js:83 | `parseFloat` of sign, digits, '.', digits is the signed whole part plus the fraction |
| Precedence.ParseAstYield | engine.js:62-78 | the reference tree holds exactly the tokens, in order |
| Precedence.ParseAstOrdered | engine.js:62-78 | the reference tree binds `*` and `/` tighter than `+` and `-` and associates to the left |
| Precedence.OrderedUnique | engine.js:62-78 | two trees with the same tokens that both respect precedence and left associativity are equal |
| Precedence.ParseAstIsThePrecedenceTree | engine.js:62-78 | any tree with the tokens in order that respects precedence is the reference tree |
| Precedence.ShuntingYardIsPostOrder | engine.js:64-78 | on well-formed tokens the shunting-yard output (with the `>=` pop rule) is the post-order of the precedence tree |
| Precedence.ReducePostOrder | engine.js:80-111 | reducing a tree's post-order pushes the tree's value or stops with divide-by-zero, and never finds fewer than two values |
| Precedence.TokensWellFormed | engine.js:56-58 | tokens that pass the two validity checks alternate and have odd length |
| Precedence.EvaluateByPrecedence | engine.js:55-118 | `evaluateExpression` is the value of the precedence tree of the tokens, or invalid when tokenizing fails, gives nothing, or ends in an operator |
| Precedence.EvaluateTokens | engine.js:55-118 | for tokens ending in a numeral, the evaluation is the outcome of the precedence tree |
| Precedence.DivByZeroIffZeroDivisor | engine.js:91-93 | evaluation stops with divide-by-zero exactly when some '/' token is followed by a numeral worth exactly 0 |
| Precedence.SingleNumeral | engine.js:80-117 | a single-numeral expression evaluates to its parsed value, or is invalid when that is NaN |
| Examples.EvaluatePrecedenceExample | engine.js:62-78 | "5+3*2" evaluates to 11 |
| Examples.EvaluateLeadingMinusExample | engine.js:37-39 | "-5+2" evaluates to -3: a leading '-' is a sign |
| Examples.EvaluateDivideByZeroExample | engine.js:91-93 | "9/0" is divide-by-zero |
| Examples.EvaluateLeadingPlusExample | engine.js:41 | "+5" is invalid |
| Editing.Preview | engine.js:120-130 | the preview is a prefix of the expression that is empty or does not end in an operator, and only operators were dropped |
| Editing.GetPreviewExpression | engine.js:120-130 | the shrinking loop with its length-one break computes exactly `Preview` |
| Editing.PreviewUnique | engine.js:120-130 | any prefix with those three properties is the preview |
| Editing.PreviewIdempotent | engine.js:120-130 | previewing twice is previewing once |
| Editing.LastNumberIsLongestMatch | engine.js:132-135 | the last number matches `-?\d*\.?\d*` and no earlier start position does, so it is the match the end-anchored regular expression finds |
| Editing.LastNumberStartUnique | engine.js:132-135 | the start of the last number is the only position with that property |
| Editing.LastNumberOfTokens | engine.js:132-135 | on tokenized input ending in a numeral, the last number is that numeral, with the binary '-' before it included when the numeral has no sign of its own |
| Editing.TrailingOperatorIsLastToken | engine.js:137-144 | the trailing binary operator is the last token when that is an operator, and none otherwise; a '-' that is alone or follows an operator is a sign |
| Editing.ReplaceLastNumberRoundTrip | engine.js:146-150 | putting the last number back in its place gives the expression back |
| Editing.ReplaceLastNumberTokens | engine.js:146-150 | replacing the last number with numeral text replaces only the last token, when the last number is that token |
| Editing.InsertValueTokens | engine.js:152-160 | inserting numeral text appends it as a token, after an implicit `*` when the expression ended in a numeral |
| Editing.ApplyUnaryWithoutNumber | engine.js:162-176 | with no usable last number ("", "-" or ".") the transform sees 0, and its formatted result replaces the whole expression or makes the result invalid |
| Editing.ApplyUnaryTokens | engine.js:162-176 | on a trailing numeral, the result is invalid exactly when the transformed value is not finite; otherwise it carries that value and replaces just the last token |
| Editing.LastOperandOfTokens | engine.js:132-135 | the corrected last operand is exactly the last numeral token |
| Editing.ReplaceOperandTokens | engine.js:146-150 | replacing the last operand replaces exactly the last token, whatever operator precedes it |
| Editing.ApplyUnaryToOperandTokens | engine.js:162-176 | the corrected unary application is invalid exactly on a non-finite value and otherwise replaces just the last token |
| Examples.UnarySquareExample | engine.js:162-176 | squaring "4" gives "16" with value 16 |
| Examples.SquareAfterSubtraction | engine.js:132-176 | "5-3" tokenizes with '-' as a binary operator, yet squaring it as written gives "59"; the corrected version gives "5-9" |
| Formatting.TrimFractionOfPoint | engine.js:16-19 | on text ending in a point and digits: unchanged without trailing zeros; zeros after the last non-zero digit removed; the point removed too when only zeros follow it |
| Formatting.TrimFractionIdempotent | engine.js:16-19 | trimming decimal text twice is trimming it once |
| Formatting.TrimFractionKeepsValue | engine.js:16-19 | trimming decimal text with a digit before its point keeps the value `parseFloat` reads |
| Examples.TrimZerosExample | engine.js:17 | "4.50000" becomes "4.5" |
| Examples.TrimPointExample | engine.js:18 | "10.00" becomes "10" |
| Calculator.Cleared | script.js:190-195 | `resetAll` gives no error, no fresh result and an empty expression |
| Calculator.Errored | script.js:182-188 | `showError` shows the error on an empty expression and keeps `justEvaluated` |
| Calculator.DigitKey | script.js:197-212 | after a digit there is no error and no fresh result, and the expression ends in that digit |
| Calculator.DecimalKey | script.js:214-235 | after "." there is no error and no fresh result, and the last number of the expression has a point |
| Calculator.OperatorKey | script.js:237-257 | a non-'-' operator on an empty expression is ignored; otherwise the expression ends in the operator and no result is fresh |
| Calculator.EqualsKey | script.js:259-277 | "=" changes nothing while an error shows, on an empty or "-" preview, or when the preview is invalid; it shows the error (clearing the expression) on divide-by-zero; otherwise the expression becomes the formatted value with `justEvaluated` set and no error; and it keeps an error shown only on an empty expression |
| Calculator.DeleteKey | script.js:281-290 | delete resets an error; it leaves an empty expression unchanged; otherwise it removes exactly the last character and clears `justEvaluated`; no error shows afterwards |
| Calculator.DigitReplacesOrAppends | script.js:197-212 | a digit replaces a fresh result or a lone "0" and is appended otherwise, so "5+0" then 3 gives "5+03" |
| Calculator.DeleteUndoesDigit | script.js:281-290 | delete right after an appended digit restores the earlier expression |
| Calculator.DecimalCases | script.js:214-235 | "." gives "0." right after a result, appends "0." after nothing or an operator, does nothing when the last number has a point, and appends "." otherwise |
| Calculator.DecimalIdempotent | script.js:214-235 | pressing "." twice is pressing it once |
| Calculator.OperatorGrowsOrReplaces | script.js:245-254 | an operator is appended when the expression does not end in one, or when a '-' follows another operator; otherwise it replaces the last character |
| Calculator.OperatorIdempotent | script.js:237-257 | pressing the same operator twice is pressing it once |
| Calculator.DeleteUndoesOperator | script.js:281-290 | delete right after an appended operator restores the earlier expression |
| Calculator.OperatorHighlighted | script.js:237-257 | after `+`, `*` or `/` that operator is the trailing binary operator that gets highlighted |
| Calculator.EqualsEvaluatesPreview | script.js:259-277 | "=" evaluates the expression without its trailing operators: an error exactly when a '/' is followed by a zero numeral; otherwise the formatted precedence value with `justEvaluated` set, or no change when the value is not finite |
| Examples.EqualsLeadingPlusExample | script.js:259-265 | keys '-', '+', '5' give "+5", and "=" on it changes nothing because the evaluation is invalid |
| Calculator.KeysKeepConsistent | script.js:182-290 | every key keeps "an error is shown only on an empty expression" |
| Examples.DigitAfterZeroOperandExample | script.js:206-210 | "5+0" then 3 gives "5+03" |
| Examples.EqualsDivideByZeroExample | script.js:264-268 | "=" on "9/0" shows the error and clears the expression |
| Calculator.Calculator.constructor | script.js:7-9 | the initial state has an empty expression, no error and no fresh result |
| Calculator.Calculator.ResetAll | script.js:190-195 | updates the fields as `Cleared` says |
| Calculator.Calculator.ShowError | script.js:182-188 | updates the fields as `Errored` says |
| Calculator.Calculator.HandleDigit | script.js:197-212 | keeps the invariant and updates the fields as `DigitKey` says |
| Calculator.Calculator.HandleDecimal | script.js:214-235 | keeps the invariant and updates the fields as `DecimalKey` says |
| Calculator.Calculator.HandleOperator | script.js:237-257 | keeps the invariant and updates the fields as `OperatorKey` says |
| Calculator.Calculator.HandleEquals | script.js:259-277 | uses the preview and evaluation methods, keeps the invariant, and updates the fields as `EqualsKey` says |
| Calculator.Calculator.HandleDelete | script.js:281-290 | keeps the invariant and updates the fields as `DeleteKey` says |

## Left out

- **Display and events.** The DOM lookups, `updateDisplay`, `updateOperatorHighlight`, the `textContent` writes and the click and keyboard listeners only display the state or route keys to the handlers.
- **The `window.CalculatorEngine` export and `toRadians`.** The export has no behaviour of its own. `toRadians` is IEEE floating-point arithmetic on `Math.PI`.
- **Copies in script.js.** Lines 11-152 of script.js repeat the engine functions of engine.js. They are modelled once, on engine.js.
- **The numeric part of `formatResult`.** The `Number.EPSILON` nudge, `Math.round`, `toString` and `toPrecision` are IEEE behaviour. The formatter is the parameter `format`, and only the trimming of trailing zeros is modelled.
- **IEEE arithmetic.** Finite doubles are exact reals. NaN and the infinities are one `NonFinite` value. So overflow, rounding and signed zero are not modelled, and `b === 0` is a test for the real zero.
- **parseFloat.** Only the forms the tokenizer emits are modelled: an optional '-', digits and at most one point. Exponents, a leading '+', whitespace and "Infinity" cannot occur in numerals and are not modelled.
- **The `switch` default.** In `evaluateExpression` the `default: return {valid:false}` branch is unreachable: operators are a type of four characters here.
- **`insertValue` on numbers.** `Editing.InsertValue` takes the value already as text, because formatting a number is the abstract `format`.
- **Chained unary minuses.** The model follows the code, not the design notes. The notes describe chained unary minuses collapsing. The code returns `null` for "--" after an operator, and so does the model.
- Formatting.TrimFractionIdempotent: it is stated only for decimal text. On text with two points, such as "1.0.00", one trim gives "1.0" and a second gives "1". That text cannot come from formatting a number.
- Editing.ReplaceLastNumberTokens: requires that the last number is not an unsigned numeral after a binary '-'; outside that case the source does not replace just the last token (see Findings).
- Editing.ApplyUnaryTokens: requires the last number is not an unsigned numeral after a binary '-'. Outside that case the source does not replace just the last token; see Findings.
- Tokenizer.LastNumeralSplit, Tokenizer.TokenizeEndsInOperator, Editing.LastNumberOfTokens, Editing.TrailingOperatorIsLastToken, Editing.ReplaceLastNumberTokens, Editing.InsertValueTokens, Editing.ApplyUnaryTokens, Editing.LastOperandOfTokens, Editing.ReplaceOperandTokens and Editing.ApplyUnaryToOperandTokens: these require that the expression holds only digits, '.' and operators (`AllLexical`). After "=", the expression is the text of `formatResult`, which can be in exponent form ("1e+21"). `tokenize` skips the 'e' and the string helpers do not, so the two views differ: "1e5" tokenizes to ["15"], but its last number is "5". On such text these lemmas say nothing. The string-level statements hold without that restriction: `Editing.LastNumberIsLongestMatch` for every expression, and `Editing.ReplaceLastNumberRoundTrip` for every expression with a last number.
- **tests.js.** It is a DOM test harness. Its expectations appear here as example lemmas.

## Findings

| source | as written | input that shows it | evidently intended | confidence | as-written member | corrected member |
|---|---|---|---|---|---|---|
| engine.js:132-135, 146-150, 162-176 | the last number is the regular-expression match `-?\d*\.?\d*`, which takes in a binary '-'; `applyUnaryToExpression` then transforms the negated operand and overwrites the operator | squaring "5-3": the transform sees -3, and "5-3" becomes "59" | transform the operand 3 and keep the operator: "5-9" | not executed; high | Examples.SquareAfterSubtraction | Editing.ApplyUnaryToOperandTokens |
