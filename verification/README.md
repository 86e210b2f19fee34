# Calc-U-Later calculator engine in Dafny

This project models the engine of the Calc-U-Later calculator
(`CalculatorState.kt`) and proves properties of the model. The engine is a
pure reducer, `onCalculatorAction`, that maps an immutable calculator state
and one key press to the next state. It keeps the following:

- a display string;
- a "previous expression" line;
- an accumulator paired with a waiting operation;
- an overwrite flag, meaning the next digit starts a new number;
- a memory register;
- an error flag that traps every key except Clear.

Numbers pass through text. Every operation reads the display back with
`toSafeDouble`, and every result is written with `formatNumber`, which
works as follows:

- The value is rounded half-up to eight places.
- The integer digits are grouped by '.' in threes, and the fraction follows a ','.
- A value whose rounding to eight places is non-zero and below 1e-4 in magnitude, or 1e10 or more, is written in `%.6e` form. A value that rounds to zero shows "0".
- 1e100 or more shows "Overflow".
- Every result is cut to 24 characters.

Modules, one per file:

| module | file | contents |
|---|---|---|
| `Numerics` | numerics.dfy | Powers of ten, `HalfUp` rounding, absolute values. |
| `Text` | text.dfy | Digits, trimming, replacing, searching and counting in `seq<char>`. |
| `Options` | option.dfy | `Option<T>` for Kotlin's nullable values. |
| `Formatter` | format.dfy | `formatNumber` and `formatForDisplay`. |
| `Parser` | parse.dfy | `toSafeDouble`, with Java's double-literal grammar restricted to decimal literals. |
| `Reparse` | reparse.dfy | What the reader makes of the text the formatter writes. |
| `Calculator` | calculator.dfy | The state, the actions, the reducer `Step` and every handler. |
| `CalculatorProofs` | calculator_proofs.dfy | Invariants and properties of the reducer. |
| `Scenarios` | scenarios.dfy | Whole key sequences worked through the reducer. |

Modelling choices:

- **Reals for doubles.** `Double` values are exact `real`s.
- **Rounding.** `BigDecimal.setScale(8, HALF_UP)` is the integer
  `n = HalfUp(v * 10^8)`, so the rounded BigDecimal is `n / 10^8`.
- **Reading the display.** The handlers that read the display (operation,
  equals, percent, sign toggle, memory add and subtract) take the number read
  as a `current: real` parameter. `Step` passes them `Current(s)`, which is
  `ToSafeDouble(s.display)`, just as the Kotlin handlers call
  `displayValue.toSafeDouble()` themselves.

**Reading a display back is not always exact.** `toSafeDouble` turns the
grouped form back into a number only when the text contains ','. The rules
are below; `Reparse.ReparsePlain` proves them.

- A display with a fraction, or with at most three integer digits, reads
  back as the value shown.
- A display of four to six integer digits has one grouping point, so the
  reader takes it as a decimal point. "10.900" reads back as 10.9.
- A display of seven or more integer digits has two points, so the reader
  cannot parse it and returns 0.

So `Scenarios.GroupedSumReadBack` shows 8800 + 2100 = "10.900", and adding
100 then shows "110,9". The repository's test of the same kind of key
sequence expects "11.000". The round trip is therefore stated only where it
holds (`Reparse.ReparseDisplay`). Outside that, the exact result is stated
(`Reparse.ReparseGroupedInteger`).

## Model

Source paths are relative to the repository root. `CalculatorState.kt` stands for
`src/main/java/com/sunwings/calc_u_later/calculator/CalculatorState.kt` in
the prose; the table gives the full path.

| member | source | states |
|---|---|---|
| Calculator.Step | src/main/java/com/sunwings/calc_u_later/calculator/CalculatorState.kt:44-63 | In the error state every action except Clear returns the state unchanged. Clear gives the default state with the memory kept. Only the three memory actions change the memory register, and MemoryClear sets it to 0. |
| Calculator.ClampDigit | src/main/java/com/sunwings/calc_u_later/calculator/CalculatorState.kt:66 | The key's digit is clamped into 0..9: kept when in range, 0 below the range, 9 above it. |
| Calculator.AppendDigit | src/main/java/com/sunwings/calc_u_later/calculator/CalculatorState.kt:65-80 | If the digit limit forbids another digit, the state is unchanged. Otherwise overwrite and error are cleared. The digit replaces a display being overwritten or reading "0". It is appended to a display shorter than 24. A full display stays as it is. Accumulator, waiting operation, memory and expression line are kept. |
| Calculator.AppendDecimal | src/main/java/com/sunwings/calc_u_later/calculator/CalculatorState.kt:82-91 | If the base ("0" when overwriting, else the display) already has ',', nothing changes. Otherwise ',' is appended to the base and overwrite is cleared. A full display being edited is cut to its first 24 characters instead. The display stays within 1..24 characters. |
| Calculator.CurrentNumber | src/main/java/com/sunwings/calc_u_later/calculator/CalculatorState.kt:99-103 | The segment the digit limit counts is the longest suffix of the display free of '+', '−', '×' and '÷'. It is preceded by an operator symbol whenever it is not the whole display. |
| CalculatorProofs.DigitCapRule | src/main/java/com/sunwings/calc_u_later/calculator/CalculatorState.kt:97-108 | A new number may always start. On a display without an operator symbol, a further digit is allowed exactly when the display has fewer than ten digits. |
| CalculatorProofs.DigitCapAfterOperator | src/main/java/com/sunwings/calc_u_later/calculator/CalculatorState.kt:97-108 | Whatever precedes the last operator symbol, a further digit is allowed exactly when the number after it has fewer than ten digits. |
| CalculatorProofs.DigitCapIgnoresSignAndComma | src/main/java/com/sunwings/calc_u_later/calculator/CalculatorState.kt:105-107 | For a typed number "-w,f", a digit is allowed exactly when w and f together have fewer than ten digits. The sign and the comma do not count. |
| CalculatorProofs.DigitLimit | src/main/java/com/sunwings/calc_u_later/calculator/CalculatorState.kt:97-108 | Once a digit-only display being edited has ten or more digits, a Digit key leaves the state unchanged. |
| Text.CountDigitsScan | src/main/java/com/sunwings/calc_u_later/calculator/CalculatorState.kt:106 | A left-to-right count of the ASCII digits equals the recursive definition of the count. |
| Calculator.PerformBinaryOperation | src/main/java/com/sunwings/calc_u_later/calculator/CalculatorState.kt:203-208 | There is no result exactly when the operation is a division and the divisor is within 1e-12 of zero. A quotient times the divisor gives back the dividend. A difference plus the subtrahend gives back the minuend. A sum minus the addend gives back the augend. A product divided by a non-zero factor gives back the other factor, and a product with a zero factor is 0. |
| Calculator.ApplyOperation | src/main/java/com/sunwings/calc_u_later/calculator/CalculatorState.kt:110-135 | When an operand and an operation wait and a number has been typed, the waiting operation is carried out. Its result is shown and becomes the operand. The error state results exactly when that chained division fails. Otherwise the operand is the accumulator, or failing that the number shown, and the display is kept. Unless in error, the new operation waits, overwrite is set, and the line above shows the operand and the symbol. The memory is kept. |
| Calculator.Evaluate | src/main/java/com/sunwings/calc_u_later/calculator/CalculatorState.kt:137-150 | With no waiting operation or no operand, nothing changes. A failed division gives the error state. Otherwise the display shows the result and nothing is left waiting. The line above shows "a op b =" with both operands formatted. Overwrite is set and error is cleared. |
| Calculator.ApplyPercent | src/main/java/com/sunwings/calc_u_later/calculator/CalculatorState.kt:152-164 | The display shows the number divided by 100. When an operand and an operation wait, it shows the operand times that instead. Overwrite is set, error is cleared, and everything else is kept. |
| Calculator.DeleteLast | src/main/java/com/sunwings/calc_u_later/calculator/CalculatorState.kt:177-184 | The display is never empty, "-" or "-0" afterwards. In overwrite mode it becomes "0". Otherwise the last character is dropped, and a remainder that is empty, "-" or "-0" becomes "0". Only the display changes. |
| Calculator.Reset | src/main/java/com/sunwings/calc_u_later/calculator/CalculatorState.kt:186 | Gives display "0", an empty expression line, nothing waiting, overwrite set and no error. The memory is kept. |
| Calculator.WithDisplay | src/main/java/com/sunwings/calc_u_later/calculator/CalculatorState.kt:188-192 | Shows the formatted value, sets overwrite and clears error. Operands, operation, memory and expression line are kept. |
| Calculator.ErrorState | src/main/java/com/sunwings/calc_u_later/calculator/CalculatorState.kt:194-201 | Shows "Error", sets the error and overwrite flags, and clears the operand, the operation and the expression line. The memory is kept. |
| CalculatorProofs.InitialInv | src/main/java/com/sunwings/calc_u_later/calculator/CalculatorState.kt:12-20 | The default state satisfies the invariant. |
| CalculatorProofs.StepInv | src/main/java/com/sunwings/calc_u_later/calculator/CalculatorState.kt:44-63 | Every action keeps the invariant. The display is non-empty and at most 24 characters. An operand waits exactly when an operation does. The error state shows "Error" with nothing waiting and overwrite set. |
| CalculatorProofs.RunInv | src/main/java/com/sunwings/calc_u_later/calculator/CalculatorState.kt:44-63 | Any sequence of actions keeps the invariant. |
| CalculatorProofs.ErrorIsSticky | src/main/java/com/sunwings/calc_u_later/calculator/CalculatorState.kt:45-47 | From the error state, any sequence of actions without Clear leaves the state unchanged. |
| CalculatorProofs.ClearRecovers | src/main/java/com/sunwings/calc_u_later/calculator/CalculatorState.kt:54 | From any state, including the error state, Clear gives the default state with the memory kept. |
| CalculatorProofs.DecimalIdempotent | src/main/java/com/sunwings/calc_u_later/calculator/CalculatorState.kt:82-91 | Pressing ',' twice has the same effect as pressing it once. |
| CalculatorProofs.EqualsIdempotent | src/main/java/com/sunwings/calc_u_later/calculator/CalculatorState.kt:137-150 | Pressing '=' twice has the same effect as pressing it once. |
| CalculatorProofs.OperationReplaces | src/main/java/com/sunwings/calc_u_later/calculator/CalculatorState.kt:110-135 | A second operation pressed straight after a first one that did not fail computes nothing. It only replaces the waiting operation and its symbol on the line above. |
| CalculatorProofs.EqualsShowsResult | src/main/java/com/sunwings/calc_u_later/calculator/CalculatorState.kt:137-150 | When the waiting operation succeeds, '=' shows its result and leaves nothing waiting. Where the display reads back exactly, the next key computes with the result rounded to eight places. |
| CalculatorProofs.TypeDigitsShows | src/main/java/com/sunwings/calc_u_later/calculator/CalculatorState.kt:65-80 | Starting a new number and typing one to ten digits, the first not zero, shows exactly those digits. Nothing else changes but the overwrite flag. |
| CalculatorProofs.TypeDigits | src/main/java/com/sunwings/calc_u_later/calculator/CalculatorState.kt:65-80 | Typed digits are shown, and they read back as the number they spell. |
| CalculatorProofs.BackspaceUndoesDigit | src/main/java/com/sunwings/calc_u_later/calculator/CalculatorState.kt:177-184 | A digit typed onto the number being edited, then Backspace, gives back the state exactly. |
| CalculatorProofs.MemoryAddSubtract | src/main/java/com/sunwings/calc_u_later/calculator/CalculatorState.kt:60-61 | M+ adds the number shown to the memory and M− subtracts it. M+ followed by M− restores the state. |
| CalculatorProofs.MemoryOnlyChangesMemory | src/main/java/com/sunwings/calc_u_later/calculator/CalculatorState.kt:58-61 | MC, M+ and M− change nothing but the memory register. |
| CalculatorProofs.MemoryRecallReadsBack | src/main/java/com/sunwings/calc_u_later/calculator/CalculatorState.kt:59 | MR shows the formatted memory. Where the display reads back exactly, it reads back as the memory rounded to eight places. |
| CalculatorProofs.DivisionByZero | src/main/java/com/sunwings/calc_u_later/calculator/CalculatorState.kt:194-207 | With a division waiting and a display within 1e-12 of zero, '=' gives the error state. So does another operation after a typed number. |
| CalculatorProofs.ToggleTwice | src/main/java/com/sunwings/calc_u_later/calculator/CalculatorState.kt:166-175 | On a non-zero display that reads back exactly, the sign-toggle handler applied twice restores the display. |
| CalculatorProofs.ToggleSignTwice | src/main/java/com/sunwings/calc_u_later/calculator/CalculatorState.kt:166-175 | The same through the reducer: two ± keys restore the display. |
| Calculator.FlipSign | src/main/java/com/sunwings/calc_u_later/calculator/CalculatorState.kt:166-175 | When the number read is zero, the whole state is unchanged. Otherwise only the display changes, overwrite and error are cleared, and the operand, waiting operation, memory and line above are kept. |
| CalculatorProofs.ToggleZero | src/main/java/com/sunwings/calc_u_later/calculator/CalculatorState.kt:166-168 | Through the reducer, the sign key on a display reading as zero changes nothing. |
| CalculatorProofs.ToggleKeeps | src/main/java/com/sunwings/calc_u_later/calculator/CalculatorState.kt:166-175 | Through the reducer, the sign key keeps the operand, the waiting operation, the memory and the line above. On a non-zero display it clears overwrite and error. |
| CalculatorProofs.FlipShowsNegation | src/main/java/com/sunwings/calc_u_later/calculator/CalculatorState.kt:166-175 | For a value shown in plain notation, toggling the sign of its non-zero eight-place rounding shows the formatted negation of the original value. It clears overwrite and error. |
| CalculatorProofs.PercentReadsBack | src/main/java/com/sunwings/calc_u_later/calculator/CalculatorState.kt:152-164 | After '%', overwrite is set. Where the display reads back exactly (a plain display with a fraction or at most three integer digits), it reads back as the percentage rounded to eight places. |
| Formatter.FormatNumber | src/main/java/com/sunwings/calc_u_later/calculator/CalculatorState.kt:210-234 | The display text is 1 to 24 characters long. A magnitude of 1e100 or more shows "Overflow". |
| Formatter.FormatPlain | src/main/java/com/sunwings/calc_u_later/calculator/CalculatorState.kt:215-228 | Outside the scientific range, the text is the plain grouped display of the value rounded to eight places, at most 23 characters, so it is never cut. |
| Formatter.PlainRange | src/main/java/com/sunwings/calc_u_later/calculator/CalculatorState.kt:265-291 | Given an already rounded value outside the scientific range, formatForDisplay re-rounds nothing and writes its plain grouped display. |
| Formatter.FormatInteger | src/main/java/com/sunwings/calc_u_later/calculator/CalculatorState.kt:275-291 | An integer below 1e10 in magnitude shows an optional '-', then its decimal digits grouped by '.', and no comma. |
| Formatter.FormatZero | src/main/java/com/sunwings/calc_u_later/calculator/CalculatorState.kt:275-277 | A value that rounds to zero, including a negative one, shows "0". |
| Formatter.GroupUngroup | src/main/java/com/sunwings/calc_u_later/calculator/CalculatorState.kt:285-287 | Removing the '.' separators from the grouped digits gives back the digits. |
| Formatter.GroupSeparators | src/main/java/com/sunwings/calc_u_later/calculator/CalculatorState.kt:285-287 | The grouped text has only digits and '.'. A '.' stands exactly at every position followed by a multiple of three digits, counted from the right, and never first. |
| Formatter.GroupHasSeparator | src/main/java/com/sunwings/calc_u_later/calculator/CalculatorState.kt:286 | The grouped text contains '.' exactly when there are more than three digits. |
| Formatter.GroupLength | src/main/java/com/sunwings/calc_u_later/calculator/CalculatorState.kt:286 | Grouping d digits adds (d − 1) / 3 separators. |
| Formatter.PlainDisplayLength | src/main/java/com/sunwings/calc_u_later/calculator/CalculatorState.kt:224-228 | A plain display below the scientific bound is at most 23 characters. |
| Formatter.Round8Idempotent | src/main/java/com/sunwings/calc_u_later/calculator/CalculatorState.kt:215 | Rounding an already rounded value to eight places changes nothing. Outside the scientific range it shows the same text. |
| Formatter.FractionDigitsValue | src/main/java/com/sunwings/calc_u_later/calculator/CalculatorState.kt:275-276 | The stripped fraction digits are empty exactly when the fraction is zero. Padded back to eight places, they spell the fraction. |
| Parser.SentinelReadsZero | src/main/java/com/sunwings/calc_u_later/calculator/CalculatorState.kt:297-299 | "Error" and "Overflow", in any letter case and with blanks around them, read as 0. |
| Parser.FallbackReadsAsDirectParse | src/main/java/com/sunwings/calc_u_later/calculator/CalculatorState.kt:304-313 | Java's `$` also matches before one final line terminator. Every string the regex fallback accepts, minus that terminator, is accepted by the direct parse with the same mantissa and exponent, and the fallback's value is that parse's value. When the regex fails, the fallback gives 0. |
| Parser.ExponentBranchValue | src/main/java/com/sunwings/calc_u_later/calculator/CalculatorState.kt:302-313 | In the exponent branch, text not ending in a line terminator reads as the direct parse, or 0 when that fails. The fallback succeeds where the direct parse fails only on text ending in a line terminator, and then reads as the text before it. |
| Parser.OnlyNextLineSurvivesTrim | src/main/java/com/sunwings/calc_u_later/calculator/CalculatorState.kt:298 | Of Java's line terminators only U+0085 is not whitespace to Kotlin's trim, so it is the only one that can end the trimmed text. |
| Parser.NextLineAfterExponent | src/main/java/com/sunwings/calc_u_later/calculator/CalculatorState.kt:298-313 | "1e5" followed by U+0085 fails the direct parse, yet reads as 100000 through the regex fallback. |
| Reparse.NormalizeFraction | src/main/java/com/sunwings/calc_u_later/calculator/CalculatorState.kt:316-319 | Normalising a grouped display with a comma removes the grouping points and turns the comma into a decimal point. |
| Reparse.ReparsePlain | src/main/java/com/sunwings/calc_u_later/calculator/CalculatorState.kt:316-322 | Gives exactly how a plain display of n / 10^8 reads back, in three cases. With a fraction or at most three integer digits, it reads as the value. With four to six integer digits, it reads as the value / 1000. With seven or more, it reads as 0. |
| Reparse.ReparseDisplay | src/main/java/com/sunwings/calc_u_later/calculator/CalculatorState.kt:297-322 | For a plain display with a fraction or at most three integer digits, the reader gives back the value rounded to eight places. Formatting that value again gives the same text. |
| Reparse.ReparseGroupedInteger | src/main/java/com/sunwings/calc_u_later/calculator/CalculatorState.kt:316-322 | A displayed integer of four to six digits reads back as the value / 1000; one of seven or more reads back as 0. |
| Scenarios.TwelvePlusSeven | src/main/java/com/sunwings/calc_u_later/calculator/CalculatorState.kt:110-150 | The keys 1, 2, +, 7, = show "19", with "12 + 7 =" on the line above. |
| Scenarios.FiveDividedByZero | src/main/java/com/sunwings/calc_u_later/calculator/CalculatorState.kt:203-207 | The keys 5, ÷, 0, = show "Error" and set the error flag. |
| Scenarios.GroupedReadsSmaller | src/main/java/com/sunwings/calc_u_later/calculator/CalculatorState.kt:316-322 | 10900 shows "10.900", which reads back as 10.9. |
| Scenarios.FiveToggled | src/main/java/com/sunwings/calc_u_later/calculator/CalculatorState.kt:166-175 | The keys 5, ± show "-5", which reads as −5, with nothing waiting. |
| Scenarios.FiveToggledPlusThree | src/test/java/com/sunwings/calc_u_later/calculator/CalculatorEdgeCasesTest.kt:23-33 | The keys 5, ±, +, 3, = show "-2". |
| Scenarios.GroupedSumReadBack | src/test/java/com/sunwings/calc_u_later/calculator/CalculatorOperationsTest.kt:9-24 | 8800 + 2100 = shows "10.900". Then + 100 = shows "110,9", not the "11.000" the test expects. |

## Left out

- **IEEE-754 doubles.** Values are exact reals, so rounding error, NaN, infinities and their "Error" display (CalculatorState.kt:211) are not modelled.
- **The shortest decimal of a double.** `BigDecimal.valueOf(double)` chooses the shortest decimal for a double. The model rounds the exact real instead.
- **Exception fallbacks.** The `catch` paths of `formatNumber` and `formatForDisplay` (CalculatorState.kt:230-233, 292-294) cannot be reached in a model without exceptions.
- **Scientific notation.** `String.format("%.6e", …)` is modelled as a concrete text, but only its length bound is relied on. It depends on the JVM's default locale, and no property is stated about its digits.
- **The rest of `formatForDisplay`.** Its sentinel, explicit "-0" and unparsable-string paths (CalculatorState.kt:248-249, 258-263) are not modelled. `formatNumber` only ever passes it the plain string of a rounded value. The model is that call, `Formatter.FormatForDisplay`.
- **Parser coverage.** `toDoubleOrNull` is modelled for decimal literals: sign, digits, '.', exponent and an f/F/d/D suffix. Hexadecimal literals, "NaN" and "Infinity" read as 0 in the model.
- **The previous-expression line.** Its text is stated for operations and '='. Beyond that it is kept only as a field.
- **Everything outside `CalculatorState.kt`.** The user interface, persistence, fonts and theme files are not part of this model.
- **Locale formatting.** There is no locale-format setting or locale toggle action: the modelled state and actions have none, and the separators are fixed.
- CalculatorProofs.FlipShowsNegation: stated only for values shown in plain notation. In scientific form the display shows the unrounded value (CalculatorState.kt:222), so negating the eight-place rounding can show other digits than the negated value, and the property does not hold there.
- CalculatorProofs.PercentReadsBack: the read-back is stated only for displays that read back exactly. A percentage shown as a grouped integer of four or more digits reads back a thousand times smaller or as 0, as `Reparse.ReparseGroupedInteger` states. A percentage shown in scientific form is not covered.
- Calculator.AddToMemory: carries no contract of its own; its effect is stated through the reducer by `CalculatorProofs.MemoryAddSubtract`.
- Calculator.SubtractFromMemory: carries no contract of its own, for the same reason.
- Parser.ToSafeDouble: carries no contract of its own. Its behaviour is stated by `Parser.SentinelReadsZero`, `Parser.ExponentBranchValue`, `Parser.NextLineAfterExponent` and the `Reparse` lemmas.
- Reparse.ReparseDisplay: states the round trip only for displays with a fraction or at most three integer digits. For grouped integers it does not hold; `Reparse.ReparseGroupedInteger` gives what happens instead.
- CalculatorProofs.ToggleTwice: stated only for displays that read back exactly. On a grouped integer the first toggle reads a different number.
- CalculatorProofs.MemoryRecallReadsBack: the read-back half is stated only for displays that read back exactly.
- Calculator.CanAppendDigit: a predicate without a contract of its own. Its rule is stated by `CalculatorProofs.DigitCapRule`, `DigitCapAfterOperator` and `DigitCapIgnoresSignAndComma`.
- CalculatorProofs.DigitLimit: stated for digit-only displays; `DigitCapAfterOperator` and `DigitCapIgnoresSignAndComma` give the general rule.
