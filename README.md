# Temperature converter widget — a verified model

The repository is a browser widget, `TemperatureConverter` in `js/script.js`,
that converts between Celsius and Fahrenheit. Its logic is a small state
machine. The mode (`'celsius'` or `'fahrenheit'`) names the field the user
types in. Submitting the form parses that field, rejects NaN and infinite
values with an error flag on the field, and otherwise writes the converted
value, rounded to hundredths with `Math.round(x * 100) / 100`, into the other
field and shows the formula. The reverse button flips the mode and resets the
form.

The model has two modules.

- `Conversion` (conversion.dfy) holds the pure part. It has the two linear
  formulas `CtoF` and `FtoC`, the rounding `Round2` and the conversion
  `Convert` of one parsed input in a mode. Numbers are exact `real`s.
  `parseFloat`'s result is the datatype `Parsed = Finite(value) | NaN |
  PosInf | NegInf`.
- `Converter` (converter.dfy) holds the class `TemperatureConverter`. Its
  fields are the mode, the two field values, their `readOnly` attributes,
  the two error flags, the "calculation shown" flag and the last formula
  (as structured data, not text). Each method of the source is a method
  that changes only the fields named in its `modifies` frame. The datatype
  `Screen` is a snapshot of these fields. The object invariant `Valid()`
  says:
  - exactly one field is editable, and it is the source of the mode;
  - only the source field can be in error;
  - the target field is non-empty exactly when the calculation is shown;
  - when the calculation is shown, the target field holds the shown
    formula's output, and that formula was made in the current mode.

  `RunPage` plays the page's whole lifetime: it creates the widget and
  hands each user action to the handler that `bindEvents` routes it to.
  The display clauses of `Valid()` rely on the reset's hide taking effect
  at once (see "## Left out").

Over exact reals, `Math.round` computes the floor of its argument plus one
half, so halves go towards +infinity (`Math.round(-12.5)` is -12). Rounding
halves away from zero would give −0.01 and −0.13 for −0.005 and −0.125
instead; `Round2HalfUp` and `Round2NegativeHalves` state the difference.

## Model

| member | source | states |
|---|---|---|
| `Conversion.Toggle` | js/script.js:156 | the reverse action always yields the other mode |
| `Conversion.ToggleTwice` | js/script.js:156 | reversing twice restores the original mode |
| `Conversion.CtoF` | js/script.js:56 | the formula itself: F − 32 and C stand in the ratio 9 : 5; its inverse is `FormulasInverse` |
| `Conversion.FtoC` | js/script.js:71 | the formula itself: the Celsius value is the one `CtoF` takes back to f; its inverse is `FormulasInverse` |
| `Conversion.Exact` | js/script.js:56-71 | the formula of the mode (line 56 in Celsius mode, line 71 in Fahrenheit mode); the opposite formula takes its result back to the input |
| `Conversion.FormulasInverse` | js/script.js:56-71 | the Celsius→Fahrenheit and Fahrenheit→Celsius formulas are exact inverses of each other |
| `Conversion.Round2` | js/script.js:57 | the rounded value is a whole number of hundredths, and it lies in (x − 0.005, x + 0.005] |
| `Conversion.Round2Unique` | js/script.js:57 | any whole number of hundredths in (x − 0.005, x + 0.005] is the rounded value, so the contract of `Round2` pins it down |
| `Conversion.Round2Exact` | js/script.js:57 | a value that already has two decimals is unchanged by rounding |
| `Conversion.Round2Idempotent` | js/script.js:72 | rounding a rounded value changes nothing |
| `Conversion.Round2Monotone` | js/script.js:57 | rounding preserves the order of two values |
| `Conversion.Round2HalfUp` | js/script.js:57 | a value exactly halfway between two hundredths rounds to the upper one, for negative values too |
| `Conversion.Round2NegativeHalves` | js/script.js:72 | −0.005 rounds to 0 and −0.125 to −0.12, not away from zero |
| `Conversion.Convert` | js/script.js:49-75 | the input is rejected exactly when it is not finite; otherwise the formula records the mode and the input, and its output is a whole number of hundredths within 0.005 of the exact converted value |
| `Conversion.ConvertExamples` | js/script.js:56-57 | 100 °C gives 212 °F, 0 °C gives 32 °F, 32 °F gives 0 °C, and −40 is the same in both scales |
| `Conversion.CelsiusRoundTrip` | js/script.js:56-72 | converting Celsius to Fahrenheit and the rounded result back lands within 7/900 (less than 0.01) of the original |
| `Conversion.CelsiusRoundTripExact` | js/script.js:56-72 | a Celsius value with at most two decimals comes back exactly from the Celsius→Fahrenheit→Celsius round trip |
| `Conversion.FahrenheitRoundTrip` | js/script.js:56-72 | converting Fahrenheit to Celsius and back lands within 0.014 of the original |
| `Conversion.FahrenheitRoundTripDrifts` | js/script.js:71-72 | the Fahrenheit round trip is not exact even on two-decimal input: 32.01 °F gives 0.01 °C, which gives 32.02 °F |
| `Converter.TemperatureConverter.constructor` | js/script.js:2-37 | the widget starts in Celsius mode with the Celsius field editable, the calculation hidden and the invariant established |
| `Converter.TemperatureConverter.UpdateInterface` | js/script.js:161-187 | the source field of the mode becomes editable and the other read-only |
| `Converter.TemperatureConverter.ShowError` | js/script.js:91-99 | the given field is flagged in error, the other flag is unchanged |
| `Converter.TemperatureConverter.ClearError` | js/script.js:101-109 | the given field's error flag is cleared, the other flag is unchanged |
| `Converter.TemperatureConverter.ValidateInput` | js/script.js:79-89 | the value is accepted exactly when it is finite, and the field's error flag is set to the opposite |
| `Converter.TemperatureConverter.ShowCalculation` | js/script.js:111-123 | the display is shown with a formula recording mode, input and output |
| `Converter.TemperatureConverter.ConvertFromCelsius` | js/script.js:49-62 | invalid Celsius input only sets the Celsius error; valid input c clears it, stores Round2(c·9/5 + 32) in the Fahrenheit field and shows the formula; the Celsius field and the Fahrenheit error never change |
| `Converter.TemperatureConverter.ConvertFromFahrenheit` | js/script.js:64-77 | invalid Fahrenheit input only sets the Fahrenheit error; valid input f clears it, stores Round2((f − 32)·5/9) in the Celsius field and shows the formula; the Fahrenheit field and the Celsius error never change |
| `Converter.TemperatureConverter.HandleSubmit` | js/script.js:39-47 | converts from the source field of the current mode: on invalid input only the source error is set; on valid input only the target field, the source error, the formula and the display change, as `Convert` says; the invariant is kept |
| `Converter.TemperatureConverter.ResetForm` | js/script.js:137-153 | both fields become empty, both errors are cleared and the display is hidden; the formula and the interface stay |
| `Converter.TemperatureConverter.ReverseConversion` | js/script.js:155-159 | the mode flips, the interface follows it, both fields are empty, both errors cleared and the display hidden; the invariant is kept |
| `Converter.TemperatureConverter.Edit` | js/script.js:30-31 | typing into the read-only field changes nothing; typing into the source field sets its text and clears its error; the other field is untouched |
| `Converter.CelsiusRoundTripSession` | js/script.js:24-32 | a user session (type c, convert, reverse, type the result, convert) leaves a Celsius value within 7/900 of c |
| `Converter.InvalidInputSession` | js/script.js:49-54 | converting a non-finite input on a fresh widget flags the Celsius field and leaves the Fahrenheit field empty and the calculation hidden |
| `Converter.RunPage` | js/script.js:24-32 | for any sequence of user actions (typing, submit, reset, reverse) dispatched to the bound listeners on a fresh widget, the final screen satisfies the invariant, and the mode is Celsius exactly when reverse was pressed an even number of times |

## Left out

- Arithmetic is exact over `real`. IEEE-754 doubles are not modelled. That covers float error in `(c * 9) / 5` before `Math.round`, and the overflow of `c * 9` to Infinity for inputs near the largest double.
- `parseFloat`'s string grammar is a JavaScript built-in. A field's text is modelled only by what `parseFloat` returns for it (`Entry = Blank | Text(Parsed)`, where the empty text reads as NaN). Number-to-text formatting is not modelled; a written result reads back as the same number.
- The formula is kept as structured data (mode, input, output), not as the text of the template literals on lines 115 and 117.
- The 500 ms timer that hides the calculation display after a reset takes effect at once. In the page, a conversion made within 500 ms of a reset is hidden again when that timer fires, leaving the target field filled while the calculation is hidden. `Valid`'s clause that the target field is filled exactly when the calculation is shown, and therefore the invariant `RunPage` keeps, hold for the immediate hide only.
- Animations are not modelled: `animateResult`, the form's transform during reset and `updateInterface`, the button hover effects and the card tilt on mouse movement.
- Label and explanation texts and the CSS classes 'temperature-input' and 'temperature-output' set by `updateInterface` are not modelled. Only the `readOnly` attributes are modelled.
- DOM lookups, the `addEventListener` calls themselves and `preventDefault` are not modelled. What the listeners do is modelled: `RunPage` routes each user action to the handler `bindEvents` binds it to, and the 'input' listener on lines 30-31 is the `Edit` method.
- The initial values and error classes of the two fields come from the page markup, which is not part of this model. The constructor takes them as empty and error-free.
- Converter.TemperatureConverter.ConvertFromCelsius and ConvertFromFahrenheit require the mode they are named after. `handleSubmit` is their only caller and calls them only in that mode.
