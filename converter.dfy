/** The state machine of the `TemperatureConverter` widget: the mode, the two
    value fields, their error flags, the calculation display and which field
    is read-only. DOM lookups, the listener registration calls, animations
    and label texts are not modelled; each remaining piece of DOM state is a
    field here, and `RunPage` routes user actions to their handlers. */
module Converter {
  import opened Conversion

  datatype Option<T> = None | Some(value: T)

  /** What a text field holds, as far as `parseFloat` is concerned: the empty
      string, or text that `parseFloat` turns into `parsed`. */
  datatype Entry = Blank | Text(parsed: Parsed)

  /** `parseFloat` of the field's text; the empty string gives NaN. */
  function Read(e: Entry): Parsed
  {
    match e
    case Blank => NaN
    case Text(p) => p
  }

  /** Everything the user can observe of the widget at one moment. */
  datatype Screen = Screen(
    mode: Mode,
    celsius: Entry, fahrenheit: Entry,
    celsiusReadOnly: bool, fahrenheitReadOnly: bool,
    celsiusError: bool, fahrenheitError: bool,
    displayShown: bool, formula: Option<Formula>)
  {
    function Field(m: Mode): Entry
    {
      if m == Celsius then celsius else fahrenheit
    }

    function ErrorOf(m: Mode): bool
    {
      if m == Celsius then celsiusError else fahrenheitError
    }

    function ReadOnlyOf(m: Mode): bool
    {
      if m == Celsius then celsiusReadOnly else fahrenheitReadOnly
    }

    /** Exactly one field is editable, and it is the source of the mode. */
    predicate InterfaceMatchesMode()
    {
      !ReadOnlyOf(mode) && ReadOnlyOf(Toggle(mode))
    }

    /** The formula last shown is a conversion the model can reproduce. */
    predicate FormulaSound()
    {
      formula.Some? ==>
        Convert(Finite(formula.value.input), formula.value.mode) == Converted(formula.value)
    }

    /** The screen is coherent: the interface matches the mode; only the
        source field can be in error; the target field is filled exactly
        when the calculation is shown, and then holds the output of the
        shown formula, which was made in the current mode. The display
        clauses take the reset's delayed hide as immediate. */
    predicate Valid()
    {
      InterfaceMatchesMode() && FormulaSound() &&
      !ErrorOf(Toggle(mode)) &&
      (displayShown <==> Field(Toggle(mode)) != Blank) &&
      (displayShown ==>
        formula.Some? && formula.value.mode == mode &&
        Field(Toggle(mode)) == Text(Finite(formula.value.output)))
    }
  }

  class TemperatureConverter {
    /** `currentMode`: the scale the user types in. */
    var mode: Mode
    /** The values of `celsiusInput` and `fahrenheitOutput`. */
    var celsius: Entry
    var fahrenheit: Entry
    /** The `readOnly` attributes of the two fields. */
    var celsiusReadOnly: bool
    var fahrenheitReadOnly: bool
    /** Whether each field carries the 'error' class and shows its message. */
    var celsiusError: bool
    var fahrenheitError: bool
    /** Whether `calculationDisplay` is shown, and the formula it last held. */
    var displayShown: bool
    var formula: Option<Formula>

    function View(): Screen
      reads this
    {
      Screen(mode, celsius, fahrenheit, celsiusReadOnly, fahrenheitReadOnly,
             celsiusError, fahrenheitError, displayShown, formula)
    }

    /** The object invariant: what is on screen is coherent. */
    ghost predicate Valid()
      reads this
    {
      View().Valid()
    }

    /** The constructor and `setupInitialState`: Celsius mode, the interface
        set up for it, the calculation hidden. The page's fields start empty
        and without errors. */
    constructor ()
      ensures Valid()
      ensures mode == Celsius && !displayShown && formula == None
      ensures celsius == Blank && fahrenheit == Blank
      ensures !celsiusError && !fahrenheitError
    {
      mode := Celsius;
      celsius, fahrenheit := Blank, Blank;
      celsiusError, fahrenheitError := false, false;
      formula := None;
      new;
      UpdateInterface();
      displayShown := false;
    }

    /** The read-only part of `updateInterface`: the source field of the
        mode becomes editable, the other read-only. */
    method UpdateInterface()
      modifies this`celsiusReadOnly, this`fahrenheitReadOnly
      ensures View().InterfaceMatchesMode()
    {
      if mode == Celsius {
        celsiusReadOnly := false;
        fahrenheitReadOnly := true;
      } else {
        fahrenheitReadOnly := false;
        celsiusReadOnly := true;
      }
    }

    /** `showError(type)`: flags field `m` as in error. */
    method ShowError(m: Mode)
      modifies this`celsiusError, this`fahrenheitError
      ensures View().ErrorOf(m)
      ensures View().ErrorOf(Toggle(m)) == old(View().ErrorOf(Toggle(m)))
    {
      if m == Celsius {
        celsiusError := true;
      } else {
        fahrenheitError := true;
      }
    }

    /** `clearError(type)`: removes the error flag of field `m`. */
    method ClearError(m: Mode)
      modifies this`celsiusError, this`fahrenheitError
      ensures !View().ErrorOf(m)
      ensures View().ErrorOf(Toggle(m)) == old(View().ErrorOf(Toggle(m)))
    {
      if m == Celsius {
        celsiusError := false;
      } else {
        fahrenheitError := false;
      }
    }

    /** `validateInput(value, type)`: a value is valid when it is neither
        NaN nor infinite; the error flag of field `m` is set accordingly. */
    method ValidateInput(value: Parsed, m: Mode) returns (ok: bool)
      modifies this`celsiusError, this`fahrenheitError
      ensures ok <==> value.Finite?
      ensures View().ErrorOf(m) == !ok
      ensures View().ErrorOf(Toggle(m)) == old(View().ErrorOf(Toggle(m)))
    {
      ok := value.Finite?;
      if !ok {
        ShowError(m);
        return false;
      }
      ClearError(m);
      return true;
    }

    /** `showCalculation`: records the formula and shows the display. */
    method ShowCalculation(input: real, output: real, m: Mode)
      modifies this`formula, this`displayShown
      ensures formula == Some(Formula(m, input, output))
      ensures displayShown
    {
      formula := Some(Formula(m, input, output));
      displayShown := true;
    }

    /** `convertFromCelsius`: validates the Celsius field and, when it holds
        a finite number c, writes Round2(CtoF(c)) into the Fahrenheit field
        and shows the calculation. Invalid input only sets the error flag. */
    method ConvertFromCelsius()
      requires Valid() && mode == Celsius
      modifies this`fahrenheit, this`celsiusError, this`fahrenheitError,
               this`formula, this`displayShown
      ensures Valid()
      ensures !Read(celsius).Finite? ==>
        celsiusError && fahrenheit == old(fahrenheit) &&
        formula == old(formula) && displayShown == old(displayShown)
      ensures Read(celsius).Finite? ==>
        var c := Read(celsius).value;
        !celsiusError && fahrenheit == Text(Finite(Round2(CtoF(c)))) &&
        formula == Some(Formula(Celsius, c, Round2(CtoF(c)))) && displayShown
      ensures fahrenheitError == old(fahrenheitError)
    {
      var celsiusValue := Read(celsius);
      var ok := ValidateInput(celsiusValue, Celsius);
      if !ok {
        return;
      }
      var fahrenheitValue := CtoF(celsiusValue.value);
      var roundedFahrenheit := Round2(fahrenheitValue);
      fahrenheit := Text(Finite(roundedFahrenheit));
      ShowCalculation(celsiusValue.value, roundedFahrenheit, Celsius);
    }

    /** `convertFromFahrenheit`: the mirror image of ConvertFromCelsius. */
    method ConvertFromFahrenheit()
      requires Valid() && mode == Fahrenheit
      modifies this`celsius, this`celsiusError, this`fahrenheitError,
               this`formula, this`displayShown
      ensures Valid()
      ensures !Read(fahrenheit).Finite? ==>
        fahrenheitError && celsius == old(celsius) &&
        formula == old(formula) && displayShown == old(displayShown)
      ensures Read(fahrenheit).Finite? ==>
        var f := Read(fahrenheit).value;
        !fahrenheitError && celsius == Text(Finite(Round2(FtoC(f)))) &&
        formula == Some(Formula(Fahrenheit, f, Round2(FtoC(f)))) && displayShown
      ensures celsiusError == old(celsiusError)
    {
      var fahrenheitValue := Read(fahrenheit);
      var ok := ValidateInput(fahrenheitValue, Fahrenheit);
      if !ok {
        return;
      }
      var celsiusValue := FtoC(fahrenheitValue.value);
      var roundedCelsius := Round2(celsiusValue);
      celsius := Text(Finite(roundedCelsius));
      ShowCalculation(fahrenheitValue.value, roundedCelsius, Fahrenheit);
    }

    /** `handleSubmit`: converts from the source field of the current mode.
        On invalid input only the source's error flag changes; otherwise the
        source's error is cleared, the target field receives the rounded
        output and the display shows the formula. The source field, the
        mode and the interface never change. */
    method HandleSubmit()
      requires Valid()
      modifies this`celsius, this`fahrenheit, this`celsiusError, this`fahrenheitError,
               this`formula, this`displayShown
      ensures Valid()
      ensures View().Field(mode) == old(View().Field(mode))
      ensures match Convert(Read(View().Field(mode)), mode)
        case InvalidNumber =>
          View().ErrorOf(mode) && View().Field(Toggle(mode)) == old(View().Field(Toggle(mode))) &&
          formula == old(formula) && displayShown == old(displayShown)
        case Converted(f) =>
          !View().ErrorOf(mode) && View().Field(Toggle(mode)) == Text(Finite(f.output)) &&
          formula == Some(f) && displayShown
    {
      if mode == Celsius {
        ConvertFromCelsius();
      } else {
        ConvertFromFahrenheit();
      }
    }

    /** `resetForm`: empties both fields, clears both errors and hides the
        calculation (the 500 ms delay before it disappears is not modelled).
        The formula text stays, hidden. */
    method ResetForm()
      modifies this`celsius, this`fahrenheit, this`celsiusError, this`fahrenheitError,
               this`displayShown
      ensures celsius == Blank && fahrenheit == Blank
      ensures !celsiusError && !fahrenheitError
      ensures !displayShown
      ensures View().InterfaceMatchesMode() && View().FormulaSound() ==> Valid()
    {
      celsius := Blank;
      fahrenheit := Blank;
      displayShown := false;
      ClearError(Celsius);
      ClearError(Fahrenheit);
    }

    /** `reverseConversion`: flips the mode, updates the interface and resets
        the form. */
    method ReverseConversion()
      requires Valid()
      modifies this`mode, this`celsiusReadOnly, this`fahrenheitReadOnly,
               this`celsius, this`fahrenheit, this`celsiusError, this`fahrenheitError,
               this`displayShown
      ensures Valid()
      ensures mode == Toggle(old(mode))
      ensures celsius == Blank && fahrenheit == Blank
      ensures !celsiusError && !fahrenheitError
      ensures !displayShown
    {
      mode := Toggle(mode);
      UpdateInterface();
      ResetForm();
    }

    /** The user types into field `m`. A read-only field ignores typing; in
        the editable one the text changes and its 'input' listener clears
        the field's error. */
    method Edit(m: Mode, e: Entry) returns (accepted: bool)
      requires Valid()
      modifies this`celsius, this`fahrenheit, this`celsiusError, this`fahrenheitError
      ensures Valid()
      ensures accepted <==> m == mode
      ensures accepted ==> View().Field(m) == e && !View().ErrorOf(m)
      ensures !accepted ==> View().Field(m) == old(View().Field(m)) && View().ErrorOf(m) == old(View().ErrorOf(m))
      ensures View().Field(Toggle(m)) == old(View().Field(Toggle(m)))
      ensures View().ErrorOf(Toggle(m)) == old(View().ErrorOf(Toggle(m)))
    {
      if View().ReadOnlyOf(m) {
        return false;
      }
      if m == Celsius {
        celsius := e;
      } else {
        fahrenheit := e;
      }
      ClearError(m);
      return true;
    }
  }

  /** A whole session on a fresh widget: type c in Celsius, convert, read the
      Fahrenheit result, reverse, type that result into the Fahrenheit field
      and convert back. The Celsius field then holds a number within 7/900
      (less than 0.01) of c. */
  method CelsiusRoundTripSession(c: real) returns (back: Entry)
    ensures back.Text? && back.parsed.Finite?
    ensures c - 7.0 / 900.0 < back.parsed.value <= c + 7.0 / 900.0
  {
    var w := new TemperatureConverter();
    var accepted := w.Edit(Celsius, Text(Finite(c)));
    w.HandleSubmit();
    var shown := w.fahrenheit;
    w.ReverseConversion();
    accepted := w.Edit(Fahrenheit, shown);
    w.HandleSubmit();
    back := w.celsius;
    CelsiusRoundTrip(c);
  }

  /** Typing something that `parseFloat` cannot turn into a finite number
      and converting only flags the Celsius field: the Fahrenheit field stays
      empty and no calculation is shown. */
  method InvalidInputSession(p: Parsed) returns (error: bool, target: Entry, shown: bool)
    requires !p.Finite?
    ensures error && target == Blank && !shown
  {
    var w := new TemperatureConverter();
    var accepted := w.Edit(Celsius, Text(p));
    w.HandleSubmit();
    error, target, shown := w.celsiusError, w.fahrenheit, w.displayShown;
  }

  /** A user action that one of the page's listeners reacts to: typing
      into a field, the submit button, the reset button, the reverse button. */
  datatype Event = Type(field: Mode, entry: Entry) | Submit | Reset | Reverse

  /** How many times the reverse button is pressed in `events`. */
  function Reverses(events: seq<Event>): nat
  {
    if events == [] then 0
    else Reverses(events[..|events| - 1]) + if events[|events| - 1].Reverse? then 1 else 0
  }

  /** The page's lifetime: the widget is created once the document is loaded,
      and each user action is handled to completion by the listener bound to
      it. Whatever the actions, the screen stays coherent, and the mode is
      Celsius exactly when the reverse button was pressed an even number of
      times. */
  method RunPage(events: seq<Event>) returns (screen: Screen)
    ensures screen.Valid()
    ensures screen.mode == if Reverses(events) % 2 == 0 then Celsius else Fahrenheit
  {
    var w := new TemperatureConverter();
    var i := 0;
    while i < |events|
      invariant 0 <= i <= |events|
      invariant w.Valid()
      invariant w.mode == if Reverses(events[..i]) % 2 == 0 then Celsius else Fahrenheit
    {
      match events[i] {
        case Type(m, e) =>
          var accepted := w.Edit(m, e);
        case Submit =>
          w.HandleSubmit();
        case Reset =>
          w.ResetForm();
        case Reverse =>
          w.ReverseConversion();
      }
      assert events[..i + 1][..i] == events[..i];
      i := i + 1;
    }
    assert events[..i] == events;
    screen := w.View();
  }
}
