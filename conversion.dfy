/** The arithmetic of the temperature converter: the two linear formulas, the
    rounding to hundredths done with `Math.round(x * 100) / 100`, and the
    conversion of one parsed input in a given mode. Numbers are exact reals;
    IEEE-754 doubles are not modelled. */
module Conversion {

  /** Which scale is the editable source: 'celsius' converts Celsius to
      Fahrenheit, 'fahrenheit' converts Fahrenheit to Celsius. */
  datatype Mode = Celsius | Fahrenheit

  /** What `parseFloat` can return for the text of a field. */
  datatype Parsed = Finite(value: real) | NaN | PosInf | NegInf

  /** The calculation shown to the user: the mode it was made in, the parsed
      input and the rounded output. */
  datatype Formula = Formula(mode: Mode, input: real, output: real)

  /** A conversion either yields a formula or rejects the input. */
  datatype Outcome = Converted(formula: Formula) | InvalidNumber

  /** The other mode, as the reverse button switches it. */
  function Toggle(m: Mode): (r: Mode)
    ensures r != m
  {
    if m == Celsius then Fahrenheit else Celsius
  }

  lemma ToggleTwice(m: Mode)
    ensures Toggle(Toggle(m)) == m
  {
  }

  /** F = C * 9/5 + 32: the Fahrenheit value lies 32 above the Celsius
      value scaled by 9/5. */
  function CtoF(c: real): (r: real)
    ensures (r - 32.0) * 5.0 == c * 9.0
  {
    (c * 9.0 / 5.0) + 32.0
  }

  /** C = (F - 32) * 5/9: the Celsius value is the one that CtoF takes
      back to f. */
  function FtoC(f: real): (r: real)
    ensures CtoF(r) == f
  {
    (f - 32.0) * 5.0 / 9.0
  }

  /** The exact (unrounded) value of the formula for source scale `m`. */
  function Exact(m: Mode, x: real): (r: real)
    ensures (if m == Celsius then FtoC(r) else CtoF(r)) == x
  {
    if m == Celsius then CtoF(x) else FtoC(x)
  }

  /** The two formulas are inverse to each other. */
  lemma FormulasInverse(c: real, f: real)
    ensures FtoC(CtoF(c)) == c
    ensures CtoF(FtoC(f)) == f
  {
  }

  /** `x` is a whole number of hundredths. */
  predicate IsHundredth(x: real)
  {
    (x * 100.0).Floor as real == x * 100.0
  }

  /** `Math.round(x * 100) / 100`. `Math.round` takes the floor of its
      argument plus one half, so halves go towards +infinity. The result is
      the one multiple of 0.01 in the half-open interval (x - 0.005, x + 0.005]. */
  function Round2(x: real): (r: real)
    ensures IsHundredth(r)
    ensures x - 0.005 < r <= x + 0.005
  {
    (x * 100.0 + 0.5).Floor as real / 100.0
  }

  /** The contract of Round2 determines its result: any multiple of 0.01 in
      (x - 0.005, x + 0.005] is Round2(x). */
  lemma Round2Unique(x: real, y: real)
    requires IsHundredth(y)
    requires x - 0.005 < y <= x + 0.005
    ensures y == Round2(x)
  {
    var j := (y * 100.0).Floor;
    var k := (x * 100.0 + 0.5).Floor;
    assert j as real <= x * 100.0 + 0.5 < j as real + 1.0;
    assert k as real <= x * 100.0 + 0.5 < k as real + 1.0;
    assert j == k;
  }

  /** A value that already has at most two decimals is left alone. */
  lemma Round2Exact(x: real)
    requires IsHundredth(x)
    ensures Round2(x) == x
  {
    Round2Unique(x, x);
  }

  /** Rounding twice is rounding once. */
  lemma Round2Idempotent(x: real)
    ensures Round2(Round2(x)) == Round2(x)
  {
    Round2Exact(Round2(x));
  }

  /** Rounding never reverses the order of two values. */
  lemma Round2Monotone(x: real, y: real)
    requires x <= y
    ensures Round2(x) <= Round2(y)
  {
    var i := (x * 100.0 + 0.5).Floor;
    var j := (y * 100.0 + 0.5).Floor;
    assert i as real <= x * 100.0 + 0.5 <= y * 100.0 + 0.5 < j as real + 1.0;
    assert i <= j;
    assert i as real / 100.0 <= j as real / 100.0;
  }

  /** A value exactly halfway between two hundredths goes to the upper one,
      also when it is negative: `Math.round` does not round away from zero. */
  lemma Round2HalfUp(k: int)
    ensures Round2((k as real + 0.5) / 100.0) == (k + 1) as real / 100.0
  {
    var x := (k as real + 0.5) / 100.0;
    var y := (k + 1) as real / 100.0;
    assert (y * 100.0).Floor == k + 1;
    Round2Unique(x, y);
  }

  /** The two negative halves that distinguish `Math.round` from rounding
      away from zero. */
  lemma Round2NegativeHalves()
    ensures Round2(-0.005) == 0.0
    ensures Round2(-0.125) == -0.12
  {
    Round2HalfUp(-1);
    Round2HalfUp(-13);
  }

  /** The conversion made on submit: a non-finite input (NaN or an infinity)
      is rejected, a finite one is converted with the formula of the mode
      and rounded to hundredths. */
  function Convert(p: Parsed, m: Mode): (r: Outcome)
    ensures r.InvalidNumber? <==> !p.Finite?
    ensures r.Converted? ==>
      r.formula.mode == m && r.formula.input == p.value &&
      IsHundredth(r.formula.output) &&
      Exact(m, p.value) - 0.005 < r.formula.output <= Exact(m, p.value) + 0.005
  {
    match p
    case Finite(x) => Converted(Formula(m, x, Round2(Exact(m, x))))
    case _ => InvalidNumber
  }

  /** The fixed examples: 100 C is 212 F, 0 C is 32 F, 32 F is 0 C, and
      -40 is the same in both scales. */
  lemma ConvertExamples()
    ensures Convert(Finite(100.0), Celsius) == Converted(Formula(Celsius, 100.0, 212.0))
    ensures Convert(Finite(0.0), Celsius) == Converted(Formula(Celsius, 0.0, 32.0))
    ensures Convert(Finite(32.0), Fahrenheit) == Converted(Formula(Fahrenheit, 32.0, 0.0))
    ensures Convert(Finite(-40.0), Celsius) == Converted(Formula(Celsius, -40.0, -40.0))
    ensures Convert(Finite(-40.0), Fahrenheit) == Converted(Formula(Fahrenheit, -40.0, -40.0))
  {
    Round2Exact(212.0);
    Round2Exact(32.0);
    Round2Exact(0.0);
    Round2Exact(-40.0);
  }

  /** Converting Celsius to Fahrenheit and feeding the rounded Fahrenheit
      back lands within 7/900 (less than 0.01) of the original Celsius. */
  lemma CelsiusRoundTrip(c: real)
    ensures var there := Convert(Finite(c), Celsius);
            var back := Convert(Finite(there.formula.output), Fahrenheit);
            c - 7.0 / 900.0 < back.formula.output <= c + 7.0 / 900.0
  {
    var f := Round2(CtoF(c));
    assert FtoC(f) - c == (f - CtoF(c)) * 5.0 / 9.0;
  }

  /** A Celsius value with at most two decimals, which is what the widget
      itself writes into the Celsius field, survives the round trip exactly. */
  lemma CelsiusRoundTripExact(c: real)
    requires IsHundredth(c)
    ensures var there := Convert(Finite(c), Celsius);
            Convert(Finite(there.formula.output), Fahrenheit).formula.output == c
  {
    var f := Round2(CtoF(c));
    assert FtoC(f) - c == (f - CtoF(c)) * 5.0 / 9.0;
    Round2Unique(FtoC(f), c);
  }

  /** The other round trip, Fahrenheit to Celsius and back, can miss by up
      to 0.014, because the Celsius error is multiplied by 9/5. */
  lemma FahrenheitRoundTrip(f: real)
    ensures var there := Convert(Finite(f), Fahrenheit);
            var back := Convert(Finite(there.formula.output), Celsius);
            f - 0.014 < back.formula.output <= f + 0.014
  {
    var c := Round2(FtoC(f));
    assert CtoF(c) - f == (c - FtoC(f)) * 9.0 / 5.0;
  }

  /** That round trip is not the identity even on two-decimal input:
      32.01 F gives 0.01 C, which gives 32.02 F. */
  lemma FahrenheitRoundTripDrifts()
    ensures Convert(Finite(32.01), Fahrenheit).formula.output == 0.01
    ensures Convert(Finite(0.01), Celsius).formula.output == 32.02
  {
    Round2Unique(FtoC(32.01), 0.01);
    Round2Unique(CtoF(0.01), 32.02);
  }
}
