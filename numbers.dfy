/**
 * The numeric values the wave-height parser handles: what `parseFloat`
 * returns, the arithmetic on it, and `undefined` where array destructuring
 * reads past the end of the pieces that `split` produced.
 */
module Numbers {
  import opened Text

  /**
   * A JavaScript value in a numeric position: `undefined`, `NaN`, or a finite
   * number. Finite numbers are exact reals; rounding to a double is not modelled.
   */
  datatype Num = Undefined | NaN | Fin(value: real)

  /** `a + b`: `undefined` and `NaN` both make the sum `NaN`. */
  function Add(a: Num, b: Num): Num {
    if a.Fin? && b.Fin? then Fin(a.value + b.value) else NaN
  }

  /** `a - b`. */
  function Sub(a: Num, b: Num): Num {
    if a.Fin? && b.Fin? then Fin(a.value - b.value) else NaN
  }

  /** `a / 2`. */
  function Half(a: Num): Num {
    if a.Fin? then Fin(a.value / 2.0) else NaN
  }

  /** `Math.abs(a)`. */
  function Abs(a: Num): Num {
    if a.Fin? then Fin(if a.value < 0.0 then -a.value else a.value) else NaN
  }

  /** `a > t` for a real threshold `t`: every comparison with `NaN` is false. */
  predicate Exceeds(a: Num, t: real) {
    a.Fin? && a.value > t
  }

  predicate IsDigit(c: char) {
    '0' <= c <= '9'
  }

  predicate AllDigits(s: String) {
    forall i :: 0 <= i < |s| ==> IsDigit(s[i])
  }

  /** Length of the run of decimal digits `s` starts with. */
  function DigitRun(s: String): (n: nat)
    ensures n <= |s| && AllDigits(s[..n])
    ensures n == |s| || !IsDigit(s[n])
  {
    if s != [] && IsDigit(s[0]) then
      var n := 1 + DigitRun(s[1..]);
      assert s[..n] == [s[0]] + s[1..][..n - 1];
      n
    else 0
  }

  lemma AllDigitsConcat(a: String, b: String)
    requires AllDigits(a) && AllDigits(b)
    ensures AllDigits(a + b)
  {
    forall i | 0 <= i < |a + b| ensures IsDigit((a + b)[i]) {
      if i >= |a| { assert (a + b)[i] == b[i - |a|]; }
    }
  }

  /** The value of a string of decimal digits, most significant first. */
  function DigitsValue(ds: String): nat
    requires AllDigits(ds)
  {
    if ds == [] then 0
    else DigitsValue(ds[..|ds| - 1]) * 10 + (ds[|ds| - 1] as int - '0' as int)
  }

  /** `m` times ten to the power `e`. */
  function Scale(m: real, e: int): real
    decreases if e < 0 then -e else e
  {
    if e == 0 then m
    else if e > 0 then 10.0 * Scale(m, e - 1)
    else Scale(m, e + 1) / 10.0
  }

  /**
   * The exponent of an ExponentPart (`e` or `E`, an optional sign, digits) that
   * `s` starts with; 0 when `s` does not start with a complete one, in which
   * case `parseFloat` stops before the `e`.
   */
  function Exponent(s: String): int {
    if |s| >= 2 && (s[0] == 'e' || s[0] == 'E') then
      var signLen := if s[1] == '+' || s[1] == '-' then 1 else 0;
      var digits := s[1 + signLen..];
      var n := DigitRun(digits);
      if n == 0 then 0
      else if s[1] == '-' then -(DigitsValue(digits[..n]) as int)
      else DigitsValue(digits[..n])
    else 0
  }

  /**
   * `parseFloat(s)`: skip leading white space, then read the longest prefix
   * that is a decimal literal (optional sign, digits, optional fraction,
   * optional exponent, with at least one digit before the exponent); `NaN`
   * when there is no such prefix.
   */
  function ParseFloat(s: String): (r: Num)
    ensures r != Undefined
  {
    var t := TrimStart(s);
    var negative := t != [] && t[0] == '-';
    var u := if t != [] && (t[0] == '+' || t[0] == '-') then t[1..] else t;
    var n := DigitRun(u);
    var rest := u[n..];
    var hasPoint := rest != [] && rest[0] == '.';
    var f := if hasPoint then DigitRun(rest[1..]) else 0;
    var fraction := if hasPoint then rest[1..][..f] else [];
    var afterMantissa := if hasPoint then rest[1 + f..] else rest;
    if n == 0 && f == 0 then NaN
    else
      var digits := u[..n] + fraction;
      AllDigitsConcat(u[..n], fraction);
      var magnitude := Scale(DigitsValue(digits) as real, Exponent(afterMantissa) - f);
      Fin(if negative then -magnitude else magnitude)
  }

  /** A plain run of digits reads as the integer it spells. */
  lemma ParseFloatOfDigits(ds: String)
    requires ds != [] && AllDigits(ds)
    ensures ParseFloat(ds) == Fin(DigitsValue(ds) as real)
  {
    assert TrimStart(ds) == ds;
    assert ds[..|ds|] + [] == ds;
  }

  /** Text that starts with anything but white space, a sign, a point or a digit reads as `NaN`. */
  lemma ParseFloatOfNonNumber(s: String)
    requires s != [] && !IsWhiteSpace(s[0]) && !IsDigit(s[0])
    requires s[0] != '+' && s[0] != '-' && s[0] != '.'
    ensures ParseFloat(s) == NaN
  {
  }
}
