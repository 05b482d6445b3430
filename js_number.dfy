/** JavaScript numbers as the dashboards use them: the arithmetic of
    `+ - * /` including infinities and NaN, the prefix reader `parseFloat`, and
    the whole-string conversion `Number(...)`.  Values are exact reals, so
    rounding is not modelled; negative zero is not represented either (every
    zero here is +0, which is what sums that start from the literal 0 give). */
module JsNumber {
  import opened Text

  datatype Num = Finite(v: real) | Infinity(positive: bool) | NaN

  function Neg(a: Num): Num {
    match a
    case Finite(x) => Finite(-x)
    case Infinity(p) => Infinity(!p)
    case NaN => NaN
  }

  /** `a + b`: NaN absorbs, opposite infinities give NaN. */
  function Add(a: Num, b: Num): (r: Num)
    ensures r.NaN? <==> a.NaN? || b.NaN? || (a.Infinity? && b.Infinity? && a.positive != b.positive)
    ensures r.Finite? <==> a.Finite? && b.Finite?
    ensures r.Finite? ==> r.v == a.v + b.v
    ensures r.Infinity? ==> (r == a || r == b)
  {
    if a.NaN? || b.NaN? then NaN
    else if a.Infinity? && b.Infinity? then (if a.positive == b.positive then a else NaN)
    else if a.Infinity? then a
    else if b.Infinity? then b
    else Finite(a.v + b.v)
  }

  /** `a - b`. */
  function Sub(a: Num, b: Num): (r: Num)
    ensures r.NaN? <==> a.NaN? || b.NaN? || (a.Infinity? && b.Infinity? && a.positive == b.positive)
    ensures r.Finite? <==> a.Finite? && b.Finite?
    ensures r.Finite? ==> a.v == r.v + b.v
  {
    Add(a, Neg(b))
  }

  /** The sign of a non-NaN, non-zero number. */
  function IsPositive(a: Num): bool
    requires !a.NaN?
  {
    if a.Finite? then a.v > 0.0 else a.positive
  }

  /** `a * b`: an infinity times zero is NaN. */
  function Mul(a: Num, b: Num): (r: Num)
    ensures r.NaN? <==> a.NaN? || b.NaN? || (a.Infinity? && b == Finite(0.0)) || (b.Infinity? && a == Finite(0.0))
    ensures r.Finite? <==> a.Finite? && b.Finite?
  {
    if a.NaN? || b.NaN? then NaN
    else if a.Infinity? || b.Infinity? then
      (if a == Finite(0.0) || b == Finite(0.0) then NaN
       else Infinity(IsPositive(a) == IsPositive(b)))
    else Finite(a.v * b.v)
  }

  /** Addition does not depend on the order of its operands, and 0 is
      neutral for it. */
  lemma AddCommutes(a: Num, b: Num)
    ensures Add(a, b) == Add(b, a)
    ensures Add(Finite(0.0), b) == b
  {
  }

  /** Multiplication does not depend on the order of its operands. */
  lemma MulCommutes(a: Num, b: Num)
    ensures Mul(a, b) == Mul(b, a)
  {
    if a.Finite? && b.Finite? {
      assert a.v * b.v == b.v * a.v;
    }
  }

  /** `a / b`, with the division by zero made explicit: a non-zero number over
      zero is an infinity carrying the numerator's sign, and zero over zero is
      NaN. */
  function Div(a: Num, b: Num): (r: Num)
    ensures a.Finite? && b.Finite? && b.v != 0.0 ==> r.Finite?
    ensures a.Finite? && b == Finite(0.0) ==> (r.NaN? <==> a.v == 0.0)
    ensures a.Finite? && b == Finite(0.0) && a.v != 0.0 ==> r == Infinity(a.v > 0.0)
    ensures a.NaN? || b.NaN? ==> r.NaN?
  {
    if a.NaN? || b.NaN? then NaN
    else if a.Infinity? && b.Infinity? then NaN
    else if a.Infinity? then Infinity(a.positive == (b.v >= 0.0))
    else if b.Infinity? then Finite(0.0)
    else if b.v == 0.0 then (if a.v == 0.0 then NaN else Infinity(a.v > 0.0))
    else Finite(a.v / b.v)
  }

  /** A finite quotient times the divisor gives back the dividend. */
  lemma DivIsQuotient(a: Num, b: Num)
    requires a.Finite? && b.Finite? && b.v != 0.0
    ensures Div(a, b).Finite? && Div(a, b).v * b.v == a.v
  {
  }

  predicate IsDigit(c: char) {
    '0' <= c <= '9'
  }

  predicate AllDigits(s: string) {
    forall i :: 0 <= i < |s| ==> IsDigit(s[i])
  }

  /** The length of the run of decimal digits that starts the string. */
  function DigitRun(s: string): (n: nat)
    ensures n <= |s| && AllDigits(s[..n])
    ensures n == |s| || !IsDigit(s[n])
  {
    if s != [] && IsDigit(s[0]) then
      var n := 1 + DigitRun(s[1..]);
      assert s[..n] == [s[0]] + s[1..][..n - 1];
      n
    else 0
  }

  /** The value of a string of decimal digits. */
  function DigitsValue(ds: string): nat
    requires AllDigits(ds)
  {
    if ds == [] then 0
    else DigitsValue(ds[..|ds| - 1]) * 10 + (ds[|ds| - 1] as int - '0' as int)
  }

  /** The value of the digits after a decimal point: ".d ds" is (d + ".ds") / 10. */
  function FractionValue(ds: string): (r: real)
    requires AllDigits(ds)
    ensures 0.0 <= r <= 1.0
  {
    if ds == [] then 0.0
    else ((ds[0] as int - '0' as int) as real + FractionValue(ds[1..])) / 10.0
  }

  /** The longest prefix of a string that reads as a decimal literal: an
      optional sign, digits, and a point followed by more digits, with at least
      one digit in all. */
  datatype Scanned = NoNumber | Number(value: real, length: nat)

  /** The unsigned part: digits, then optionally a point and more digits. */
  function ScanUnsigned(u: string): (r: Scanned)
    ensures r.Number? ==> 0 < r.length <= |u|
  {
    var k := DigitRun(u);
    var whole := DigitsValue(u[..k]) as real;
    if k < |u| && u[k] == '.' then
      var frac := u[k + 1..];
      var f := DigitRun(frac);
      if k + f == 0 then NoNumber
      else Number(whole + FractionValue(frac[..f]), k + 1 + f)
    else if k == 0 then NoNumber
    else Number(whole, k)
  }

  function ScanDecimal(s: string): (r: Scanned)
    ensures r.Number? ==> 0 < r.length <= |s|
  {
    var signLen := if s != [] && (s[0] == '+' || s[0] == '-') then 1 else 0;
    match ScanUnsigned(s[signLen..])
    case NoNumber => NoNumber
    case Number(m, n) => Number(if signLen == 1 && s[0] == '-' then -m else m, signLen + n)
  }

  /** `parseFloat(s)`: skips leading whitespace and reads the longest decimal
      prefix; NaN when there is none.  It never yields an infinity in this
      model. */
  function ParseFloat(s: string): (r: Num)
    ensures !r.Infinity?
  {
    match ScanDecimal(TrimStart(s))
    case NoNumber => NaN
    case Number(x, _) => Finite(x)
  }

  /** `Number(s)`: the whole trimmed string must be a decimal literal; the
      empty (or all-whitespace) string is 0. */
  function ToNumber(s: string): (r: Num)
    ensures !r.Infinity?
    ensures Trim(s) == [] ==> r == Finite(0.0)
  {
    var t := Trim(s);
    if t == [] then Finite(0.0)
    else
      match ScanDecimal(t)
      case Number(x, n) => if n == |t| then Finite(x) else NaN
      case NoNumber => NaN
  }

  lemma {:induction false} DigitRunOfDigits(s: string, rest: string)
    requires AllDigits(s)
    requires rest == [] || !IsDigit(rest[0])
    ensures DigitRun(s + rest) == |s|
    decreases |s|
  {
    if s == [] {
      assert s + rest == rest;
    } else {
      assert (s + rest)[1..] == s[1..] + rest;
      DigitRunOfDigits(s[1..], rest);
    }
  }

  /** A run of digits followed by something that cannot continue a decimal
      literal scans as that run's value. */
  lemma ScanDigits(s: string, rest: string)
    requires s != [] && AllDigits(s)
    requires rest == [] || (!IsDigit(rest[0]) && rest[0] != '.')
    ensures ScanUnsigned(s + rest) == Number(DigitsValue(s) as real, |s|)
  {
    var t := s + rest;
    assert t[0] == s[0] && IsDigit(t[0]);
    DigitRunOfDigits(s, rest);
    assert t[..|s|] == s;
  }

  /** Digits, a point and more digits (at least one digit in all), followed
      by something that is not a digit, scan as whole part plus fraction. */
  lemma ScanPointed(ds: string, fs: string, rest: string)
    requires AllDigits(ds) && AllDigits(fs) && |ds| + |fs| >= 1
    requires rest == [] || !IsDigit(rest[0])
    ensures ScanUnsigned(ds + "." + fs + rest) ==
            Number(DigitsValue(ds) as real + FractionValue(fs), |ds| + 1 + |fs|)
  {
    var u := ds + "." + fs + rest;
    PointedRuns(ds, fs, rest);
    ScanAfterPoint(u, ds, fs);
  }

  lemma PointedRuns(ds: string, fs: string, rest: string)
    requires AllDigits(ds) && AllDigits(fs)
    requires rest == [] || !IsDigit(rest[0])
    ensures var u := ds + "." + fs + rest;
            |ds| < |u| && DigitRun(u) == |ds| && u[..|ds|] == ds && u[|ds|] == '.' &&
            DigitRun(u[|ds| + 1..]) == |fs| && u[|ds| + 1..][..|fs|] == fs
  {
    var u := ds + "." + fs + rest;
    assert u == ds + (['.'] + fs + rest);
    DigitRunOfDigits(ds, ['.'] + fs + rest);
    assert u[|ds| + 1..] == fs + rest;
    DigitRunOfDigits(fs, rest);
  }

  lemma ScanAfterPoint(u: string, ds: string, fs: string)
    requires AllDigits(ds) && AllDigits(fs) && |ds| + |fs| >= 1
    requires |ds| < |u| && DigitRun(u) == |ds| && u[..|ds|] == ds && u[|ds|] == '.'
    requires DigitRun(u[|ds| + 1..]) == |fs| && u[|ds| + 1..][..|fs|] == fs
    ensures ScanUnsigned(u) == Number(DigitsValue(ds) as real + FractionValue(fs), |ds| + 1 + |fs|)
  {
  }

  /** A decimal literal as the scanner reads it: an optional sign, digits,
      and optionally a point followed by digits. */
  function Literal(sign: string, ds: string, point: bool, fs: string): string {
    sign + Unsigned(ds, point, fs)
  }

  function Unsigned(ds: string, point: bool, fs: string): string {
    if point then ds + "." + fs else ds
  }

  lemma Regroup<T>(a: seq<T>, b: seq<T>, c: seq<T>)
    ensures a + b + c == a + (b + c)
  {
  }

  /** The literal has a digit somewhere, and no fraction without a point. */
  predicate WellFormed(sign: string, ds: string, point: bool, fs: string) {
    (sign == "" || sign == "+" || sign == "-") &&
    AllDigits(ds) && AllDigits(fs) &&
    (if point then |ds| + |fs| >= 1 else ds != [] && fs == [])
  }

  /** The value the literal denotes. */
  function LiteralValue(sign: string, ds: string, fs: string): real
    requires AllDigits(ds) && AllDigits(fs)
  {
    var m := DigitsValue(ds) as real + FractionValue(fs);
    if sign == "-" then -m else m
  }

  /** What follows the literal cannot continue it. */
  predicate EndsLiteral(rest: string, point: bool) {
    rest == [] || (!IsDigit(rest[0]) && (point || rest[0] != '.'))
  }

  /** The scanner reads a whole well-formed literal and stops where it ends. */
  lemma ScanLiteral(sign: string, ds: string, point: bool, fs: string, rest: string)
    requires WellFormed(sign, ds, point, fs) && EndsLiteral(rest, point)
    ensures ScanDecimal(Literal(sign, ds, point, fs) + rest) ==
            Number(LiteralValue(sign, ds, fs), |Literal(sign, ds, point, fs)|)
  {
    ScanUnsignedLiteral(ds, point, fs, rest);
    ScanSigned(sign, Unsigned(ds, point, fs), rest, DigitsValue(ds) as real + FractionValue(fs));
  }

  /** The unsigned part alone: read whole, and it starts with neither sign. */
  lemma ScanUnsignedLiteral(ds: string, point: bool, fs: string, rest: string)
    requires WellFormed("", ds, point, fs) && EndsLiteral(rest, point)
    ensures var u := Unsigned(ds, point, fs) + rest;
            u != [] && u[0] != '+' && u[0] != '-' &&
            ScanUnsigned(u) == Number(DigitsValue(ds) as real + FractionValue(fs), |Unsigned(ds, point, fs)|)
  {
    var u := Unsigned(ds, point, fs) + rest;
    if point {
      ScanPointed(ds, fs, rest);
    } else {
      ScanDigits(ds, rest);
      assert FractionValue(fs) == 0.0;
    }
    if ds == [] {
      assert u[0] == '.';
    } else {
      assert u[0] == ds[0] && IsDigit(ds[0]);
    }
  }

  /** The optional sign in front of an unsigned literal. */
  lemma ScanSigned(sign: string, w: string, rest: string, m: real)
    requires sign == "" || sign == "+" || sign == "-"
    requires w + rest != [] && (w + rest)[0] != '+' && (w + rest)[0] != '-'
    requires ScanUnsigned(w + rest) == Number(m, |w|)
    ensures ScanDecimal(sign + w + rest) == Number(if sign == "-" then -m else m, |sign| + |w|)
  {
    var u := w + rest;
    var s := sign + w + rest;
    Regroup(sign, w, rest);
    if sign == "" {
      assert s == u && s[0..] == u;
    } else {
      assert s[0] == sign[0] && s[1..] == u;
    }
  }

  /** `parseFloat` skips leading whitespace and reads the longest decimal
      literal, whatever follows it. */
  lemma ParseFloatReadsPrefix(ws: string, sign: string, ds: string, point: bool, fs: string, rest: string)
    requires AllWhitespace(ws)
    requires WellFormed(sign, ds, point, fs) && EndsLiteral(rest, point)
    ensures ParseFloat(ws + Literal(sign, ds, point, fs) + rest) == Finite(LiteralValue(sign, ds, fs))
  {
    var lit := Literal(sign, ds, point, fs);
    Regroup(ws, lit, rest);
    TrimStartSkips(ws, lit + rest);
    LiteralIsTrimmed(sign, ds, point, fs);
    assert (lit + rest)[0] == lit[0];
    TrimStartKeeps(lit + rest);
    ScanLiteral(sign, ds, point, fs, rest);
  }

  lemma LiteralIsTrimmed(sign: string, ds: string, point: bool, fs: string)
    requires WellFormed(sign, ds, point, fs)
    ensures IsTrimmed(Literal(sign, ds, point, fs))
  {
    var s := Literal(sign, ds, point, fs);
    if sign == "" && ds == [] {
      assert s[0] == '.';
    } else if sign == "" {
      assert s[0] == ds[0] && IsDigit(ds[0]);
    } else {
      assert s[0] == sign[0];
    }
    if point && fs != [] {
      assert s[|s| - 1] == fs[|fs| - 1] && IsDigit(fs[|fs| - 1]);
    } else if point {
      assert s[|s| - 1] == '.';
    } else {
      assert s[|s| - 1] == ds[|ds| - 1] && IsDigit(ds[|ds| - 1]);
    }
  }

  /** `Number` reads a literal surrounded by whitespace as its value. */
  lemma ToNumberReadsLiteral(ws: string, sign: string, ds: string, point: bool, fs: string, ws': string)
    requires AllWhitespace(ws) && AllWhitespace(ws')
    requires WellFormed(sign, ds, point, fs)
    ensures ToNumber(ws + Literal(sign, ds, point, fs) + ws') == Finite(LiteralValue(sign, ds, fs))
  {
    var lit := Literal(sign, ds, point, fs);
    LiteralIsTrimmed(sign, ds, point, fs);
    TrimSurroundings(ws, lit, ws');
    ScanLiteral(sign, ds, point, fs, []);
    assert lit + [] == lit;
  }

  /** Unlike `parseFloat`, `Number` refuses anything after the literal that is
      not whitespace. */
  lemma NumberRejectsTrailingText(sign: string, ds: string, point: bool, fs: string, rest: string)
    requires WellFormed(sign, ds, point, fs) && EndsLiteral(rest, point)
    requires rest != [] && !IsWhitespace(rest[|rest| - 1])
    ensures ToNumber(Literal(sign, ds, point, fs) + rest) == NaN
  {
    var lit := Literal(sign, ds, point, fs);
    var s := lit + rest;
    LiteralIsTrimmed(sign, ds, point, fs);
    assert s[0] == lit[0] && s[|s| - 1] == rest[|rest| - 1];
    TrimmedIsFixed(s);
    ScanLiteral(sign, ds, point, fs, rest);
  }

  /** A non-empty string of digits reads as its value. */
  lemma NumberOfDigits(ds: string)
    requires ds != [] && AllDigits(ds)
    ensures ToNumber(ds) == Finite(DigitsValue(ds) as real)
  {
    ToNumberReadsLiteral([], [], ds, false, [], []);
    assert [] + Literal([], ds, false, []) + [] == ds;
  }
}
