/** `horaParaDecimal` (integrado/dashboard_integrado.js): a clock time "H:M"
    as decimal hours. */
module Hours {
  import opened Text
  import opened JsNumber
  import opened Wrappers

  /** An absent or empty argument is 0 hours; otherwise the text is cut at
      colons, the first two pieces go through `Number`, and the result is
      H + M / 60.  Without a colon the minutes are `undefined`, so NaN. */
  function HoursToDecimal(hora: Option<string>): (r: Num)
    ensures hora == None || hora == Some([]) ==> r == Finite(0.0)
    ensures !r.Infinity?
  {
    if hora.None? || hora.value == [] then Finite(0.0)
    else
      var parts := Split(hora.value, ':');
      var h := ToNumber(parts[0]);
      var m := if |parts| >= 2 then ToNumber(parts[1]) else NaN;
      Add(h, Div(m, Finite(60.0)))
  }

  /** "H:M" with decimal digits H and M (leading zeros allowed, as in
      "08:05") is H + M/60 hours, so sixty times the result is the number of
      minutes 60·H + M. */
  lemma ClockTimeToHours(hs: string, ms: string)
    requires hs != [] && ms != [] && AllDigits(hs) && AllDigits(ms)
    ensures var r := HoursToDecimal(Some(hs + ":" + ms));
            var h, m := DigitsValue(hs) as real, DigitsValue(ms) as real;
            r == Finite(h + m / 60.0) && 60.0 * r.v == 60.0 * h + m
  {
    SplitClock(hs, ms);
    NumberOfDigits(hs);
    NumberOfDigits(ms);
    MinutesToHours(DigitsValue(ms) as real);
  }

  lemma MinutesToHours(m: real)
    ensures Div(Finite(m), Finite(60.0)) == Finite(m / 60.0)
  {
  }

  lemma SplitClock(hs: string, ms: string)
    requires AllDigits(hs) && AllDigits(ms)
    ensures Split(hs + ":" + ms, ':') == [hs, ms]
  {
    assert hs + ":" + ms == Join([hs, ms], ':');
    assert ':' !in hs by { assert forall i :: 0 <= i < |hs| ==> IsDigit(hs[i]); }
    assert ':' !in ms by { assert forall i :: 0 <= i < |ms| ==> IsDigit(ms[i]); }
    SplitJoin([hs, ms], ':');
  }

  /** Anything after a second colon (the seconds) is ignored. */
  lemma SecondsAreIgnored(hh: string, mm: string, rest: string)
    requires ':' !in hh && ':' !in mm
    ensures HoursToDecimal(Some(hh + ":" + mm + ":" + rest)) == HoursToDecimal(Some(hh + ":" + mm))
  {
    assert hh + ":" + mm + ":" + rest == hh + [':'] + (mm + [':'] + rest);
    SplitPrefix(hh, mm + [':'] + rest, ':');
    SplitPrefix(mm, rest, ':');
    assert hh + ":" + mm == hh + [':'] + mm;
    SplitPrefix(hh, mm, ':');
    SplitWithoutSeparator(mm, ':');
  }

  /** A non-empty text without a colon has no minutes, and gives NaN. */
  lemma NoColonIsNaN(s: string)
    requires s != [] && ':' !in s
    ensures HoursToDecimal(Some(s)) == NaN
  {
    SplitWithoutSeparator(s, ':');
  }
}
