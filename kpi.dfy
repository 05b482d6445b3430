/** The indicator arithmetic of `initDashboard`
    (integrado/dashboard_integrado.js): column totals over the three parsed
    files, scaffolding hours from the crew count, the two STD ratios (hours per
    unit of output), predicted hours, the realised percentage and the
    realised/remaining split.  The source reads fixed column names and
    computes grand totals only; its divisions are unguarded. */
module Kpi {
  import opened JsNumber
  import opened Csv

  /** Column names read from each file. */
  const PaintedArea: string := "M\U{00B2}"
  const PaintingHoursColumn: string := "Quantidade"
  const ScaffoldLength: string := "Metro Linear Real"
  const CrewCount: string := "Qtd Montadores"
  const SgeHours: string := "Total Horas"

  /** Hours credited per crew member (one 8-hour day). */
  const ShiftHours: real := 8.0

  /** `parseFloat(row[key] || 0)`: a missing or empty cell reads as 0. */
  function CellValue(row: Record, key: string): (r: Num)
    ensures !r.Infinity?
    ensures key !in row || row[key] == [] ==> r == Finite(0.0)
  {
    if key !in row || row[key] == [] then Finite(0.0) else ParseFloat(row[key])
  }

  /** The accumulator `total += parseFloat(row[key] || 0)` after a `forEach`
      over the rows, starting from 0. */
  function ColumnTotal(rows: seq<Record>, key: string): (r: Num)
    ensures !r.Infinity?
  {
    if rows == [] then Finite(0.0)
    else Add(ColumnTotal(rows[..|rows| - 1], key), CellValue(rows[|rows| - 1], key))
  }

  /** The accumulator `total += parseFloat(row[CrewCount] || 0) * 8`. */
  function CrewHours(rows: seq<Record>): (r: Num)
    ensures !r.Infinity?
  {
    if rows == [] then Finite(0.0)
    else Add(CrewHours(rows[..|rows| - 1]),
             Mul(CellValue(rows[|rows| - 1], CrewCount), Finite(ShiftHours)))
  }

  /** Reference definition of a column total: the plain sum of the readable
      cell values, taken from the front. */
  function Amount(row: Record, key: string): real {
    match CellValue(row, key)
    case Finite(x) => x
    case _ => 0.0
  }

  function SumOf(rows: seq<Record>, key: string): real {
    if rows == [] then 0.0 else Amount(rows[0], key) + SumOf(rows[1..], key)
  }

  /** Every row's cell in the column reads as a number. */
  predicate Readable(rows: seq<Record>, key: string)
    decreases |rows|
  {
    rows == [] || (Readable(rows[..|rows| - 1], key) && !CellValue(rows[|rows| - 1], key).NaN?)
  }

  lemma {:induction false} ReadableAt(rows: seq<Record>, key: string)
    ensures Readable(rows, key) <==> forall i :: 0 <= i < |rows| ==> !CellValue(rows[i], key).NaN?
    decreases |rows|
  {
    if rows != [] {
      var init := rows[..|rows| - 1];
      ReadableAt(init, key);
      assert forall i :: 0 <= i < |init| ==> init[i] == rows[i];
    }
  }

  lemma {:induction false} SumOfAppend(a: seq<Record>, b: seq<Record>, key: string)
    ensures SumOf(a + b, key) == SumOf(a, key) + SumOf(b, key)
    decreases |a|
  {
    if a == [] {
      assert a + b == b;
    } else {
      assert (a + b)[1..] == a[1..] + b;
      SumOfAppend(a[1..], b, key);
    }
  }

  /** A column total is the sum of its cells when every cell is readable, and
      NaN as soon as one is not. */
  lemma {:induction false} ColumnTotalIsSum(rows: seq<Record>, key: string)
    ensures ColumnTotal(rows, key) == if Readable(rows, key) then Finite(SumOf(rows, key)) else NaN
    decreases |rows|
  {
    if rows != [] {
      var init, last := rows[..|rows| - 1], rows[|rows| - 1];
      ColumnTotalIsSum(init, key);
      assert rows == init + [last];
      ColumnTotalIsSumStep(init, last, key);
    }
  }

  lemma ColumnTotalIsSumStep(init: seq<Record>, last: Record, key: string)
    requires ColumnTotal(init, key) == if Readable(init, key) then Finite(SumOf(init, key)) else NaN
    ensures var rows := init + [last];
            ColumnTotal(rows, key) == if Readable(rows, key) then Finite(SumOf(rows, key)) else NaN
  {
    var rows := init + [last];
    var c := CellValue(last, key);
    assert ColumnTotal(rows, key) == Add(ColumnTotal(init, key), c) by {
      assert rows[..|rows| - 1] == init;
    }
    assert SumOf(rows, key) == SumOf(init, key) + Amount(last, key) by {
      SumOfAppend(init, [last], key);
    }
    assert Readable(rows, key) <==> Readable(init, key) && !c.NaN? by {
      assert rows[..|rows| - 1] == init;
    }
    AddReadable(ColumnTotal(init, key), c, Readable(init, key), SumOf(init, key), Amount(last, key));
  }

  /** Adding one cell to a running total: a sum stays a sum while the cell
      reads as a number, and NaN otherwise. */
  lemma AddReadable(total: Num, c: Num, ok: bool, s: real, a: real)
    requires total == if ok then Finite(s) else NaN
    requires !c.Infinity? && (c.Finite? ==> c.v == a)
    ensures Add(total, c) == if ok && !c.NaN? then Finite(s + a) else NaN
  {
  }

  /** One more step of a left-to-right accumulation. */
  lemma ColumnTotalStep(rows: seq<Record>, i: nat, key: string)
    requires i < |rows|
    ensures ColumnTotal(rows[..i + 1], key) == Add(ColumnTotal(rows[..i], key), CellValue(rows[i], key))
  {
    assert rows[..i + 1][..i] == rows[..i];
  }

  lemma CrewHoursStep(rows: seq<Record>, i: nat)
    requires i < |rows|
    ensures CrewHours(rows[..i + 1]) ==
            Add(CrewHours(rows[..i]), Mul(CellValue(rows[i], CrewCount), Finite(ShiftHours)))
  {
    assert rows[..i + 1][..i] == rows[..i];
  }

  lemma SumOfRemove(rows: seq<Record>, j: nat, key: string)
    requires j < |rows|
    ensures SumOf(rows, key) == Amount(rows[j], key) + SumOf(rows[..j] + rows[j + 1..], key)
  {
    var pre, post := rows[..j], rows[j + 1..];
    assert rows == pre + ([rows[j]] + post);
    assert ([rows[j]] + post)[1..] == post;
    SumOfAppend(pre, [rows[j]] + post, key);
    SumOfAppend(pre, post, key);
  }

  lemma MultisetSplitAt<T>(s: seq<T>, j: nat)
    requires j < |s|
    ensures multiset(s) == multiset(s[..j] + s[j + 1..]) + multiset{s[j]}
  {
    assert s == s[..j] + [s[j]] + s[j + 1..];
  }

  lemma MultisetCancel<T>(a: multiset<T>, b: multiset<T>, x: T, m: multiset<T>)
    requires a + multiset{x} == m && b + multiset{x} == m
    ensures a == b
  {
    assert a == a + multiset{x} - multiset{x};
    assert b == b + multiset{x} - multiset{x};
  }

  lemma IndexOf<T>(x: T, s: seq<T>) returns (j: nat)
    requires x in multiset(s)
    ensures j < |s| && s[j] == x
  {
    assert x in s;
    j :| 0 <= j < |s| && s[j] == x;
  }

  /** The first element of a sequence sits somewhere in any permutation of
      it, and the rests are permutations of each other. */
  lemma PermutationHead<T>(s: seq<T>, s': seq<T>) returns (j: nat)
    requires s != [] && multiset(s) == multiset(s')
    ensures j < |s'| && s'[j] == s[0]
    ensures multiset(s[1..]) == multiset(s'[..j] + s'[j + 1..])
  {
    assert s[0] in multiset(s);
    j := IndexOf(s[0], s');
    var rest, rest' := s[1..], s'[..j] + s'[j + 1..];
    assert multiset(rest) + multiset{s[0]} == multiset(s) by {
      MultisetSplitAt(s, 0);
      assert s[..0] + s[1..] == rest;
    }
    assert multiset(rest') + multiset{s[0]} == multiset(s) by {
      MultisetSplitAt(s', j);
    }
    MultisetCancel(multiset(rest), multiset(rest'), s[0], multiset(s));
  }

  lemma {:induction false} SumOfPermutation(rows: seq<Record>, rows': seq<Record>, key: string)
    requires multiset(rows) == multiset(rows')
    ensures SumOf(rows, key) == SumOf(rows', key)
    decreases |rows|
  {
    if rows == [] {
      assert |rows'| == |multiset(rows')| == 0;
    } else {
      var j := PermutationHead(rows, rows');
      SumOfPermutation(rows[1..], rows'[..j] + rows'[j + 1..], key);
      SumOfRemove(rows', j, key);
    }
  }

  /** The totals do not depend on the order of the rows. */
  lemma ColumnTotalOrderIrrelevant(rows: seq<Record>, rows': seq<Record>, key: string)
    requires multiset(rows) == multiset(rows')
    ensures ColumnTotal(rows, key) == ColumnTotal(rows', key)
  {
    ColumnTotalIsSum(rows, key);
    ColumnTotalIsSum(rows', key);
    SumOfPermutation(rows, rows', key);
    assert Readable(rows, key) <==> Readable(rows', key) by {
      assert forall r :: r in rows <==> r in rows' by {
        forall r ensures r in rows <==> r in rows' {
          assert r in rows <==> r in multiset(rows);
          assert r in rows' <==> r in multiset(rows');
        }
      }
      ReadableAt(rows, key);
      ReadableAt(rows', key);
      assert Readable(rows, key) <==> forall r :: r in rows ==> !CellValue(r, key).NaN?;
      assert Readable(rows', key) <==> forall r :: r in rows' ==> !CellValue(r, key).NaN?;
    }
  }

  lemma ReadableAppend(a: seq<Record>, b: seq<Record>, key: string)
    ensures Readable(a + b, key) <==> Readable(a, key) && Readable(b, key)
  {
    ReadableAt(a, key);
    ReadableAt(b, key);
    ReadableAt(a + b, key);
    if Readable(a, key) && Readable(b, key) {
      forall i | 0 <= i < |a + b| ensures !CellValue((a + b)[i], key).NaN? {
        if i < |a| {
          assert (a + b)[i] == a[i];
        } else {
          assert (a + b)[i] == b[i - |a|];
        }
      }
    }
    if Readable(a + b, key) {
      forall i | 0 <= i < |b| ensures !CellValue(b[i], key).NaN? {
        assert (a + b)[|a| + i] == b[i];
      }
      forall i | 0 <= i < |a| ensures !CellValue(a[i], key).NaN? {
        assert (a + b)[i] == a[i];
      }
    }
  }

  /** A row whose cell is missing or empty leaves the total unchanged, wherever
      it stands. */
  lemma MissingCellIsNeutral(before: seq<Record>, row: Record, after: seq<Record>, key: string)
    requires key !in row || row[key] == []
    ensures ColumnTotal(before + [row] + after, key) == ColumnTotal(before + after, key)
  {
    var with, without := before + [row] + after, before + after;
    ColumnTotalIsSum(with, key);
    ColumnTotalIsSum(without, key);
    SumOfAppend(before + [row], after, key);
    SumOfAppend(before, [row], key);
    SumOfAppend(before, after, key);
    assert SumOf([row], key) == 0.0;
    ReadableAppend(before + [row], after, key);
    ReadableAppend(before, [row], key);
    ReadableAppend(before, after, key);
  }

  /** Crediting 8 hours per crew member row by row is 8 times the summed crew
      count. */
  lemma {:induction false} CrewHoursScaled(rows: seq<Record>)
    ensures CrewHours(rows) == Mul(ColumnTotal(rows, CrewCount), Finite(ShiftHours))
    decreases |rows|
  {
    if rows != [] {
      var init, last := rows[..|rows| - 1], rows[|rows| - 1];
      CrewHoursScaled(init);
      MulDistributes(ColumnTotal(init, CrewCount), CellValue(last, CrewCount), ShiftHours);
    }
  }

  lemma MulDistributes(a: Num, b: Num, c: real)
    requires !a.Infinity? && !b.Infinity?
    ensures Mul(Add(a, b), Finite(c)) == Add(Mul(a, Finite(c)), Mul(b, Finite(c)))
  {
    if a.Finite? && b.Finite? {
      assert (a.v + b.v) * c == a.v * c + b.v * c;
    }
  }

  /** The totals the three `forEach` loops of `initDashboard` accumulate, and
      the predicted hours derived from them. */
  datatype Totals = Totals(
    area: Num,               // totalM2
    paintingHours: Num,      // totalHHpintura
    length: Num,             // totalML
    scaffoldHours: Num,      // totalHHandaime
    realHours: Num,          // horasReais
    predictedHours: Num)     // horasPrevistas

  /** No accumulated total is ever an infinity: sums of parsed values are
      finite or NaN. */
  predicate NoInfinity(t: Totals) {
    !t.area.Infinity? && !t.paintingHours.Infinity? && !t.length.Infinity? &&
    !t.scaffoldHours.Infinity? && !t.realHours.Infinity? && !t.predictedHours.Infinity?
  }

  /** The indicators `initDashboard` shows. */
  datatype Kpis = Kpis(
    totals: Totals,
    paintingStd: Num,        // stdPintura, HH/m²
    scaffoldStd: Num,        // stdAndaimeCalc, HH/ml
    realisedPercent: Num,    // percentual
    remainingHours: Num)     // horasPrevistas - horasReais, the doughnut's second slice

  /** An STD figure, `hours / output`: a number exactly when both totals are
      and the output is not zero.  A zero output gives NaN (no hours either)
      or an infinity. */
  function Std(hours: Num, output: Num): (r: Num)
    requires !hours.Infinity? && !output.Infinity?
    ensures r.Finite? <==> hours.Finite? && output.Finite? && output.v != 0.0
    ensures hours.Finite? && output == Finite(0.0) ==> (r.NaN? <==> hours.v == 0.0)
  {
    Div(hours, output)
  }

  /** A finite STD figure is the hours per unit of output. */
  lemma StdIsRatio(hours: Num, output: Num)
    requires hours.Finite? && output.Finite? && output.v != 0.0
    ensures Std(hours, output).Finite? && Std(hours, output).v * output.v == hours.v
  {
    DivIsQuotient(hours, output);
  }

  /** The realised percentage, `(actual / predicted) * 100`: a number exactly
      when both hour totals are and some hours were predicted. */
  function RealisedPercent(actual: Num, predicted: Num): (r: Num)
    requires !actual.Infinity? && !predicted.Infinity?
    ensures r.Finite? <==> actual.Finite? && predicted.Finite? && predicted.v != 0.0
  {
    Mul(Div(actual, predicted), Finite(100.0))
  }

  /** A finite percentage is a hundred times the realised share of the
      predicted hours. */
  lemma RealisedPercentIsRatio(actual: Num, predicted: Num)
    requires actual.Finite? && predicted.Finite? && predicted.v != 0.0
    ensures var r := RealisedPercent(actual, predicted);
            r.Finite? && r.v * predicted.v == 100.0 * actual.v
  {
    var q := Div(actual, predicted);
    DivIsQuotient(actual, predicted);
    assert (q.v * 100.0) * predicted.v == 100.0 * (q.v * predicted.v);
  }

  /** The doughnut's second slice, `predicted - actual`: together with the
      realised hours it makes up the predicted hours. */
  function Remaining(predicted: Num, actual: Num): (r: Num)
    ensures actual.Finite? && predicted.Finite? ==>
              r.Finite? && actual.v + r.v == predicted.v
    ensures actual.NaN? || predicted.NaN? ==> r.NaN?
  {
    Sub(predicted, actual)
  }

  /** The totals as functions of the three parsed files. */
  function Accumulate(painting: seq<Record>, scaffold: seq<Record>, sge: seq<Record>): (t: Totals)
    ensures NoInfinity(t)
    ensures t.scaffoldHours == Mul(ColumnTotal(scaffold, CrewCount), Finite(ShiftHours))
  {
    CrewHoursScaled(scaffold);
    var paintingHours := ColumnTotal(painting, PaintingHoursColumn);
    var scaffoldHours := CrewHours(scaffold);
    Totals(ColumnTotal(painting, PaintedArea), paintingHours,
           ColumnTotal(scaffold, ScaffoldLength), scaffoldHours,
           ColumnTotal(sge, SgeHours), Add(scaffoldHours, paintingHours))
  }

  /** The figures computed from the totals. */
  function Figures(t: Totals): Kpis
    requires NoInfinity(t)
  {
    Kpis(t, Std(t.paintingHours, t.area), Std(t.scaffoldHours, t.length),
         RealisedPercent(t.realHours, t.predictedHours),
         Remaining(t.predictedHours, t.realHours))
  }

  /** The indicators as functions of the three parsed files. */
  function Dashboard(painting: seq<Record>, scaffold: seq<Record>, sge: seq<Record>): (k: Kpis)
    ensures var t := k.totals;
            (k.paintingStd.Finite? <==> t.paintingHours.Finite? && t.area.Finite? && t.area.v != 0.0) &&
            (k.scaffoldStd.Finite? <==> t.scaffoldHours.Finite? && t.length.Finite? && t.length.v != 0.0) &&
            (k.realisedPercent.Finite? <==>
               t.realHours.Finite? && t.predictedHours.Finite? && t.predictedHours.v != 0.0) &&
            (t.realHours.Finite? && t.predictedHours.Finite? ==>
               k.remainingHours.Finite? && t.realHours.v + k.remainingHours.v == t.predictedHours.v)
  {
    Figures(Accumulate(painting, scaffold, sge))
  }

  lemma ReadableTotal(rows: seq<Record>, key: string)
    requires Readable(rows, key)
    ensures ColumnTotal(rows, key) == Finite(SumOf(rows, key))
  {
    ColumnTotalIsSum(rows, key);
  }

  lemma ScaledSum(crew: real, hours: real)
    ensures Add(Mul(Finite(crew), Finite(ShiftHours)), Finite(hours)) == Finite(8.0 * crew + hours)
  {
  }

  /** The hour totals in terms of the column totals they are built from. */
  lemma HoursFromTotals(painting: seq<Record>, scaffold: seq<Record>, sge: seq<Record>,
                        paintingSum: real, crewSum: real, sgeSum: real)
    requires ColumnTotal(painting, PaintingHoursColumn) == Finite(paintingSum)
    requires ColumnTotal(scaffold, CrewCount) == Finite(crewSum)
    requires ColumnTotal(sge, SgeHours) == Finite(sgeSum)
    ensures Accumulate(painting, scaffold, sge).realHours == Finite(sgeSum)
    ensures Accumulate(painting, scaffold, sge).predictedHours == Finite(8.0 * crewSum + paintingSum)
  {
    ScaledSum(crewSum, paintingSum);
  }

  /** With readable hour columns the realised hours are the sum of the SGE
      hours, and the predicted hours the painting hours plus eight hours per
      crew member. */
  lemma AccumulatedHours(painting: seq<Record>, scaffold: seq<Record>, sge: seq<Record>)
    requires Readable(painting, PaintingHoursColumn) && Readable(scaffold, CrewCount)
    requires Readable(sge, SgeHours)
    ensures Accumulate(painting, scaffold, sge).realHours == Finite(SumOf(sge, SgeHours))
    ensures Accumulate(painting, scaffold, sge).predictedHours ==
            Finite(8.0 * SumOf(scaffold, CrewCount) + SumOf(painting, PaintingHoursColumn))
  {
    ReadableTotal(painting, PaintingHoursColumn);
    ReadableTotal(scaffold, CrewCount);
    ReadableTotal(sge, SgeHours);
    HoursFromTotals(painting, scaffold, sge, SumOf(painting, PaintingHoursColumn),
                    SumOf(scaffold, CrewCount), SumOf(sge, SgeHours));
  }

  /** With no rows at all both STD figures and the percentage are 0/0, NaN,
      rather than a blank figure. */
  lemma EmptyFilesGiveNaN()
    ensures Dashboard([], [], []) ==
            Kpis(Totals(Finite(0.0), Finite(0.0), Finite(0.0), Finite(0.0), Finite(0.0), Finite(0.0)),
                 NaN, NaN, NaN, Finite(0.0))
  {
    var none: seq<Record> := [];
    var zero := Finite(0.0);
    assert ColumnTotal(none, PaintedArea) == zero && ColumnTotal(none, PaintingHoursColumn) == zero;
    assert ColumnTotal(none, ScaffoldLength) == zero && CrewHours(none) == zero;
    assert ColumnTotal(none, SgeHours) == zero;
    assert Std(zero, zero) == NaN && RealisedPercent(zero, zero) == NaN;
    assert Add(zero, zero) == zero && Remaining(zero, zero) == zero;
  }

  /** The first `forEach` of `initDashboard`: painted area and painting
      hours over the painting file. */
  method PaintingLoop(painting: seq<Record>) returns (totalM2: Num, totalHHpainting: Num)
    ensures totalM2 == ColumnTotal(painting, PaintedArea)
    ensures totalHHpainting == ColumnTotal(painting, PaintingHoursColumn)
  {
    totalM2, totalHHpainting := Finite(0.0), Finite(0.0);
    var i := 0;
    while i < |painting|
      invariant i <= |painting|
      invariant totalM2 == ColumnTotal(painting[..i], PaintedArea)
      invariant totalHHpainting == ColumnTotal(painting[..i], PaintingHoursColumn)
    {
      ColumnTotalStep(painting, i, PaintedArea);
      ColumnTotalStep(painting, i, PaintingHoursColumn);
      totalM2 := Add(totalM2, CellValue(painting[i], PaintedArea));
      totalHHpainting := Add(totalHHpainting, CellValue(painting[i], PaintingHoursColumn));
      i := i + 1;
    }
    assert painting[..i] == painting;
  }

  /** The second `forEach`: scaffolding length, and eight hours per crew
      member. */
  method ScaffoldLoop(scaffold: seq<Record>) returns (totalML: Num, totalHHscaffold: Num)
    ensures totalML == ColumnTotal(scaffold, ScaffoldLength)
    ensures totalHHscaffold == CrewHours(scaffold)
  {
    totalML, totalHHscaffold := Finite(0.0), Finite(0.0);
    var i := 0;
    while i < |scaffold|
      invariant i <= |scaffold|
      invariant totalML == ColumnTotal(scaffold[..i], ScaffoldLength)
      invariant totalHHscaffold == CrewHours(scaffold[..i])
    {
      ColumnTotalStep(scaffold, i, ScaffoldLength);
      CrewHoursStep(scaffold, i);
      totalML := Add(totalML, CellValue(scaffold[i], ScaffoldLength));
      totalHHscaffold := Add(totalHHscaffold, Mul(CellValue(scaffold[i], CrewCount), Finite(ShiftHours)));
      i := i + 1;
    }
    assert scaffold[..i] == scaffold;
  }

  /** The third `forEach`: the hours booked in the SGE file. */
  method SgeLoop(sge: seq<Record>) returns (realHours: Num)
    ensures realHours == ColumnTotal(sge, SgeHours)
  {
    realHours := Finite(0.0);
    var i := 0;
    while i < |sge|
      invariant i <= |sge|
      invariant realHours == ColumnTotal(sge[..i], SgeHours)
    {
      ColumnTotalStep(sge, i, SgeHours);
      realHours := Add(realHours, CellValue(sge[i], SgeHours));
      i := i + 1;
    }
    assert sge[..i] == sge;
  }

  /** `initDashboard` after the files are parsed: the three loops and the
      arithmetic after them. */
  method InitDashboard(painting: seq<Record>, scaffold: seq<Record>, sge: seq<Record>)
    returns (k: Kpis)
    ensures k == Dashboard(painting, scaffold, sge)
  {
    var totalM2, totalHHpainting := PaintingLoop(painting);
    var totalML, totalHHscaffold := ScaffoldLoop(scaffold);
    var realHours := SgeLoop(sge);
    var predicted := Add(totalHHscaffold, totalHHpainting);
    var t := Totals(totalM2, totalHHpainting, totalML, totalHHscaffold, realHours, predicted);
    assert t == Accumulate(painting, scaffold, sge);
    k := Kpis(t, Std(totalHHpainting, totalM2), Std(totalHHscaffold, totalML),
              RealisedPercent(realHours, predicted), Remaining(predicted, realHours));
  }
}
