/** `coloresAleatorias` (Pintura/scriptpintura.js): the background colours of a
    chart, obtained by repeating the given palette as often as needed. */
module Palette {

  /** The number of passes of `for (let i = 0; i < qtd; i++)`. */
  function Passes(qtd: int): nat {
    if qtd <= 0 then 0 else qtd
  }

  /** The colours after `n` passes: each pass appends the next palette entry,
      wrapping round at the end of the palette. */
  function Cycle<T>(n: nat, colors: seq<T>): (r: seq<T>)
    requires n == 0 || |colors| > 0
    ensures |r| == n
  {
    if n == 0 then [] else Cycle(n - 1, colors) + [colors[(n - 1) % |colors|]]
  }

  /** Entry i is palette entry i modulo the palette's length. */
  lemma {:induction false} CycleAt<T>(n: nat, colors: seq<T>, i: nat)
    requires |colors| > 0 && i < n
    ensures Cycle(n, colors)[i] == colors[i % |colors|]
  {
    if i < n - 1 {
      CycleAt(n - 1, colors, i);
    }
  }

  /** Every entry is one of the palette's colours. */
  lemma CycleFromPalette<T>(n: nat, colors: seq<T>)
    requires |colors| > 0
    ensures forall c :: c in Cycle(n, colors) ==> c in colors
  {
    var r := Cycle(n, colors);
    forall c | c in r
      ensures c in colors
    {
      var i :| 0 <= i < |r| && r[i] == c;
      CycleAt(n, colors, i);
    }
  }

  /** The colours repeat with the palette's length as period. */
  lemma CyclePeriodic<T>(n: nat, colors: seq<T>, i: nat)
    requires |colors| > 0 && i + |colors| < n
    ensures Cycle(n, colors)[i] == Cycle(n, colors)[i + |colors|]
  {
    CycleAt(n, colors, i);
    CycleAt(n, colors, i + |colors|);
    ModuloShift(i, |colors|);
  }

  lemma ModuloShift(i: nat, m: nat)
    requires m > 0
    ensures (i + m) % m == i % m
  {
    var d := (i + m) / m - i / m - 1;
    assert m * d == i % m - (i + m) % m by {
      assert m * d == m * ((i + m) / m) - m * (i / m) - m;
    }
  }

  /** More passes only add colours at the end. */
  lemma {:induction false} CyclePrefix<T>(m: nat, n: nat, colors: seq<T>)
    requires m <= n && (n == 0 || |colors| > 0)
    ensures Cycle(m, colors) == Cycle(n, colors)[..m]
    decreases n - m
  {
    if m < n {
      CyclePrefix(m, n - 1, colors);
      assert Cycle(n, colors)[..n - 1] == Cycle(n - 1, colors);
      assert Cycle(n, colors)[..m] == Cycle(n, colors)[..n - 1][..m];
    }
  }

  /** `coloresAleatorias(qtd, cores)`: pushes `cores[i % cores.length]` for
      every i below `qtd`.  With an empty palette the source pushes
      `undefined`, so a positive count needs a colour. */
  method CyclicColors<T>(qtd: int, colors: seq<T>) returns (result: seq<T>)
    requires qtd <= 0 || |colors| > 0
    ensures result == Cycle(Passes(qtd), colors)
    ensures |result| == Passes(qtd)
    ensures forall i :: 0 <= i < |result| ==> result[i] == colors[i % |colors|]
  {
    result := [];
    var i := 0;
    while i < qtd
      invariant 0 <= i == |result| <= Passes(qtd)
      invariant result == Cycle(i, colors)
      invariant forall j :: 0 <= j < i ==> result[j] == colors[j % |colors|]
    {
      result := result + [colors[i % |colors|]];
      i := i + 1;
    }
  }

  /** The `backgroundColor` that `criarGrafico` passes to the chart: one colour
      per data point. */
  method BackgroundColors<D, T>(data: seq<D>, colors: seq<T>) returns (background: seq<T>)
    requires data == [] || |colors| > 0
    ensures |background| == |data|
    ensures forall i :: 0 <= i < |data| ==> background[i] == colors[i % |colors|]
  {
    background := CyclicColors(|data|, colors);
  }
}
