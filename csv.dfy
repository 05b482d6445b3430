/** The text-to-records part of `loadCSV` (integrado/dashboard_integrado.js):
    the fetched text is trimmed and cut into lines at line feeds, every line
    into cells at semicolons; the first line is the header row and every later
    line becomes a record mapping trimmed header j to trimmed cell j.  A line
    with more cells than there are headers makes `headers[i].trim()` throw,
    which here is the `TooManyCells` outcome. */
module Csv {
  import opened Text
  import opened Wrappers

  /** One parsed line: trimmed column name to trimmed cell text. */
  type Record = map<string, string>

  datatype Parsed =
    | Records(records: seq<Record>)
      /** Data row `row` (0-based, so text line `row + 1`) has `cells` cells
          but there are only `headers` headers. */
    | TooManyCells(row: nat, cells: nat, headers: nat)

  /** The lines of the trimmed text. */
  function Lines(text: string): (lines: seq<string>)
    ensures |lines| >= 1
  {
    Split(Trim(text), '\n')
  }

  /** The cells of one line. */
  function Cells(line: string): seq<string> {
    Split(line, ';')
  }

  /** Every line cut into cells: row 0 holds the headers. */
  function Table(text: string): (t: seq<seq<string>>)
    ensures |t| == |Lines(text)|
    ensures forall i :: 0 <= i < |t| ==> t[i] == Cells(Lines(text)[i])
  {
    var lines := Lines(text);
    seq(|lines|, i requires 0 <= i < |lines| => Cells(lines[i]))
  }

  /** Cutting a line into cells loses nothing: joining row i of the table
      with semicolons gives line i back. */
  lemma TableRestoresLines(text: string)
    ensures forall i :: 0 <= i < |Table(text)| ==> Join(Table(text)[i], ';') == Lines(text)[i]
  {
    forall i | 0 <= i < |Table(text)|
      ensures Join(Table(text)[i], ';') == Lines(text)[i]
    {
      JoinSplit(Lines(text)[i], ';');
    }
  }

  /** The one name a plain object does not store: assigning a string to
      `obj["__proto__"]` goes to the prototype setter, which ignores it. */
  const ProtoKey: string := "__proto__"

  /** The record after the first `n` cells have been stored, each under its
      trimmed header; a later cell overwrites an earlier one with the same
      trimmed header, and a cell under `__proto__` is dropped. */
  function Fill(headers: seq<string>, cells: seq<string>, n: nat): Record
    requires n <= |cells| && n <= |headers|
  {
    if n == 0 then map[]
    else
      var key := Trim(headers[n - 1]);
      if key == ProtoKey then Fill(headers, cells, n - 1)
      else Fill(headers, cells, n - 1)[key := Trim(cells[n - 1])]
  }

  function RecordOf(headers: seq<string>, cells: seq<string>): Record
    requires |cells| <= |headers|
  {
    Fill(headers, cells, |cells|)
  }

  /** `rows.map(...)` over the data rows, `first` being the index of `rows[0]`
      among all data rows: one record per row, in order, unless some row has
      more cells than headers, in which case the first such row is reported. */
  function ParseRows(headers: seq<string>, rows: seq<seq<string>>, first: nat): (r: Parsed)
    ensures r.Records? <==> forall k :: 0 <= k < |rows| ==> |rows[k]| <= |headers|
    ensures r.Records? ==>
              |r.records| == |rows| &&
              forall k :: 0 <= k < |rows| ==> r.records[k] == RecordOf(headers, rows[k])
    ensures r.TooManyCells? ==>
              first <= r.row < first + |rows| &&
              r.cells == |rows[r.row - first]| > |headers| == r.headers &&
              forall k :: 0 <= k < r.row - first ==> |rows[k]| <= |headers|
    decreases |rows|
  {
    if rows == [] then Records([])
    else if |rows[0]| > |headers| then TooManyCells(first, |rows[0]|, |headers|)
    else
      match ParseRows(headers, rows[1..], first + 1)
      case Records(rest) => Records([RecordOf(headers, rows[0])] + rest)
      case failure => failure
  }

  /** The records that `loadCSV` returns for an already fetched text. */
  function Parse(text: string): (r: Parsed)
    ensures r.Records? ==> |r.records| == |Lines(text)| - 1
    ensures r.TooManyCells? ==> r.row < |Lines(text)| - 1 && r.cells > r.headers
  {
    var t := Table(text);
    ParseRows(t[0], t[1..], 0)
  }

  /** The `forEach` that fills one record: cell i is stored under trimmed
      header i; a cell without a header (`headers[i]` undefined) stops it. */
  method FillRecord(headers: seq<string>, cells: seq<string>) returns (obj: Option<Record>)
    ensures obj == if |cells| <= |headers| then Some(RecordOf(headers, cells)) else None
  {
    var record: Record := map[];
    var i := 0;
    while i < |cells|
      invariant i <= |cells| && i <= |headers|
      invariant record == Fill(headers, cells, i)
    {
      if i >= |headers| {
        return None;
      }
      var key := Trim(headers[i]);
      if key != ProtoKey {
        record := record[key := Trim(cells[i])];
      }
      i := i + 1;
    }
    return Some(record);
  }

  /** The `rows.map` of `loadCSV`: builds the records one row after the
      other, stopping at the first row with a cell that has no header. */
  method FillRecords(headers: seq<string>, rows: seq<seq<string>>) returns (r: Parsed)
    ensures r == ParseRows(headers, rows, 0)
  {
    var records: seq<Record> := [];
    var k := 0;
    while k < |rows|
      invariant k <= |rows| && |records| == k
      invariant forall j :: 0 <= j < k ==> |rows[j]| <= |headers|
      invariant forall j :: 0 <= j < k ==> records[j] == RecordOf(headers, rows[j])
    {
      var obj := FillRecord(headers, rows[k]);
      if obj.None? {
        ParseRowsFirstFailure(headers, rows, k);
        return TooManyCells(k, |rows[k]|, |headers|);
      }
      records := records + [obj.value];
      k := k + 1;
    }
    ParseRowsAllRecords(headers, rows, records);
    return Records(records);
  }

  /** `loadCSV` after the fetch: splits the text and takes the header row
      off before building the records. */
  method LoadCsv(text: string) returns (r: Parsed)
    ensures r == Parse(text)
  {
    var table := Table(text);
    r := FillRecords(table[0], table[1..]);
  }

  lemma ParseRowsFirstFailure(headers: seq<string>, rows: seq<seq<string>>, k: nat)
    requires k < |rows| && |rows[k]| > |headers|
    requires forall j :: 0 <= j < k ==> |rows[j]| <= |headers|
    ensures ParseRows(headers, rows, 0) == TooManyCells(k, |rows[k]|, |headers|)
  {
    var r := ParseRows(headers, rows, 0);
    assert !r.Records?;
    assert !(k < r.row);
  }

  lemma ParseRowsAllRecords(headers: seq<string>, rows: seq<seq<string>>, records: seq<Record>)
    requires |records| == |rows|
    requires forall j :: 0 <= j < |rows| ==> |rows[j]| <= |headers|
    requires forall j :: 0 <= j < |rows| ==> records[j] == RecordOf(headers, rows[j])
    ensures ParseRows(headers, rows, 0) == Records(records)
  {
  }

  /** The keys of a record are the trimmed headers of the columns the row
      reaches: a short row lacks the keys of its missing columns. */
  lemma {:induction false} FillKeys(headers: seq<string>, cells: seq<string>, n: nat)
    requires n <= |cells| && n <= |headers|
    ensures Fill(headers, cells, n).Keys == HeaderNames(headers, n) - {ProtoKey}
  {
    if n > 0 {
      var key := Trim(headers[n - 1]);
      FillKeys(headers, cells, n - 1);
      HeaderNamesStep(headers, n);
      assert Fill(headers, cells, n).Keys == Fill(headers, cells, n - 1).Keys + ({key} - {ProtoKey});
    }
  }

  /** The trimmed names of the first `n` headers. */
  function HeaderNames(headers: seq<string>, n: nat): set<string>
    requires n <= |headers|
  {
    set j | 0 <= j < n :: Trim(headers[j])
  }

  lemma HeaderNamesStep(headers: seq<string>, n: nat)
    requires 0 < n <= |headers|
    ensures HeaderNames(headers, n) == HeaderNames(headers, n - 1) + {Trim(headers[n - 1])}
  {
    var smaller, all := HeaderNames(headers, n - 1), HeaderNames(headers, n);
    forall x | x in all
      ensures x in smaller + {Trim(headers[n - 1])}
    {
      var j :| 0 <= j < n && Trim(headers[j]) == x;
      if j < n - 1 {
        assert x in smaller;
      }
    }
  }

  /** The rightmost column with a given trimmed header supplies the value. */
  lemma {:induction false} FillValue(headers: seq<string>, cells: seq<string>, n: nat, j: nat)
    requires n <= |cells| && n <= |headers| && j < n
    requires Trim(headers[j]) != ProtoKey
    requires forall j' :: j < j' < n ==> Trim(headers[j']) != Trim(headers[j])
    ensures Trim(headers[j]) in Fill(headers, cells, n)
    ensures Fill(headers, cells, n)[Trim(headers[j])] == Trim(cells[j])
  {
    var key := Trim(headers[j]);
    if j < n - 1 {
      FillValue(headers, cells, n - 1, j);
      FillOther(headers, cells, n, key);
    }
  }

  /** Storing cell n - 1 leaves every other key as it was. */
  lemma FillOther(headers: seq<string>, cells: seq<string>, n: nat, key: string)
    requires 0 < n <= |cells| && n <= |headers| && key != Trim(headers[n - 1])
    ensures key in Fill(headers, cells, n) <==> key in Fill(headers, cells, n - 1)
    ensures key in Fill(headers, cells, n - 1) ==>
              Fill(headers, cells, n)[key] == Fill(headers, cells, n - 1)[key]
  {
  }

  lemma {:induction false} FillTrimmed(headers: seq<string>, cells: seq<string>, n: nat)
    requires n <= |cells| && n <= |headers|
    ensures forall key :: key in Fill(headers, cells, n) ==>
              IsTrimmed(key) && IsTrimmed(Fill(headers, cells, n)[key])
  {
    if n > 0 {
      FillTrimmed(headers, cells, n - 1);
    }
  }

  /** What a record holds: the trimmed headers of the first |cells| columns as
      keys, each with the trimmed cell of the rightmost column bearing that
      name, and no key or value with surrounding whitespace. */
  lemma RecordFields(headers: seq<string>, cells: seq<string>)
    requires |cells| <= |headers|
    ensures RecordOf(headers, cells).Keys == HeaderNames(headers, |cells|) - {ProtoKey}
    ensures forall j :: 0 <= j < |cells| && Trim(headers[j]) != ProtoKey &&
                        (forall j' :: j < j' < |cells| ==> Trim(headers[j']) != Trim(headers[j])) ==>
                        RecordOf(headers, cells)[Trim(headers[j])] == Trim(cells[j])
    ensures forall key :: key in RecordOf(headers, cells) ==>
              IsTrimmed(key) && IsTrimmed(RecordOf(headers, cells)[key])
  {
    FillKeys(headers, cells, |cells|);
    FillTrimmed(headers, cells, |cells|);
    forall j | 0 <= j < |cells| && Trim(headers[j]) != ProtoKey &&
               (forall j' :: j < j' < |cells| ==> Trim(headers[j']) != Trim(headers[j]))
      ensures RecordOf(headers, cells)[Trim(headers[j])] == Trim(cells[j])
    {
      FillValue(headers, cells, |cells|, j);
    }
  }

  /** One record per line after the header, record k from line k + 1; the
      text fails exactly when some data line has more cells than the header
      line, and then the first such line is the one reported. */
  lemma ParseLines(text: string)
    ensures var lines := Lines(text);
            var headers := Cells(lines[0]);
            (Parse(text).Records? <==>
               forall k :: 1 <= k < |lines| ==> |Cells(lines[k])| <= |headers|) &&
            (Parse(text).Records? ==>
               |Parse(text).records| == |lines| - 1 &&
               forall k :: 0 <= k < |lines| - 1 ==>
                 Parse(text).records[k] == RecordOf(headers, Cells(lines[k + 1]))) &&
            (Parse(text).TooManyCells? ==>
               Parse(text).row < |lines| - 1 &&
               Parse(text).cells == |Cells(lines[Parse(text).row + 1])| > |headers| &&
               forall k :: 1 <= k <= Parse(text).row ==> |Cells(lines[k])| <= |headers|)
  {
    var t := Table(text);
    assert forall k :: 1 <= k < |t| ==> t[1..][k - 1] == t[k];
  }

  /** A text of one line (so also the empty text) holds no records. */
  lemma SingleLineHasNoRecords(text: string)
    requires '\n' !in Trim(text)
    ensures Parse(text) == Records([])
  {
    SplitWithoutSeparator(Trim(text), '\n');
  }

  /** Two cell lists that agree once every cell is trimmed. */
  predicate SameCells(a: seq<string>, b: seq<string>) {
    |a| == |b| && forall j :: 0 <= j < |a| ==> Trim(a[j]) == Trim(b[j])
  }

  lemma {:induction false} FillSameCells(h: seq<string>, h': seq<string>, c: seq<string>, c': seq<string>, n: nat)
    requires SameCells(h, h') && SameCells(c, c') && n <= |c| && n <= |h|
    ensures Fill(h, c, n) == Fill(h', c', n)
  {
    if n > 0 {
      FillSameCells(h, h', c, c', n - 1);
      assert Trim(h[n - 1]) == Trim(h'[n - 1]) && Trim(c[n - 1]) == Trim(c'[n - 1]);
    }
  }

  lemma {:induction false} ParseRowsSameCells(h: seq<string>, h': seq<string>,
                                              rows: seq<seq<string>>, rows': seq<seq<string>>, first: nat)
    requires SameCells(h, h') && |rows| == |rows'|
    requires forall k :: 0 <= k < |rows| ==> SameCells(rows[k], rows'[k])
    ensures ParseRows(h, rows, first) == ParseRows(h', rows', first)
    decreases |rows|
  {
    if rows != [] {
      ParseRowsSameCells(h, h', rows[1..], rows'[1..], first + 1);
      if |rows[0]| <= |h| {
        FillSameCells(h, h', rows[0], rows'[0], |rows[0]|);
      }
    }
  }

  lemma SameCellsButLast(c: seq<string>, last: string)
    requires c != [] && Trim(last) == Trim(c[|c| - 1])
    ensures SameCells(c[..|c| - 1] + [last], c)
  {
    var c' := c[..|c| - 1] + [last];
    assert forall j :: 0 <= j < |c| - 1 ==> c'[j] == c[j];
  }

  /** A carriage return at the end of a line only lengthens its last cell by
      whitespace. */
  lemma CellsWithCarriageReturn(line: string)
    ensures SameCells(Cells(line + "\r"), Cells(line))
  {
    assert line + "\r" == line + ['\r'];
    SplitAppend(line, '\r', ';');
    var c := Cells(line);
    assert IsWhitespace('\r');
    TrimIgnoresTrailingWhitespace(c[|c| - 1], '\r');
    SameCellsButLast(c, c[|c| - 1] + ['\r']);
  }

  /** CRLF text parses exactly as the same text with LF line ends: every
      header and cell is trimmed, so the carriage returns disappear. */
  lemma CrlfParsesAsLf(text: string)
    ensures Parse(ToCrlf(text)) == Parse(text)
  {
    TrimOfCrlf(text);
    SplitLinesOfCrlf(Trim(text));
    var t := Table(text);
    var t' := Table(ToCrlf(text));
    var lines := Lines(text);
    assert Lines(ToCrlf(text)) == WithCarriageReturns(lines);
    forall i | 0 <= i < |t|
      ensures SameCells(t'[i], t[i])
    {
      if i < |t| - 1 {
        CellsWithCarriageReturn(lines[i]);
      } else {
        assert t'[i] == t[i];
      }
    }
    ParseRowsSameCells(t'[0], t[0], t'[1..], t[1..], 0);
  }
}
