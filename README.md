# Dashboard arithmetic of the painting and scaffolding reports

This project models, in Dafny, the computational core of two dashboard scripts:

- the text-to-records step of `loadCSV` in `integrado/dashboard_integrado.js`:
  - the fetched text is trimmed and cut into lines at `\n`;
  - each line is cut into cells at `;`;
  - the first line is the header row;
  - every later line becomes a record mapping trimmed header *j* to trimmed cell *j*;
- `horaParaDecimal`, which turns a clock time `"H:M"` into decimal hours;
- the indicator arithmetic of `initDashboard`:
  - the painted area and painting hours;
  - the scaffolding length and the scaffolding hours (eight hours per crew member);
  - the hours booked in the SGE export;
  - the two STD ratios (hours per m² and per linear metre);
  - the predicted hours and the realised percentage;
  - the realised/remaining split of the doughnut chart;
- `coloresAleatorias` in `Pintura/scriptpintura.js`, which repeats a colour palette to the length of a data series, and the call that gives a chart one colour per data point.

Modules:

- **Text**: the JavaScript string built-ins the scripts rely on.
  - `trim` uses ECMAScript's whitespace and line-terminator set.
  - `split` has a one-character separator.
  - There is also an LF-to-CRLF rewrite, used to state that Windows line ends make no difference.
- **JsNumber**: JavaScript numbers as `Finite(real) | Infinity(sign) | NaN`.
  - It covers `+ - * /`, with division by zero made explicit.
  - `parseFloat` reads the longest decimal prefix after leading whitespace.
  - `Number(...)` needs the whole trimmed string to be a decimal literal and reads the empty string as 0.
- **Csv**: the parser, both as functions and as the imperative loops of the source.
  - `FillRecord` is the `forEach` that fills `obj`.
  - `FillRecords` is the `rows.map`.
  - `LoadCsv` is the whole step.
  - A row with more cells than headers makes `headers[i].trim()` throw; here that is the outcome `TooManyCells`.
- **Hours**: `horaParaDecimal`.
- **Kpi**: the three `forEach` accumulations of `initDashboard` as loops (`PaintingLoop`, `ScaffoldLoop`, `SgeLoop`).
  - `InitDashboard` is proved equal to the function `Dashboard` of the three parsed files.
  - Lemmas relate the totals to a plain reference sum `SumOf`.
- **Palette**: `coloresAleatorias` as a loop proved against the function `Cycle`.

Some behaviour of the code that the model keeps exactly:

- Column keys are read exactly, as in `row["M²"]` at `integrado/dashboard_integrado.js:37`. There is no fuzzy or accent-insensitive matching.
- Only grand totals are computed; rows are not grouped.
- The divisions at lines 40, 50 and 60 are unguarded, so a zero output gives NaN (no hours either) or an infinity.
- `parseFloat` gives NaN for a cell that does not start with a number, and that NaN spreads through the whole sum.
- Assigning a cell to `obj["__proto__"]` on a plain object goes to the prototype setter, which ignores a string, so no record has that key.

## Model

| member | source | states |
|---|---|---|
| Text.Trim | integrado/dashboard_integrado.js:9 | `trim` leaves no whitespace at either end and never lengthens the text |
| Text.TrimSurroundings | integrado/dashboard_integrado.js:13 | whitespace margins around a trimmed core are removed and the core is kept exactly |
| Text.TrimmedIsFixed | integrado/dashboard_integrado.js:13 | a string without surrounding whitespace is left unchanged, so trimming is idempotent |
| Text.TrimIgnoresTrailingWhitespace | integrado/dashboard_integrado.js:13 | one more trailing whitespace character (such as a carriage return) does not change the trimmed text |
| Text.Split | integrado/dashboard_integrado.js:9 | `split` yields at least one piece, and no piece contains the separator |
| Text.JoinSplit | integrado/dashboard_integrado.js:9 | joining the pieces with the separator gives the original text back |
| Text.SplitJoin | integrado/dashboard_integrado.js:9 | pieces without the separator come back unchanged from splitting their join |
| Text.SplitAppend | integrado/dashboard_integrado.js:9 | appending a non-separator character only extends the last piece |
| Text.SplitLinesOfCrlf | integrado/dashboard_integrado.js:9 | the lines of CRLF text are the LF lines, each but the last ending in a carriage return |
| Text.TrimOfCrlf | integrado/dashboard_integrado.js:9 | trimming commutes with rewriting LF as CRLF |
| JsNumber.Div | integrado/dashboard_integrado.js:40 | `/` is finite for a finite non-zero divisor; over zero it is NaN exactly when the dividend is 0, and otherwise an infinity with the dividend's sign |
| JsNumber.DivIsQuotient | integrado/dashboard_integrado.js:40 | a finite quotient times the divisor is the dividend |
| JsNumber.Add | integrado/dashboard_integrado.js:37 | `+` is NaN exactly when an operand is NaN or the operands are opposite infinities; it is finite exactly when both operands are, and then it is their sum |
| JsNumber.AddCommutes | integrado/dashboard_integrado.js:59 | `+` does not depend on operand order, and the starting 0 of each accumulator is neutral |
| JsNumber.Sub | integrado/dashboard_integrado.js:104 | `-` is NaN exactly when an operand is NaN or the operands are equal infinities; when finite, the result plus the subtrahend is the minuend |
| JsNumber.Mul | integrado/dashboard_integrado.js:48 | `*` is NaN exactly when an operand is NaN or an infinity meets 0, and finite exactly when both operands are |
| JsNumber.MulCommutes | integrado/dashboard_integrado.js:48 | `*` does not depend on operand order |
| JsNumber.ParseFloat | integrado/dashboard_integrado.js:37 | `parseFloat` never yields an infinity here; its value is given by ParseFloatReadsPrefix |
| JsNumber.ToNumber | integrado/dashboard_integrado.js:21 | `Number` of an empty or all-whitespace text is 0 and never an infinity; other values are given by ToNumberReadsLiteral and NumberRejectsTrailingText |
| JsNumber.ParseFloatReadsPrefix | integrado/dashboard_integrado.js:37 | after any leading whitespace, `parseFloat` reads a literal with an optional sign, digits (leading zeros allowed) and an optional point with more digits, as its value, whatever follows the literal |
| JsNumber.NumberRejectsTrailingText | integrado/dashboard_integrado.js:21 | `Number` gives NaN for such a literal followed by text that cannot continue it and does not end in whitespace |
| JsNumber.ToNumberReadsLiteral | integrado/dashboard_integrado.js:21 | `Number` reads such a literal surrounded by whitespace as its value |
| JsNumber.ScanLiteral | integrado/dashboard_integrado.js:37 | the decimal scanner reads a whole literal with its sign and stops where it ends |
| JsNumber.NumberOfDigits | integrado/dashboard_integrado.js:21 | `Number` reads a non-empty run of digits, leading zeros included, as its decimal value |
| Csv.Lines | integrado/dashboard_integrado.js:9 | the trimmed text has at least one line |
| Csv.TableRestoresLines | integrado/dashboard_integrado.js:9 | joining each row of cells with semicolons gives its line back |
| Csv.ParseRows | integrado/dashboard_integrado.js:11-13 | records come out exactly when no row has more cells than headers; then record *k* is built from row *k*; otherwise the first offending row is reported with its cell and header counts |
| Csv.Parse | integrado/dashboard_integrado.js:9-15 | a successful parse has one record per line after the header, and a failure names a data line with more cells than headers |
| Csv.FillRecord | integrado/dashboard_integrado.js:12-14 | the `forEach` stores every cell under its trimmed header, except under `__proto__`, and fails exactly when a cell has no header |
| Csv.FillRecords | integrado/dashboard_integrado.js:11-15 | the `rows.map` loop returns what `ParseRows` specifies, stopping at the first row that fails |
| Csv.LoadCsv | integrado/dashboard_integrado.js:9-15 | the whole text-to-records step equals `Parse` |
| Csv.FillKeys | integrado/dashboard_integrado.js:13 | a record's keys are the trimmed headers of the columns its row reaches, without `__proto__` |
| Csv.FillValue | integrado/dashboard_integrado.js:13 | when a trimmed header other than `__proto__` occurs more than once, the rightmost such column supplies the value |
| Csv.FillTrimmed | integrado/dashboard_integrado.js:13 | no key and no value has surrounding whitespace |
| Csv.RecordFields | integrado/dashboard_integrado.js:12-14 | a record's keys (the trimmed headers reached, less `__proto__`), its values (rightmost column wins) and trimming together |
| Csv.ParseLines | integrado/dashboard_integrado.js:9-11 | one record per line after the header and in line order; parsing fails exactly when some data line has more cells than the header line, and the first such line is reported |
| Csv.SingleLineHasNoRecords | integrado/dashboard_integrado.js:9-11 | a text of one line, the empty text included, gives no records |
| Csv.CellsWithCarriageReturn | integrado/dashboard_integrado.js:13 | a trailing carriage return leaves a line's trimmed cells unchanged |
| Csv.CrlfParsesAsLf | integrado/dashboard_integrado.js:9-13 | CRLF text parses exactly as the same text with LF line ends |
| Hours.HoursToDecimal | integrado/dashboard_integrado.js:19-23 | an absent or empty time is 0 hours, and the result is never an infinity |
| Hours.ClockTimeToHours | integrado/dashboard_integrado.js:21-22 | `"H:M"` with digit strings H and M (leading zeros allowed, as in `"08:05"`) is H + M/60 hours, so sixty times the result is 60·H + M minutes |
| Hours.SecondsAreIgnored | integrado/dashboard_integrado.js:21 | anything after a second colon does not change the result |
| Hours.NoColonIsNaN | integrado/dashboard_integrado.js:21-22 | a non-empty time without a colon has no minutes and gives NaN |
| Kpi.CellValue | integrado/dashboard_integrado.js:37 | a missing or empty cell reads as 0, and no cell reads as an infinity |
| Kpi.ColumnTotal | integrado/dashboard_integrado.js:35-39 | a column total is never an infinity |
| Kpi.ColumnTotalIsSum | integrado/dashboard_integrado.js:36-39 | the accumulated total is the reference sum of the cells when every cell reads as a number, and NaN otherwise |
| Kpi.SumOfPermutation | integrado/dashboard_integrado.js:36-39 | the reference sum is the same for any permutation of the rows |
| Kpi.ColumnTotalOrderIrrelevant | integrado/dashboard_integrado.js:36-39 | a column total does not depend on the order of the rows |
| Kpi.MissingCellIsNeutral | integrado/dashboard_integrado.js:37 | a row whose cell is missing or empty leaves the total unchanged, wherever it stands |
| Kpi.CrewHours | integrado/dashboard_integrado.js:45-49 | the scaffolding-hours total is never an infinity |
| Kpi.CrewHoursScaled | integrado/dashboard_integrado.js:48 | scaffolding hours are 8 × the summed crew count |
| Kpi.Std | integrado/dashboard_integrado.js:40 | an STD figure is a number exactly when both totals are numbers and the output is non-zero; a zero output gives NaN when there are no hours and an infinity otherwise |
| Kpi.StdIsRatio | integrado/dashboard_integrado.js:40 | a finite STD figure times the output is the hours |
| Kpi.RealisedPercent | integrado/dashboard_integrado.js:60 | the percentage is a number exactly when both hour totals are numbers and the predicted hours are non-zero |
| Kpi.RealisedPercentIsRatio | integrado/dashboard_integrado.js:60 | a finite percentage times the predicted hours is 100 × the realised hours |
| Kpi.Remaining | integrado/dashboard_integrado.js:104 | realised plus remaining hours equal the predicted hours; NaN spreads |
| Kpi.Accumulate | integrado/dashboard_integrado.js:35-59 | no total is an infinity, and scaffolding hours are the summed crew count times 8 |
| Kpi.HoursFromTotals | integrado/dashboard_integrado.js:59 | the predicted hours are 8 × the crew-count total plus the painting hours, and the realised hours are the SGE total |
| Kpi.AccumulatedHours | integrado/dashboard_integrado.js:55-59 | when the hour columns read as numbers, the realised hours are the sum of the SGE hours and the predicted hours are the painting hours plus 8 × the summed crew count |
| Kpi.EmptyFilesGiveNaN | integrado/dashboard_integrado.js:35-60 | with three empty files every total is 0, both STD figures and the percentage are NaN, and the remaining hours are 0 |
| Kpi.PaintingLoop | integrado/dashboard_integrado.js:35-39 | the painting loop computes the area and painting-hours totals |
| Kpi.ScaffoldLoop | integrado/dashboard_integrado.js:45-49 | the scaffolding loop computes the length total and the crew hours |
| Kpi.SgeLoop | integrado/dashboard_integrado.js:55-58 | the SGE loop computes the realised hours |
| Kpi.InitDashboard | integrado/dashboard_integrado.js:35-60 | the loops and the arithmetic after them give the indicators of `Dashboard` |
| Kpi.Dashboard | integrado/dashboard_integrado.js:35-60 | each STD figure and the percentage is a number exactly when its operands are numbers and its divisor is non-zero; realised plus remaining hours equal the predicted hours |
| Palette.Cycle | Pintura/scriptpintura.js:66-72 | *n* passes give *n* colours |
| Palette.CycleAt | Pintura/scriptpintura.js:69 | entry *i* is palette entry *i* mod the palette's length |
| Palette.CycleFromPalette | Pintura/scriptpintura.js:69 | every colour of the result comes from the palette |
| Palette.CyclePeriodic | Pintura/scriptpintura.js:69 | the result repeats with the palette's length as period |
| Palette.CyclePrefix | Pintura/scriptpintura.js:67-70 | fewer passes give a prefix of the result of more passes |
| Palette.CyclicColors | Pintura/scriptpintura.js:66-72 | the loop returns `Cycle`: `qtd` colours for a positive count and none otherwise, entry *i* being palette entry *i* mod its length |
| Palette.BackgroundColors | Pintura/scriptpintura.js:50 | a chart gets exactly one colour per data point, cycling through the palette |

## Left out

- Fetching the CSV files (`fetch`, `await`, `response.text()`) is network I/O. The model starts from the fetched text.
- Chart.js construction, the `charts` registry with `destroy()`, DOM writes, event wiring and the PDF export are display code that only consumes the figures.
- `toFixed(2)` and `toFixed(1)`, and IEEE rounding in general: numbers are exact reals. Negative zero is not represented. Every total starts from the literal 0, so it never arises in the accumulations.
- JsNumber.ParseFloat: reads only signed decimal literals (digits, an optional point, more digits). The exponent form (`1e3`), `Infinity` and other literal forms are not modelled. This is why no cell ever reads as an infinity here.
- JsNumber.ToNumber: has the same literal grammar as ParseFloat. Hexadecimal, binary and octal literals and `Infinity` are not modelled.
- JsNumber.Mul: the value of a finite product is left to the definition, not stated in the contract. This keeps nonlinear arithmetic out of every proof that multiplies.
- Palette.CyclicColors: requires a non-empty palette when the count is positive. With an empty palette the source pushes `undefined` entries, which the model has no value for.
- Palette.CyclicColors: takes the count as an integer. A fractional `qtd` is not modelled; `dados.length` is always an integer.
- Palette.BackgroundColors: likewise requires a non-empty palette for a non-empty data series.
- Kpi.Std: its contract says when the figure is a number, NaN or an infinity. The value of a finite figure is stated separately in Kpi.StdIsRatio.
- Kpi.RealisedPercent: likewise, its value is stated in Kpi.RealisedPercentIsRatio.
- `horaParaDecimal` is defined in the source but not called by `initDashboard`, so Hours stands on its own.
