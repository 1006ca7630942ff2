# Finanz Charts: MACD engine and export naming, in Dafny

This project models two parts of the Finanz Charts WordPress plugin and
proves properties of them.

- **`MacdCalculator`** (`macd_calculator.dfy`) models the plugin's
  technical-indicator engine:
  - `calculate_ema`, the exponential moving average;
  - `calculate_macd`, the MACD indicator: the MACD line, the signal line,
    the histogram and the result record with its error form;
  - the buy branch of `analyze_macd_signals`, the crossover detector.

  Each operation is a method whose loop follows the PHP loop. Each method is
  proved equal to a specification function: `Ema`, `MacdOf` or `BuySignals`.
  `Ema` and `BuySignals` are recursive; `MacdOf` is built from them. The
  indicator's properties are lemmas about those functions:
  lengths, the seed and the recurrence of the EMA, the alignment offsets,
  the unreachable zero fallback of the histogram, and the crossover rule.
- **`ExportManager`** (`export_manager.dfy`) models the string logic of the
  chart exporter:
  - the lower-casing switch of `export_chart`;
  - the normalisation chain of `generate_file_name`: `strtolower`,
    `preg_replace('/[^a-z0-9-]+/', '-', …)`, `trim(…, '-')`, then the
    appended format;
  - the content-type table of `send_as_download`.

  This code is pure, so it is modelled as functions and lemmas.
- **`Wrappers`** (`wrappers.dfy`) holds the `Option` type. It models a PHP
  value that may be unset or `null`.

Prices are Dafny `real`s, so `2 / (period + 1)` and the mean are exact.
Every period must be at least 1 (see "Left out" for why). The defaults of
the PHP signatures are kept as default arguments: period 12 for
`calculate_ema`, periods 12, 26 and 9 for `calculate_macd`, and `'png'` for
`export_chart`.

In three places the model follows what the PHP code does:

- **Slicing (lines 78–80).** Both EMAs are sliced at `N - |ema_short|`, not
  right-aligned as the comment at line 77 suggests. A read past the end of
  the long slice (line 83) raises an "Undefined array key" warning and gives
  PHP `null`, which arithmetic treats as 0. The model writes this as
  `ReadOrZero` and does not model the warning.
- **EMA worked example.** `[1,2,3,4]` with period 2 gives `[1.5, 2.5, 3.5]`;
  the recurrence reads `prices[period - 1 + k]` (line 41). See `EmaExample`
  and `EmaRecurrence`.
- **The detector's input (line 115).** The source passes the whole MACD line
  to `analyze_macd_signals`, together with a shorter signal line and
  histogram. Line 140 then compares `macd_line[i]` with `signal_line[i]`,
  which is the signal value of `macd_line[i + offset]`. Past the end of the
  signal line, PHP warns "Undefined array key" and reads `null`. Event
  indices count from the start of the whole MACD line. `WholeLineSignals`
  models this call as written, with PHP's loose comparison against `null`.
  `MacdOf` runs the detector on the aligned suffix `macdLine[offset..]`
  instead, where every read is in range; see `AlignedSignals` and the second
  finding below.

## Model

| member | source | states |
|---|---|---|
| MacdCalculator.Smoothing | includes/class-macd-calculator.php:33 | the smoothing factor 2/(period+1) lies in (0, 1] |
| MacdCalculator.Ema | includes/class-macd-calculator.php:27-49 | the EMA series is empty exactly when there are fewer prices than the period, and otherwise has N - period + 1 values |
| MacdCalculator.EmaPrefix | includes/class-macd-calculator.php:40-46 | the EMA of a prefix is the matching prefix of the EMA of the whole series |
| MacdCalculator.EmaSeed | includes/class-macd-calculator.php:36-37 | the first EMA value is the arithmetic mean of the first `period` prices |
| MacdCalculator.EmaRecurrence | includes/class-macd-calculator.php:40-45 | for k >= 1, ema[k] = prices[period-1+k]·α + ema[k-1]·(1-α) |
| MacdCalculator.EmaExample | includes/class-macd-calculator.php:33-45 | prices [1,2,3,4] with period 2 give [1.5, 2.5, 3.5] |
| MacdCalculator.CalculateEma | includes/class-macd-calculator.php:27-49 | the loop that seeds with the mean and appends smoothed values returns exactly the EMA series; the period defaults to 12 |
| MacdCalculator.NatToString | includes/class-macd-calculator.php:63 | the decimal rendering of an int is a non-empty string of digits with no leading zero unless it is 0 |
| MacdCalculator.DecimalRoundTrip | includes/class-macd-calculator.php:63 | reading the rendered digits back gives the number |
| MacdCalculator.ErrorMessage | includes/class-macd-calculator.php:63 | the error text is longer than its fixed prefix and suffix; ErrorMessageNamesMinimum states its full shape |
| MacdCalculator.ErrorMessageNamesMinimum | includes/class-macd-calculator.php:63 | the error message is the fixed text around the decimal digits of the minimum, and those digits decode to the minimum |
| MacdCalculator.MacdLineOf | includes/class-macd-calculator.php:78-84 | the MACD line built from two EMA series has at most one entry per short-EMA value; MacdLineEntries and MacdLineLength give its entries and exact length |
| MacdCalculator.HistogramOf | includes/class-macd-calculator.php:92-103 | one histogram entry per signal value; when the signal line is no longer than the MACD line, each entry is macd[i+offset] - signal[i], otherwise the leading entries are 0 |
| MacdCalculator.MacdOf | includes/class-macd-calculator.php:60-117 | the result is the error form exactly when N < ema_long, and the histogram is as long as the signal line and no longer than the MACD line; MacdErrorGate, MacdLineEntries, HistogramAlignment and MacdSignalsAligned characterise the rest |
| MacdCalculator.MacdErrorGate | includes/class-macd-calculator.php:61-114 | the result is the error form exactly when N < ema_long; it then carries the message naming the minimum and three empty lines; otherwise the three periods are echoed |
| MacdCalculator.MacdLineEntries | includes/class-macd-calculator.php:78-84 | with s = N - count(ema_short), the MACD line has max(0, count(ema_short) - s) entries, and entry i is ema_short[s+i] - (ema_long[s+i] or 0 past its end) |
| MacdCalculator.MacdLineLength | includes/class-macd-calculator.php:78-84 | in closed form, the MACD line has max(0, N - 2·ema_short + 2) entries |
| MacdCalculator.HistogramAlignment | includes/class-macd-calculator.php:87-103 | the signal line is the EMA of the MACD line, count(histogram) = count(signal) <= count(macd), and histogram[i] = macd[i+offset] - signal[i], so the zero fallback is never taken |
| MacdCalculator.MacdSignalsAligned | includes/class-macd-calculator.php:115 | an event is in the result's signals exactly when it is the buy-crossover event at its index on the aligned MACD suffix |
| MacdCalculator.MacdDefaults | includes/class-macd-calculator.php:60-67 | with the default periods 12, 26 and 9, fewer than 26 prices give the error naming 26; otherwise the MACD line has N - 22 entries and the signal line and histogram N - 30, none below 31 prices |
| MacdCalculator.CalculateMacd | includes/class-macd-calculator.php:60-117 | the method (length gate, two EMAs, literal slicing, line loop, signal EMA, histogram loop, detector) returns exactly MacdOf; the periods default to 12, 26 and 9 |
| MacdCalculator.ComputeMacdLine | includes/class-macd-calculator.php:71-84 | the two EMAs, the slicing and the line loop give the MACD line of the two EMA series |
| MacdCalculator.SliceAndSubtract | includes/class-macd-calculator.php:78-84 | slicing both EMAs at N - count(ema_short) and subtracting gives the MACD line |
| MacdCalculator.FillMacdLine | includes/class-macd-calculator.php:82-84 | the line loop yields one entry per short-slice value, that value minus the long-slice value or 0 past its end |
| MacdCalculator.ComputeSignalSide | includes/class-macd-calculator.php:87-115 | the signal line is the EMA of the MACD line, the histogram is HistogramOf, and the signals are the crossovers of the aligned suffix |
| MacdCalculator.FillHistogram | includes/class-macd-calculator.php:92-103 | the histogram loop, with its bounds check and zero fallback, yields HistogramOf |
| MacdCalculator.BuyEventsBelow | includes/class-macd-calculator.php:131-149 | the scan up to index n finds at most one event per index 1 .. n-1; BuyEventsBelowExact and BuyEventsBelowOrdered characterise it |
| MacdCalculator.BuySignals | includes/class-macd-calculator.php:131-149 | the detector finds at most one event per index 1 .. count-1; BuySignalsExact, BuySignalsOrdered and NoSignalsWhenAbove characterise it |
| MacdCalculator.BuyEventsBelowExact | includes/class-macd-calculator.php:131-148 | an event is among those found below index n exactly when it is the buy-crossover event at an index in [1, n) |
| MacdCalculator.BuyEventsBelowOrdered | includes/class-macd-calculator.php:131-149 | the events found below n have indices below n, in strictly increasing order |
| MacdCalculator.BuySignalsExact | includes/class-macd-calculator.php:131-148 | an event is emitted exactly when 1 <= i < count(macd), macd[i-1] <= signal[i-1] and macd[i] > signal[i]; it records i, macd[i], signal[i] and histogram[i] |
| MacdCalculator.BuySignalsOrdered | includes/class-macd-calculator.php:131-149 | the events come in strictly increasing index order |
| MacdCalculator.NoSignalsWhenAbove | includes/class-macd-calculator.php:140 | a MACD line strictly above the signal line at every index yields no event |
| MacdCalculator.TieThenCross | includes/class-macd-calculator.php:140-148 | for any series, a tie macd[i-1] = signal[i-1] followed by macd[i] > signal[i] puts the buy event at i among the signals |
| MacdCalculator.TieThenCrossExample | includes/class-macd-calculator.php:140-148 | macd [1, 2] against signal [1, 1] gives exactly one event, a buy at index 1 |
| MacdCalculator.AnalyzeMacdSignals | includes/class-macd-calculator.php:127-149 | the scanning loop returns exactly the buy events of BuySignals |
| MacdCalculator.RawEventsBelow | includes/class-macd-calculator.php:131-149 | the scan as line 115 runs it, on series of any lengths, finds at most one event per index 1 .. n-1 |
| MacdCalculator.WholeLineSignals | includes/class-macd-calculator.php:115-149 | analyze_macd_signals on the whole MACD line finds at most one event per index 1 .. count-1; RawEventsBelowExact characterises it |
| MacdCalculator.RawEventsBelowExact | includes/class-macd-calculator.php:131-148 | an event of the whole-line scan is exactly the event of the PHP buy test at its index, with loose comparison against null past the signal line |
| MacdCalculator.WholeLineInRange | includes/class-macd-calculator.php:131-148 | where the signal line and histogram cover the MACD line, the loose test is the buy test and the raw event carries the same values as BuyEventAt |
| MacdCalculator.PeriodOneExample | includes/class-macd-calculator.php:33-45 | with period 1 the EMA of [2, 1, 2, 3] is the series itself |
| MacdCalculator.PeriodFourExample | includes/class-macd-calculator.php:36-37 | with period 4 the EMA of [2, 1, 2, 3] is the single mean [2] |
| MacdCalculator.PricesExampleLine | includes/class-macd-calculator.php:71-84 | prices [2, 1, 2, 3] with periods 1, 4 and 2 give the MACD line [0, 1, 2, 3] |
| MacdCalculator.SignalLineExample | includes/class-macd-calculator.php:87 | the signal line of the MACD line [0, 1, 2, 3] with period 2 is [0.5, 1.5, 2.5] |
| MacdCalculator.WholeLineExample | includes/class-macd-calculator.php:115-148 | the whole-line scan of that example finds one buy, at index 3, with null signal and histogram |
| MacdCalculator.WholeLineSpuriousBuy | includes/class-macd-calculator.php:115 | prices [2, 1, 2, 3] with periods 1, 4 and 2 give the MACD line [0, 1, 2, 3], on which the aligned detector finds nothing while the whole-line call reports a buy at index 3 |
| MacdCalculator.LongEmaExample | includes/class-macd-calculator.php:33-45 | prices [1,2,3,4] with period 3 give [2, 3] |
| MacdCalculator.MacdLineMisaligned | includes/class-macd-calculator.php:77-84 | as written, prices [1,2,3,4] with periods 2 and 3 give the MACD line [-0.5, 3.5]; the aligned line is [0.5, 0.5] |
| MacdCalculator.AlignedMacdLine | includes/class-macd-calculator.php:77-84 | the right-aligned MACD line has one entry per long-EMA value |
| MacdCalculator.AlignedMacdLineTimeAligned | includes/class-macd-calculator.php:77-84 | entry i of the aligned line is the short EMA minus the long EMA of the same price prefix prices[..ema_long+i] |
| ExportManager.ToLower | includes/class-export-manager.php:14 | strtolower keeps the length, leaves no ASCII capital, changes no other character and maps each capital to its small letter |
| ExportManager.ToLowerOfLower | includes/class-export-manager.php:120 | a string without capitals is unchanged by strtolower |
| ExportManager.ToLowerIdempotent | includes/class-export-manager.php:120 | lower-casing twice equals lower-casing once |
| ExportManager.FormatOf | includes/class-export-manager.php:14-24 | a name matches a case label exactly when it is that label's name |
| ExportManager.FormatNameRoundTrip | includes/class-export-manager.php:15-24 | every format's label is recognised as that format |
| ExportManager.ExportChart | includes/class-export-manager.php:13-28 | invalid_format exactly when the lower-cased name is none of png/csv/pdf/json/xml; not_implemented exactly for png and xml; an exporter exactly for csv, pdf and json, of the matching format |
| ExportManager.ExportChartDefault | includes/class-export-manager.php:13-16 | called without a format, export_chart takes the png stub and returns not_implemented |
| ExportManager.ExportChartIgnoresCase | includes/class-export-manager.php:14 | case variants of one name take the same branch |
| ExportManager.ContentType | includes/class-export-manager.php:131-139 | a known format gets its MIME type, and the octet-stream default is returned exactly for every other string |
| ExportManager.ContentTypeIsCaseSensitive | includes/class-export-manager.php:139 | "CSV" is exported as CSV but its content type is the octet-stream default, because the lookup does not lower-case |
| ExportManager.CollapseFromAllowed | includes/class-export-manager.php:121 | the replacement's output holds only a-z, 0-9 and '-', whatever the scan state |
| ExportManager.CollapseOutputAllowed | includes/class-export-manager.php:121 | the output of preg_replace holds only a-z, 0-9 and '-' |
| ExportManager.CollapseAllowed | includes/class-export-manager.php:121 | a string of allowed characters is left unchanged |
| ExportManager.CollapseFrom | includes/class-export-manager.php:121 | the scan never lengthens the string; CollapseFromAllowed, CollapseAppend and CollapseOfRun characterise it |
| ExportManager.Collapse | includes/class-export-manager.php:121 | preg_replace never lengthens the string; CollapseOutputAllowed, CollapseAllowed and CollapseRun characterise it |
| ExportManager.CollapseAppend | includes/class-export-manager.php:121 | the replacement of x + y is that of x followed by that of y, continued in the state in which x ends |
| ExportManager.EndsInRunFront | includes/class-export-manager.php:121 | the scan state after a string equals the state after its tail, scanned from the state its first character leaves |
| ExportManager.CollapseOfRun | includes/class-export-manager.php:121 | a non-empty run of disallowed characters becomes one '-', or nothing when it continues a run |
| ExportManager.CollapseBeforeAllowed | includes/class-export-manager.php:121 | in front of an allowed character, whether the scan is inside a run makes no difference |
| ExportManager.CollapseRun | includes/class-export-manager.php:121 | a maximal run of disallowed characters between allowed ones becomes exactly one '-' |
| ExportManager.LeadingDashes | includes/class-export-manager.php:122 | trim removes at the front exactly the leading run of dashes: every removed character is '-' and the next one is not |
| ExportManager.TrailingDashes | includes/class-export-manager.php:122 | trim removes at the back exactly the trailing run of dashes: every removed character is '-' and the one before is not |
| ExportManager.TrimDashes | includes/class-export-manager.php:122 | trim never lengthens the string; TrimDashesSlice, TrimDashesEnds and TrimDashesUnchanged characterise it |
| ExportManager.TrimDashesSlice | includes/class-export-manager.php:122 | trim(s, '-') is the slice of s between its outer dash runs, and everything outside the slice is '-' |
| ExportManager.TrimDashesEnds | includes/class-export-manager.php:122 | trim(s, '-') neither starts nor ends with '-' |
| ExportManager.TrimDashesUnchanged | includes/class-export-manager.php:122 | a string with no dash at either end is unchanged by trim |
| ExportManager.NormaliseStem | includes/class-export-manager.php:120-122 | the normalised stem holds only a-z, 0-9 and '-' and has no dash at either end |
| ExportManager.NormaliseStemFixesStems | includes/class-export-manager.php:120-122 | normalising a string that is already a stem leaves it unchanged |
| ExportManager.NormaliseStemIdempotent | includes/class-export-manager.php:120-122 | normalising twice equals normalising once |
| ExportManager.OrDefault | includes/class-export-manager.php:115-116 | a falsy value (unset, null, "" or "0") becomes the default, and any other value is kept |
| ExportManager.FileNameSource | includes/class-export-manager.php:119 | the string handed to sanitize_title ends in "_" followed by the date; FileNameDefaults states its defaults |
| ExportManager.GenerateFileName | includes/class-export-manager.php:114-125 | the file name is the normalised stem of sanitize_title applied to title_symbol_date, then '.', then the format exactly as passed; the stem holds no '.' |
| ExportManager.FileNameParts | includes/class-export-manager.php:124 | stem + "." + format splits back into the stem and the format at the first '.' |
| ExportManager.FileNameDefaults | includes/class-export-manager.php:115-116 | a falsy title or symbol gives the same file name as "chart" or "unknown" |

## Left out

- Floating point: prices, EMAs and differences are exact reals. PHP floats round, and the model does not reproduce IEEE-754 results bit for bit.
- MacdCalculator.SignalEvent: it has no `timestamp` field. `time()` (line 147) is wall-clock metadata.
- The sell branch of `analyze_macd_signals` and its final `return`: the source text ends at line 151, after the buy branch. Only the buy rule is modelled.
- MacdCalculator.MacdOf: the signals are computed on the aligned suffix `macdLine[offset..]`, the corrected call of the second finding. The call as written is `WholeLineSignals`; the "Undefined array key" warnings it raises are not modelled.
- MacdCalculator.AnalyzeMacdSignals: requires the signal line and histogram to be at least as long as the MACD line, so every read is in range. Reads past the end are modelled by `WholeLineSignals` only.
- Periods below 1: every period is required to be at least 1. In PHP, period 0 divides by zero at line 36 and period -1 at line 33 (`period + 1`). Other negative periods run on with a negative smoothing factor, a negative-length `array_slice` and reads of undefined keys.
- The exporters' output: `export_to_csv` (a `php://temp` stream written with `fcsv`) and `export_to_json` (`json_encode`) are not modelled. `export_chart`'s result for csv, pdf and json is only "handed to that exporter". `export_to_pdf` is not defined in the source, so at run time the pdf branch raises PHP's Error "Call to undefined method"; the model stops at the dispatch.
- ExportManager.OrDefault: the title and the symbol are optional strings. Other PHP values they could hold (numbers, arrays) and their truthiness are not modelled.
- `sanitize_title`, `current_time` and `date`: these are WordPress and PHP library calls. `sanitize_title` is a function parameter of GenerateFileName, and the formatted date is an input string. The arguments of line 117 (`'Ymd_His'` and `current_time( 'Timestamp' )`, whose capital T is not one of the values WordPress documents for a timestamp) are not modelled.
- The `header`, `echo` and `exit` calls of `send_as_download`: they send output. Only its content-type lookup is modelled.
- ExportManager.ToLower: only the ASCII capitals A–Z are lowered. This matches `strtolower` from PHP 8.2 on; before that it depended on the locale.
- The rest of the plugin: data sources, API integration, caching, chart rendering, chart management, the plugin loader and the main plugin file. These handle HTTP, storage, templating and hook wiring.

## Findings

| source | as written | input that shows it | evidently intended | confidence | as-written member | corrected member |
|---|---|---|---|---|---|---|
| includes/class-macd-calculator.php:77-84 | both EMAs are sliced at N - count(ema_short), so short and long values from different price indices are subtracted, and past the end of the long slice a missing value (0) is subtracted | prices [1,2,3,4], ema_short 2, ema_long 3 give the MACD line [-0.5, 3.5] | the short EMA right-aligned to the long one, as the comment at line 77 says: the line [0.5, 0.5] | high, not executed | MacdCalculator.MacdLineMisaligned | MacdCalculator.AlignedMacdLineTimeAligned |
| includes/class-macd-calculator.php:115 | the whole MACD line is passed with a shorter signal line and histogram, so line 140 compares macd_line[i] with the signal value of macd_line[i + offset], and past the signal line's end with null (PHP reads `$x <= null` as "$x is 0" and `$x > null` as "$x is not 0") | prices [2, 1, 2, 3] with periods 1, 4 and 2 give the MACD line [0, 1, 2, 3] and the signal line [0.5, 1.5, 2.5]; the MACD line is above it at every aligned index, yet a buy is reported at index 3 with null signal and histogram | the detector on the aligned suffix macd_line[offset..], which finds no event there | high, not executed | MacdCalculator.WholeLineSpuriousBuy | MacdCalculator.MacdSignalsAligned |
