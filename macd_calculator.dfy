/**
 * The technical-indicator engine of the charting plugin: exponential moving
 * averages, the MACD indicator built from two of them, and the detection of
 * buy crossovers between the MACD line and its signal line.
 *
 * Prices are modelled as `real`, so every division is exact; the source works
 * on PHP floats.  The three calculator operations are methods whose loops
 * follow the source, each proved equal to a specification function
 * (`Ema`, `MacdOf`, `BuySignals`); the properties of the indicator are proved
 * about those functions.
 */
module MacdCalculator {
  import opened Wrappers

  // ---------------------------------------------------------------------
  // Arithmetic helpers
  // ---------------------------------------------------------------------

  /** The sum of a sequence, accumulated from the front (array_sum). */
  function Sum(s: seq<real>): real
  {
    if s == [] then 0.0 else Sum(s[..|s| - 1]) + s[|s| - 1]
  }

  /** The arithmetic mean of a non-empty sequence. */
  function Mean(s: seq<real>): real
    requires |s| > 0
  {
    Sum(s) / |s| as real
  }

  /** The smoothing factor 2 / (period + 1) of an EMA. */
  function Smoothing(period: nat): (alpha: real)
    requires period >= 1
    ensures 0.0 < alpha <= 1.0
  {
    2.0 / (period + 1) as real
  }

  /** One smoothing step: the new price weighted by alpha, the previous EMA by 1 - alpha. */
  function EmaStep(price: real, previous: real, alpha: real): real
  {
    price * alpha + previous * (1.0 - alpha)
  }

  // ---------------------------------------------------------------------
  // EMA engine
  // ---------------------------------------------------------------------

  /**
   * The EMA series of `prices` for `period`, defined on prefixes: the series
   * of a prefix of exactly `period` prices is its simple mean, and each further
   * price extends the series by one smoothed value.
   */
  function Ema(prices: seq<real>, period: nat): (r: seq<real>)
    requires period >= 1
    ensures |r| == if |prices| < period then 0 else |prices| - period + 1
    decreases |prices|
  {
    if |prices| < period then []
    else if |prices| == period then [Mean(prices)]
    else
      var previous := Ema(prices[..|prices| - 1], period);
      previous + [EmaStep(prices[|prices| - 1], previous[|previous| - 1], Smoothing(period))]
  }

  /** One more price extends the EMA of a prefix by one smoothed value. */
  lemma EmaExtend(prices: seq<real>, period: nat, i: nat)
    requires 1 <= period <= i < |prices|
    ensures var previous := Ema(prices[..i], period);
            Ema(prices[..i + 1], period) ==
              previous + [EmaStep(prices[i], previous[|previous| - 1], Smoothing(period))]
  {
    assert prices[..i + 1][..i] == prices[..i];
  }

  /** The EMA of a longer series agrees with the EMA of any of its prefixes. */
  lemma {:induction false} EmaPrefix(prices: seq<real>, period: nat, n: nat)
    requires 1 <= period <= n <= |prices|
    ensures Ema(prices[..n], period) == Ema(prices, period)[..n - period + 1]
    decreases |prices| - n
  {
    if n == |prices| {
      assert prices[..n] == prices;
    } else {
      var init := prices[..|prices| - 1];
      EmaPrefix(init, period, n);
      assert init[..n] == prices[..n];
      var whole := Ema(prices, period);
      var shorter := Ema(init, period);
      assert whole == shorter + [EmaStep(prices[|prices| - 1], shorter[|shorter| - 1], Smoothing(period))];
      assert whole[..n - period + 1] == shorter[..n - period + 1];
    }
  }

  /** The first EMA value is the simple mean of the first `period` prices. */
  lemma EmaSeed(prices: seq<real>, period: nat)
    requires 1 <= period <= |prices|
    ensures Ema(prices, period)[0] == Mean(prices[..period])
  {
    EmaPrefix(prices, period, period);
    assert Ema(prices[..period], period) == [Mean(prices[..period])];
  }

  /**
   * Every later EMA value follows the recurrence
   * ema[k] = prices[period - 1 + k] * alpha + ema[k - 1] * (1 - alpha).
   */
  lemma EmaRecurrence(prices: seq<real>, period: nat, k: nat)
    requires period >= 1
    requires 1 <= k < |Ema(prices, period)|
    ensures var ema := Ema(prices, period);
            ema[k] == EmaStep(prices[period - 1 + k], ema[k - 1], Smoothing(period))
  {
    var n := period + k;
    EmaPrefix(prices, period, n);
    EmaPrefix(prices, period, n - 1);
    EmaExtend(prices, period, n - 1);
  }

  /** A worked example: prices [1, 2, 3, 4] with period 2. */
  lemma EmaExample()
    ensures Ema([1.0, 2.0, 3.0, 4.0], 2) == [1.5, 2.5, 3.5]
  {
    var p := [1.0, 2.0, 3.0, 4.0];
    var ema := Ema(p, 2);
    assert p[..2] == [1.0, 2.0];
    assert [1.0, 2.0][..1] == [1.0];
    assert Sum([1.0]) == 1.0 by { assert [1.0][..0] == []; }
    EmaSeed(p, 2);
    assert ema[0] == 1.5;
    EmaRecurrence(p, 2, 1);
    assert ema[1] == 2.5;
    EmaRecurrence(p, 2, 2);
    assert ema[2] == 3.5;
  }

  /** The default period of calculate_ema. */
  const DefaultEmaPeriod: nat := 12

  /**
   * calculate_ema: seed with the simple mean, then append one smoothed value
   * per remaining price, reading the last value appended.
   */
  method CalculateEma(prices: seq<real>, period: nat := DefaultEmaPeriod) returns (emaValues: seq<real>)
    requires period >= 1
    ensures emaValues == Ema(prices, period)
  {
    if |prices| < period {
      return [];
    }
    var smoothingFactor := Smoothing(period);
    var sma := Sum(prices[..period]) / period as real;
    emaValues := [sma];
    var i := period;
    while i < |prices|
      invariant period <= i <= |prices|
      invariant emaValues == Ema(prices[..i], period)
    {
      var currentPrice := prices[i];
      var previousEma := emaValues[|emaValues| - 1];
      var ema := EmaStep(currentPrice, previousEma, smoothingFactor);
      EmaExtend(prices, period, i);
      emaValues := emaValues + [ema];
      i := i + 1;
    }
    assert prices[..|prices|] == prices;
  }

  // ---------------------------------------------------------------------
  // Decimal rendering of the minimum in the error message
  // ---------------------------------------------------------------------

  predicate IsDigit(c: char) { '0' <= c <= '9' }

  /** The decimal text of a natural number, as PHP renders an int in a string. */
  function NatToString(n: nat): (s: string)
    ensures |s| >= 1
    ensures forall i :: 0 <= i < |s| ==> IsDigit(s[i])
    ensures s[0] == '0' ==> n == 0
  {
    var digit := ('0' as int + n % 10) as char;
    if n < 10 then [digit] else NatToString(n / 10) + [digit]
  }

  /** The value of a string of decimal digits. */
  function DecimalValue(s: string): nat
    requires forall i :: 0 <= i < |s| ==> IsDigit(s[i])
  {
    if s == [] then 0
    else DecimalValue(s[..|s| - 1]) * 10 + DigitValue(s[|s| - 1])
  }

  function DigitValue(c: char): nat
    requires IsDigit(c)
  {
    c as int - '0' as int
  }

  /** Reading back the decimal text of `n` gives `n`. */
  lemma {:induction false} DecimalRoundTrip(n: nat)
    ensures DecimalValue(NatToString(n)) == n
  {
    if n >= 10 {
      DecimalRoundTrip(n / 10);
      var s := NatToString(n);
      assert s[..|s| - 1] == NatToString(n / 10);
    }
  }

  const ErrorPrefix: string := "Not enough data to calculate MACD (minimum: "
  const ErrorSuffix: string := " data points)"

  /** The error text of calculate_macd for a too-short price series. */
  function ErrorMessage(minimum: nat): (m: string)
    ensures |m| > |ErrorPrefix| + |ErrorSuffix|
  {
    ErrorPrefix + NatToString(minimum) + ErrorSuffix
  }

  /** The error text consists of the fixed prefix, the minimum in decimal and the fixed suffix. */
  lemma ErrorMessageNamesMinimum(minimum: nat)
    ensures var m := ErrorMessage(minimum);
            |m| > |ErrorPrefix| + |ErrorSuffix| &&
            m[..|ErrorPrefix|] == ErrorPrefix &&
            m[|m| - |ErrorSuffix|..] == ErrorSuffix &&
            (forall i :: |ErrorPrefix| <= i < |m| - |ErrorSuffix| ==> IsDigit(m[i])) &&
            DecimalValue(m[|ErrorPrefix|..|m| - |ErrorSuffix|]) == minimum
  {
    var m := ErrorMessage(minimum);
    var digits := NatToString(minimum);
    assert m[|ErrorPrefix|..|m| - |ErrorSuffix|] == digits;
    DecimalRoundTrip(minimum);
  }

  // ---------------------------------------------------------------------
  // MACD engine
  // ---------------------------------------------------------------------

  /** The three periods echoed under 'parameters'. */
  datatype Periods = Periods(emaShort: nat, emaLong: nat, signal: nat)

  datatype SignalKind = Buy

  /** One detected crossover; the wall-clock timestamp of the source is not modelled. */
  datatype SignalEvent = SignalEvent(kind: SignalKind, index: nat, macd: real, signal: real, histogram: real)

  /** The array returned by calculate_macd: the error form or the full indicator. */
  datatype MacdResult =
    | NotEnoughData(error: string, macdLine: seq<real>, signalLine: seq<real>, histogram: seq<real>)
    | MacdData(macdLine: seq<real>, signalLine: seq<real>, histogram: seq<real>,
               parameters: Periods, signals: seq<SignalEvent>)

  /** array_slice($s, $offset) for a non-negative offset. */
  function SliceFrom(s: seq<real>, offset: nat): seq<real>
  {
    if offset <= |s| then s[offset..] else []
  }

  /** A PHP array read where a missing entry is null, which arithmetic treats as 0. */
  function ReadOrZero(s: seq<real>, i: nat): real
  {
    if i < |s| then s[i] else 0.0
  }

  /**
   * The MACD line as the source builds it: both EMAs are sliced at
   * `count - |emaShort|`, and each entry of the short slice is reduced by the
   * entry of the long slice at the same index, or by 0 past its end.
   */
  function MacdLineOf(emaShort: seq<real>, emaLong: seq<real>, count: nat): (r: seq<real>)
    requires |emaShort| <= count
    ensures |r| <= |emaShort|
  {
    var start := count - |emaShort|;
    var shortOffset := SliceFrom(emaShort, start);
    var longOffset := SliceFrom(emaLong, start);
    seq(|shortOffset|, i requires 0 <= i < |shortOffset| => shortOffset[i] - ReadOrZero(longOffset, i))
  }

  /** Entry by entry, the MACD line is the short slice minus the long slice, 0 past its end. */
  lemma MacdLineOfEntries(emaShort: seq<real>, emaLong: seq<real>, count: nat)
    requires |emaShort| <= count
    ensures var s := count - |emaShort|;
            |MacdLineOf(emaShort, emaLong, count)| == |SliceFrom(emaShort, s)| &&
            forall i :: 0 <= i < |SliceFrom(emaShort, s)| ==>
              MacdLineOf(emaShort, emaLong, count)[i] ==
                SliceFrom(emaShort, s)[i] - (if i < |SliceFrom(emaLong, s)| then SliceFrom(emaLong, s)[i] else 0.0)
  {
  }

  /** One histogram entry, with the source's bounds check and its zero fallback. */
  function HistogramAt(macd: seq<real>, signal: seq<real>, offset: int, i: nat): real
  {
    var macdIndex := i + offset;
    if 0 <= macdIndex < |macd| && i < |signal| then macd[macdIndex] - signal[i] else 0.0
  }

  /**
   * The histogram: one entry per signal value, the MACD value `offset`
   * positions later minus the signal value.
   */
  function HistogramOf(macd: seq<real>, signal: seq<real>): (r: seq<real>)
    ensures |r| == |signal|
    ensures |signal| <= |macd| ==>
              forall i :: 0 <= i < |signal| ==> r[i] == macd[i + (|macd| - |signal|)] - signal[i]
    ensures |signal| > |macd| ==>
              forall i :: 0 <= i < |signal| - |macd| ==> r[i] == 0.0
  {
    var offset := |macd| - |signal|;
    seq(|signal|, i requires 0 <= i < |signal| => HistogramAt(macd, signal, offset, i))
  }

  /**
   * The detector run on the suffix of the MACD line aligned with the signal
   * line.  The source passes the whole MACD line instead (line 115 of the
   * calculator), which makes the detector read past the end of the shorter
   * signal line and histogram.
   */
  function AlignedSignals(macdLine: seq<real>, signalLine: seq<real>, histogram: seq<real>): seq<SignalEvent>
    requires |signalLine| <= |macdLine| && |histogram| == |signalLine|
  {
    BuySignals(macdLine[|macdLine| - |signalLine|..], signalLine, histogram)
  }

  /** The default periods of calculate_macd: 12, 26 and 9. */
  const DefaultPeriods := Periods(12, 26, 9)

  /** The whole result of calculate_macd. */
  function MacdOf(prices: seq<real>, emaShort: nat, emaLong: nat, signal: nat): (r: MacdResult)
    requires emaShort >= 1 && emaLong >= 1 && signal >= 1
    ensures r.NotEnoughData? <==> |prices| < emaLong
    ensures |r.histogram| == |r.signalLine| <= |r.macdLine|
  {
    if |prices| < emaLong then
      NotEnoughData(ErrorMessage(emaLong), [], [], [])
    else
      var macdLine := MacdLineOf(Ema(prices, emaShort), Ema(prices, emaLong), |prices|);
      var signalLine := Ema(macdLine, signal);
      var histogram := HistogramOf(macdLine, signalLine);
      MacdData(macdLine, signalLine, histogram, Periods(emaShort, emaLong, signal),
               AlignedSignals(macdLine, signalLine, histogram))
  }

  /**
   * calculate_macd: the length gate, then the MACD line, then the signal
   * line, the histogram and the detector on top of it.
   */
  method CalculateMacd(prices: seq<real>, emaShort: nat := DefaultPeriods.emaShort,
                       emaLong: nat := DefaultPeriods.emaLong, signal: nat := DefaultPeriods.signal)
    returns (r: MacdResult)
    requires emaShort >= 1 && emaLong >= 1 && signal >= 1
    ensures r == MacdOf(prices, emaShort, emaLong, signal)
  {
    if |prices| < emaLong {
      return NotEnoughData(ErrorMessage(emaLong), [], [], []);
    }
    var macdLine := ComputeMacdLine(prices, emaShort, emaLong);
    var signalLine, histogram, signals := ComputeSignalSide(macdLine, signal);
    r := MacdData(macdLine, signalLine, histogram, Periods(emaShort, emaLong, signal), signals);
    MacdOfComputed(prices, emaShort, emaLong, signal, macdLine);
  }

  /** The first half of calculate_macd: the two EMAs, the literal slicing and the MACD line loop. */
  method ComputeMacdLine(prices: seq<real>, emaShort: nat, emaLong: nat) returns (macdLine: seq<real>)
    requires emaShort >= 1 && emaLong >= 1
    ensures macdLine == MacdLineOf(Ema(prices, emaShort), Ema(prices, emaLong), |prices|)
  {
    var emaShortValues := CalculateEma(prices, emaShort);
    var emaLongValues := CalculateEma(prices, emaLong);
    macdLine := SliceAndSubtract(emaShortValues, emaLongValues, |prices|);
  }

  /** The literal slicing of both EMAs at `count - |emaShortValues|`, then the MACD line loop. */
  method SliceAndSubtract(emaShortValues: seq<real>, emaLongValues: seq<real>, count: nat) returns (macdLine: seq<real>)
    requires |emaShortValues| <= count
    ensures macdLine == MacdLineOf(emaShortValues, emaLongValues, count)
  {
    var startIndex := count - |emaShortValues|;
    var emaShortOffset := SliceFrom(emaShortValues, startIndex);
    var emaLongOffset := SliceFrom(emaLongValues, startIndex);
    macdLine := FillMacdLine(emaShortOffset, emaLongOffset);
    MacdLineOfEntries(emaShortValues, emaLongValues, count);
  }

  /** The second half of calculate_macd: the signal line, the histogram loop and the detector. */
  method ComputeSignalSide(macdLine: seq<real>, signal: nat) returns (signalLine: seq<real>, histogram: seq<real>, signals: seq<SignalEvent>)
    requires signal >= 1
    ensures signalLine == Ema(macdLine, signal)
    ensures histogram == HistogramOf(macdLine, signalLine)
    ensures signals == AlignedSignals(macdLine, signalLine, histogram)
  {
    signalLine := CalculateEma(macdLine, signal);
    histogram := FillHistogram(macdLine, signalLine);
    var offset := |macdLine| - |signalLine|;
    signals := AnalyzeMacdSignals(macdLine[offset..], signalLine, histogram);
  }

  /** MacdOf on a long enough input, written out around its MACD line. */
  lemma MacdOfComputed(prices: seq<real>, emaShort: nat, emaLong: nat, signal: nat, macdLine: seq<real>)
    requires emaShort >= 1 && emaLong >= 1 && signal >= 1
    requires |prices| >= emaLong
    requires macdLine == MacdLineOf(Ema(prices, emaShort), Ema(prices, emaLong), |prices|)
    ensures MacdOf(prices, emaShort, emaLong, signal) ==
              MacdData(macdLine, Ema(macdLine, signal), HistogramOf(macdLine, Ema(macdLine, signal)),
                       Periods(emaShort, emaLong, signal),
                       AlignedSignals(macdLine, Ema(macdLine, signal), HistogramOf(macdLine, Ema(macdLine, signal))))
  {
  }

  /**
   * The loop of calculate_macd that builds the MACD line from the two slices,
   * reading a missing entry of the long slice as 0.
   */
  method FillMacdLine(emaShortOffset: seq<real>, emaLongOffset: seq<real>) returns (macdLine: seq<real>)
    ensures |macdLine| == |emaShortOffset|
    ensures forall k :: 0 <= k < |macdLine| ==>
              macdLine[k] == emaShortOffset[k] - (if k < |emaLongOffset| then emaLongOffset[k] else 0.0)
  {
    macdLine := [];
    var i := 0;
    while i < |emaShortOffset|
      invariant 0 <= i <= |emaShortOffset| && |macdLine| == i
      invariant forall k :: 0 <= k < i ==> macdLine[k] == emaShortOffset[k] - ReadOrZero(emaLongOffset, k)
    {
      macdLine := macdLine + [emaShortOffset[i] - ReadOrZero(emaLongOffset, i)];
      i := i + 1;
    }
  }

  /**
   * The loop of calculate_macd that builds the histogram, with its bounds
   * check and zero fallback.
   */
  method FillHistogram(macdLine: seq<real>, signalLine: seq<real>) returns (histogram: seq<real>)
    ensures histogram == HistogramOf(macdLine, signalLine)
  {
    histogram := [];
    var count := |macdLine|;
    var signalCount := |signalLine|;
    var offset := count - signalCount;
    var i := 0;
    while i < signalCount
      invariant 0 <= i <= signalCount && |histogram| == i
      invariant forall k :: 0 <= k < i ==> histogram[k] == HistogramAt(macdLine, signalLine, offset, k)
    {
      var macdIndex := i + offset;
      if 0 <= macdIndex < |macdLine| && i < |signalLine| {
        histogram := histogram + [macdLine[macdIndex] - signalLine[i]];
      } else {
        histogram := histogram + [0.0];
      }
      i := i + 1;
    }
  }

  /** Too short an input gives exactly the error form; otherwise the periods are echoed. */
  lemma MacdErrorGate(prices: seq<real>, emaShort: nat, emaLong: nat, signal: nat)
    requires emaShort >= 1 && emaLong >= 1 && signal >= 1
    ensures var r := MacdOf(prices, emaShort, emaLong, signal);
            (r.NotEnoughData? <==> |prices| < emaLong) &&
            (r.NotEnoughData? ==>
               r.error == ErrorMessage(emaLong) &&
               r.macdLine == [] && r.signalLine == [] && r.histogram == []) &&
            (r.MacdData? ==> r.parameters == Periods(emaShort, emaLong, signal))
  {
  }

  /**
   * The shape of the MACD line: with `s = N - |emaShort|`, it has
   * max(0, |emaShort| - s) entries, and entry i is emaShort[s + i] minus
   * emaLong[s + i], or minus 0 once s + i runs past the long EMA.
   */
  lemma MacdLineEntries(prices: seq<real>, emaShort: nat, emaLong: nat, signal: nat)
    requires emaShort >= 1 && emaLong >= 1 && signal >= 1
    requires |prices| >= emaLong
    ensures var r := MacdOf(prices, emaShort, emaLong, signal);
            var short := Ema(prices, emaShort);
            var long := Ema(prices, emaLong);
            var s := |prices| - |short|;
            |r.macdLine| == (if |short| > s then |short| - s else 0) &&
            forall i :: 0 <= i < |r.macdLine| ==>
              r.macdLine[i] == short[s + i] - (if s + i < |long| then long[s + i] else 0.0)
  {
    var short := Ema(prices, emaShort);
    var long := Ema(prices, emaLong);
    MacdOfLine(prices, emaShort, emaLong, signal);
    MacdLineOfShape(short, long, |prices|);
  }

  /** A long enough input gives the MACD line of its two EMA series. */
  lemma MacdOfLine(prices: seq<real>, emaShort: nat, emaLong: nat, signal: nat)
    requires emaShort >= 1 && emaLong >= 1 && signal >= 1
    requires |prices| >= emaLong
    ensures MacdOf(prices, emaShort, emaLong, signal).macdLine ==
              MacdLineOf(Ema(prices, emaShort), Ema(prices, emaLong), |prices|)
  {
  }

  /** MacdLineOfEntries with the slices written as offsets into the two EMA series. */
  lemma MacdLineOfShape(emaShort: seq<real>, emaLong: seq<real>, count: nat)
    requires |emaShort| <= count
    ensures var s := count - |emaShort|;
            var r := MacdLineOf(emaShort, emaLong, count);
            |r| == (if |emaShort| > s then |emaShort| - s else 0) &&
            forall i :: 0 <= i < |r| ==>
              r[i] == emaShort[s + i] - (if s + i < |emaLong| then emaLong[s + i] else 0.0)
  {
    MacdLineOfEntries(emaShort, emaLong, count);
  }

  /**
   * In closed form, when the short period fits the input: the slice starts
   * at index emaShort - 1 and the line has max(0, N - 2 * emaShort + 2) entries.
   */
  lemma MacdLineLength(prices: seq<real>, emaShort: nat, emaLong: nat, signal: nat)
    requires emaShort >= 1 && emaLong >= 1 && signal >= 1
    requires emaShort <= |prices| && emaLong <= |prices|
    ensures var r := MacdOf(prices, emaShort, emaLong, signal);
            |r.macdLine| == if |prices| + 2 >= 2 * emaShort then |prices| + 2 - 2 * emaShort else 0
  {
    MacdLineEntries(prices, emaShort, emaLong, signal);
  }

  /**
   * The signal line is the EMA of the MACD line, the histogram is as long as
   * the signal line and never longer than the MACD line, and each histogram
   * entry is the MACD value `offset` steps later minus the signal value: the
   * zero fallback is never taken.
   */
  lemma HistogramAlignment(prices: seq<real>, emaShort: nat, emaLong: nat, signal: nat)
    requires emaShort >= 1 && emaLong >= 1 && signal >= 1
    requires |prices| >= emaLong
    ensures var r := MacdOf(prices, emaShort, emaLong, signal);
            var offset := |r.macdLine| - |r.signalLine|;
            r.signalLine == Ema(r.macdLine, signal) &&
            |r.histogram| == |r.signalLine| <= |r.macdLine| &&
            |r.signalLine| == (if |r.macdLine| < signal then 0 else |r.macdLine| - signal + 1) &&
            forall i :: 0 <= i < |r.histogram| ==>
              r.histogram[i] == r.macdLine[i + offset] - r.signalLine[i]
  {
  }

  /** The signal events of the result are the buy crossovers of the aligned series. */
  lemma MacdSignalsAligned(prices: seq<real>, emaShort: nat, emaLong: nat, signal: nat, e: SignalEvent)
    requires emaShort >= 1 && emaLong >= 1 && signal >= 1
    requires |prices| >= emaLong
    ensures var r := MacdOf(prices, emaShort, emaLong, signal);
            var offset := |r.macdLine| - |r.signalLine|;
            e in r.signals <==>
              1 <= e.index < |r.signalLine| &&
              IsBuyCross(r.macdLine[offset..], r.signalLine, e.index) &&
              e == BuyEventAt(r.macdLine[offset..], r.signalLine, r.histogram, e.index)
  {
    var r := MacdOf(prices, emaShort, emaLong, signal);
    var offset := |r.macdLine| - |r.signalLine|;
    BuySignalsExact(r.macdLine[offset..], r.signalLine, r.histogram, e);
  }

  /**
   * With the default periods 12, 26 and 9: fewer than 26 prices give the
   * error naming 26; otherwise the MACD line has N - 22 entries, and the
   * signal line and histogram have N - 30 entries, none below 31 prices.
   */
  lemma MacdDefaults(prices: seq<real>)
    ensures var d := DefaultPeriods;
            var r := MacdOf(prices, d.emaShort, d.emaLong, d.signal);
            (r.NotEnoughData? <==> |prices| < 26) &&
            (r.NotEnoughData? ==> r.error == ErrorPrefix + "26" + ErrorSuffix) &&
            (r.MacdData? ==>
               r.parameters == d &&
               |r.macdLine| == |prices| - 22 &&
               |r.histogram| == |r.signalLine| == (if |prices| < 31 then 0 else |prices| - 30))
  {
    var d := DefaultPeriods;
    MacdErrorGate(prices, d.emaShort, d.emaLong, d.signal);
    assert NatToString(26) == "26";
    if |prices| >= 26 {
      MacdLineLength(prices, d.emaShort, d.emaLong, d.signal);
      HistogramAlignment(prices, d.emaShort, d.emaLong, d.signal);
    }
  }

  // ---------------------------------------------------------------------
  // Crossover detection (the buy branch; the source text ends after it)
  // ---------------------------------------------------------------------

  /** MACD crosses from at-or-below the signal line to strictly above it at index i. */
  predicate IsBuyCross(macd: seq<real>, signal: seq<real>, i: nat)
    requires 1 <= i < |macd| <= |signal|
  {
    macd[i - 1] <= signal[i - 1] && macd[i] > signal[i]
  }

  /** The event recorded for a buy crossover at index i. */
  function BuyEventAt(macd: seq<real>, signal: seq<real>, histogram: seq<real>, i: nat): SignalEvent
    requires i < |macd| <= |signal| && |macd| <= |histogram|
  {
    SignalEvent(Buy, i, macd[i], signal[i], histogram[i])
  }

  /** The buy events at indices 1 .. n - 1, in index order. */
  function BuyEventsBelow(macd: seq<real>, signal: seq<real>, histogram: seq<real>, n: nat): (r: seq<SignalEvent>)
    requires n <= |macd| <= |signal| && |macd| <= |histogram|
    ensures |r| <= if n == 0 then 0 else n - 1
  {
    if n <= 1 then []
    else
      BuyEventsBelow(macd, signal, histogram, n - 1) +
      (if IsBuyCross(macd, signal, n - 1) then [BuyEventAt(macd, signal, histogram, n - 1)] else [])
  }

  /** The buy events over the whole series. */
  function BuySignals(macd: seq<real>, signal: seq<real>, histogram: seq<real>): (r: seq<SignalEvent>)
    requires |macd| <= |signal| && |macd| <= |histogram|
    ensures |r| <= if |macd| == 0 then 0 else |macd| - 1
  {
    BuyEventsBelow(macd, signal, histogram, |macd|)
  }

  /** An event is listed exactly when it is the event of a buy crossover below n. */
  lemma {:induction false} BuyEventsBelowExact(macd: seq<real>, signal: seq<real>, histogram: seq<real>,
                                               n: nat, e: SignalEvent)
    requires n <= |macd| <= |signal| && |macd| <= |histogram|
    ensures e in BuyEventsBelow(macd, signal, histogram, n) <==>
              1 <= e.index < n && IsBuyCross(macd, signal, e.index) &&
              e == BuyEventAt(macd, signal, histogram, e.index)
  {
    if n > 1 {
      BuyEventsBelowExact(macd, signal, histogram, n - 1, e);
      var earlier := BuyEventsBelow(macd, signal, histogram, n - 1);
      var last := if IsBuyCross(macd, signal, n - 1) then [BuyEventAt(macd, signal, histogram, n - 1)] else [];
      assert BuyEventsBelow(macd, signal, histogram, n) == earlier + last;
      assert e in earlier + last <==> e in earlier || e in last;
    }
  }

  /** Events come in strictly increasing index order, each below n. */
  lemma {:induction false} BuyEventsBelowOrdered(macd: seq<real>, signal: seq<real>, histogram: seq<real>, n: nat)
    requires n <= |macd| <= |signal| && |macd| <= |histogram|
    ensures forall j :: 0 <= j < |BuyEventsBelow(macd, signal, histogram, n)| ==>
              BuyEventsBelow(macd, signal, histogram, n)[j].index < n
    ensures forall j, k :: 0 <= j < k < |BuyEventsBelow(macd, signal, histogram, n)| ==>
              BuyEventsBelow(macd, signal, histogram, n)[j].index < BuyEventsBelow(macd, signal, histogram, n)[k].index
  {
    if n > 1 {
      BuyEventsBelowOrdered(macd, signal, histogram, n - 1);
      var earlier := BuyEventsBelow(macd, signal, histogram, n - 1);
      var r := BuyEventsBelow(macd, signal, histogram, n);
      var last := if IsBuyCross(macd, signal, n - 1) then [BuyEventAt(macd, signal, histogram, n - 1)] else [];
      assert r == earlier + last;
      assert forall j :: 0 <= j < |earlier| ==> r[j] == earlier[j] && earlier[j].index < n - 1;
      assert forall j :: |earlier| <= j < |r| ==> r[j].index == n - 1;
    }
  }

  /** analyze_macd_signals emits a buy event exactly at the buy crossovers. */
  lemma BuySignalsExact(macd: seq<real>, signal: seq<real>, histogram: seq<real>, e: SignalEvent)
    requires |macd| <= |signal| && |macd| <= |histogram|
    ensures e in BuySignals(macd, signal, histogram) <==>
              1 <= e.index < |macd| && IsBuyCross(macd, signal, e.index) &&
              e == BuyEventAt(macd, signal, histogram, e.index)
  {
    BuyEventsBelowExact(macd, signal, histogram, |macd|, e);
  }

  /** The events of analyze_macd_signals are in strictly increasing index order. */
  lemma BuySignalsOrdered(macd: seq<real>, signal: seq<real>, histogram: seq<real>)
    requires |macd| <= |signal| && |macd| <= |histogram|
    ensures var r := BuySignals(macd, signal, histogram);
            forall j, k :: 0 <= j < k < |r| ==> r[j].index < r[k].index
  {
    BuyEventsBelowOrdered(macd, signal, histogram, |macd|);
  }

  /** A MACD line strictly above the signal line everywhere yields no event. */
  lemma {:induction false} NoSignalsWhenAbove(macd: seq<real>, signal: seq<real>, histogram: seq<real>)
    requires |macd| <= |signal| && |macd| <= |histogram|
    requires forall i :: 0 <= i < |macd| ==> macd[i] > signal[i]
    ensures BuySignals(macd, signal, histogram) == []
  {
    var r := BuySignals(macd, signal, histogram);
    if r != [] {
      BuySignalsExact(macd, signal, histogram, r[0]);
      assert false;
    }
  }

  /** A tie at i - 1 followed by strictly above at i is a buy crossover, whose event is emitted. */
  lemma TieThenCross(macd: seq<real>, signal: seq<real>, histogram: seq<real>, i: nat)
    requires |macd| <= |signal| && |macd| <= |histogram|
    requires 1 <= i < |macd|
    requires macd[i - 1] == signal[i - 1] && macd[i] > signal[i]
    ensures BuyEventAt(macd, signal, histogram, i) in BuySignals(macd, signal, histogram)
  {
    BuySignalsExact(macd, signal, histogram, BuyEventAt(macd, signal, histogram, i));
  }

  /** The smallest instance: a tie at index 0, then above at index 1, gives exactly one event. */
  lemma TieThenCrossExample()
    ensures BuySignals([1.0, 2.0], [1.0, 1.0], [0.0, 1.0]) == [SignalEvent(Buy, 1, 2.0, 1.0, 1.0)]
  {
    assert BuyEventsBelow([1.0, 2.0], [1.0, 1.0], [0.0, 1.0], 1) == [];
    assert IsBuyCross([1.0, 2.0], [1.0, 1.0], 1);
  }

  /**
   * analyze_macd_signals (buy branch): scan indices 1 .. count - 1 and append
   * an event at each buy crossover.
   */
  method AnalyzeMacdSignals(macdLine: seq<real>, signalLine: seq<real>, histogram: seq<real>)
    returns (signals: seq<SignalEvent>)
    requires |signalLine| >= |macdLine| && |histogram| >= |macdLine|
    ensures signals == BuySignals(macdLine, signalLine, histogram)
  {
    signals := [];
    var count := |macdLine|;
    var i := 1;
    while i < count
      invariant 1 <= i && (i <= count || count <= 1)
      invariant signals == BuyEventsBelow(macdLine, signalLine, histogram, if i <= count then i else count)
    {
      var currentMacd := macdLine[i];
      var prevMacd := macdLine[i - 1];
      var currentSignal := signalLine[i];
      var prevSignal := signalLine[i - 1];
      var currentHist := histogram[i];
      if prevMacd <= prevSignal && currentMacd > currentSignal {
        signals := signals + [SignalEvent(Buy, i, currentMacd, currentSignal, currentHist)];
      }
      i := i + 1;
    }
  }

  // ---------------------------------------------------------------------
  // The detector as line 115 calls it: on the whole MACD line
  // ---------------------------------------------------------------------

  /** `$s[$i]`: the entry, or PHP null past the end (with an "Undefined array key" warning). */
  function ReadOrNull(s: seq<real>, i: nat): (v: Option<real>)
    ensures v.Some? <==> i < |s|
    ensures v.Some? ==> v.value == s[i]
  {
    if i < |s| then Some(s[i]) else None
  }

  /**
   * PHP `$a <= $b` for a float and a float or null.  Against null both sides
   * are compared as booleans, so it holds exactly when `$a` is zero.
   */
  predicate LooseAtMost(a: real, b: Option<real>)
  {
    match b
    case None => a == 0.0
    case Some(v) => a <= v
  }

  /** PHP `$a > $b` for a float and a float or null: against null, `$a` is non-zero. */
  predicate LooseAbove(a: real, b: Option<real>)
  {
    match b
    case None => a != 0.0
    case Some(v) => a > v
  }

  /** An event as the source records it, where the signal and histogram values may be null. */
  datatype RawSignalEvent = RawSignalEvent(kind: SignalKind, index: nat, macd: real,
                                           signal: Option<real>, histogram: Option<real>)

  /** The buy test of line 140 with every array read as PHP performs it. */
  predicate IsLooseBuyCross(macd: seq<real>, signal: seq<real>, i: nat)
    requires 1 <= i < |macd|
  {
    LooseAtMost(macd[i - 1], ReadOrNull(signal, i - 1)) && LooseAbove(macd[i], ReadOrNull(signal, i))
  }

  function RawEventAt(macd: seq<real>, signal: seq<real>, histogram: seq<real>, i: nat): RawSignalEvent
    requires i < |macd|
  {
    RawSignalEvent(Buy, i, macd[i], ReadOrNull(signal, i), ReadOrNull(histogram, i))
  }

  /** The events the source's scan finds at indices 1 .. n - 1, with no length assumption. */
  function RawEventsBelow(macd: seq<real>, signal: seq<real>, histogram: seq<real>, n: nat): (r: seq<RawSignalEvent>)
    requires n <= |macd|
    ensures |r| <= if n == 0 then 0 else n - 1
  {
    if n <= 1 then []
    else
      RawEventsBelow(macd, signal, histogram, n - 1) +
      (if IsLooseBuyCross(macd, signal, n - 1) then [RawEventAt(macd, signal, histogram, n - 1)] else [])
  }

  /** analyze_macd_signals exactly as line 115 calls it, on series of any lengths. */
  function WholeLineSignals(macd: seq<real>, signal: seq<real>, histogram: seq<real>): (r: seq<RawSignalEvent>)
    ensures |r| <= if |macd| == 0 then 0 else |macd| - 1
  {
    RawEventsBelow(macd, signal, histogram, |macd|)
  }

  /** An event of the whole-line scan is the loose buy test at its index, and nothing else. */
  lemma {:induction false} RawEventsBelowExact(macd: seq<real>, signal: seq<real>, histogram: seq<real>,
                                               n: nat, e: RawSignalEvent)
    requires n <= |macd|
    ensures e in RawEventsBelow(macd, signal, histogram, n) <==>
              1 <= e.index < n && IsLooseBuyCross(macd, signal, e.index) &&
              e == RawEventAt(macd, signal, histogram, e.index)
  {
    if n > 1 {
      RawEventsBelowExact(macd, signal, histogram, n - 1, e);
      var earlier := RawEventsBelow(macd, signal, histogram, n - 1);
      var last := if IsLooseBuyCross(macd, signal, n - 1) then [RawEventAt(macd, signal, histogram, n - 1)] else [];
      assert RawEventsBelow(macd, signal, histogram, n) == earlier + last;
      assert e in earlier + last <==> e in earlier || e in last;
    }
  }

  /**
   * Where every read is in range the loose test is the buy test, so the two
   * detectors agree index by index.
   */
  lemma WholeLineInRange(macd: seq<real>, signal: seq<real>, histogram: seq<real>, i: nat)
    requires |macd| <= |signal| && |macd| <= |histogram|
    requires 1 <= i < |macd|
    ensures IsLooseBuyCross(macd, signal, i) <==> IsBuyCross(macd, signal, i)
    ensures RawEventAt(macd, signal, histogram, i) ==
              RawSignalEvent(Buy, i, macd[i], Some(signal[i]), Some(histogram[i]))
  {
  }

  /**
   * Prices [2, 1, 2, 3] with periods 1, 4 and 2 give the MACD line
   * [0, 1, 2, 3].  With signal period 2, the MACD line is
   * above its signal line at every aligned index, so the aligned detector
   * finds nothing.  The whole-line scan compares macd[i] with the signal
   * value of macd[i + 1], and at index 3 compares 2 <= 2.5 and 3 > null, so it
   * reports a buy whose signal and histogram are null.
   */
  lemma WholeLineSpuriousBuy()
    ensures MacdOf([2.0, 1.0, 2.0, 3.0], 1, 4, 2).macdLine == [0.0, 1.0, 2.0, 3.0]
    ensures Ema([0.0, 1.0, 2.0, 3.0], 2) == [0.5, 1.5, 2.5]
    ensures HistogramOf([0.0, 1.0, 2.0, 3.0], [0.5, 1.5, 2.5]) == [0.5, 0.5, 0.5]
    ensures AlignedSignals([0.0, 1.0, 2.0, 3.0], [0.5, 1.5, 2.5], [0.5, 0.5, 0.5]) == []
    ensures WholeLineSignals([0.0, 1.0, 2.0, 3.0], [0.5, 1.5, 2.5], [0.5, 0.5, 0.5]) ==
              [RawSignalEvent(Buy, 3, 3.0, None, None)]
  {
    var m := [0.0, 1.0, 2.0, 3.0];
    var sig := [0.5, 1.5, 2.5];
    var h := [0.5, 0.5, 0.5];
    PricesExampleLine();
    SignalLineExample();
    assert m[1..] == [1.0, 2.0, 3.0];
    NoSignalsWhenAbove([1.0, 2.0, 3.0], sig, h);
    WholeLineExample();
  }

  /** Prices [2, 1, 2, 3] with periods 1 and 4 give the MACD line [0, 1, 2, 3]. */
  lemma PricesExampleLine()
    ensures MacdOf([2.0, 1.0, 2.0, 3.0], 1, 4, 2).macdLine == [0.0, 1.0, 2.0, 3.0]
  {
    var p := [2.0, 1.0, 2.0, 3.0];
    PeriodOneExample();
    PeriodFourExample();
    MacdOfLine(p, 1, 4, 2);
    assert MacdLineOf(p, [2.0], 4) == [0.0, 1.0, 2.0, 3.0] by {
      assert SliceFrom(p, 0) == p;
      assert SliceFrom([2.0], 0) == [2.0];
    }
  }

  /** With period 1 the smoothing factor is 1, so the EMA is the price series itself. */
  lemma PeriodOneExample()
    ensures Ema([2.0, 1.0, 2.0, 3.0], 1) == [2.0, 1.0, 2.0, 3.0]
  {
    var p := [2.0, 1.0, 2.0, 3.0];
    var ema := Ema(p, 1);
    assert Sum(p[..1]) == 2.0 by {
      assert p[..1] == [2.0];
      assert [2.0][..0] == [];
    }
    EmaSeed(p, 1);
    assert Smoothing(1) == 1.0;
    EmaRecurrence(p, 1, 1);
    EmaRecurrence(p, 1, 2);
    EmaRecurrence(p, 1, 3);
  }

  /** Four prices with period 4 give the single value of their mean. */
  lemma PeriodFourExample()
    ensures Ema([2.0, 1.0, 2.0, 3.0], 4) == [2.0]
  {
    var p := [2.0, 1.0, 2.0, 3.0];
    assert Sum(p[..4]) == 8.0 by {
      assert p[..4] == p;
      assert p[..3] == [2.0, 1.0, 2.0];
      assert [2.0, 1.0, 2.0][..2] == [2.0, 1.0];
      assert [2.0, 1.0][..1] == [2.0];
      assert [2.0][..0] == [];
    }
    EmaSeed(p, 4);
  }

  /** The signal line of the example: the MACD line [0, 1, 2, 3] with period 2. */
  lemma SignalLineExample()
    ensures Ema([0.0, 1.0, 2.0, 3.0], 2) == [0.5, 1.5, 2.5]
  {
    var m := [0.0, 1.0, 2.0, 3.0];
    var ema := Ema(m, 2);
    assert m[..2] == [0.0, 1.0];
    assert Sum([0.0, 1.0]) == 1.0 by {
      assert [0.0, 1.0][..1] == [0.0];
      assert [0.0][..0] == [];
    }
    EmaSeed(m, 2);
    EmaRecurrence(m, 2, 1);
    EmaRecurrence(m, 2, 2);
  }

  /** The whole-line scan of the example finds one buy, at index 3, with null signal and histogram. */
  lemma WholeLineExample()
    ensures WholeLineSignals([0.0, 1.0, 2.0, 3.0], [0.5, 1.5, 2.5], [0.5, 0.5, 0.5]) ==
              [RawSignalEvent(Buy, 3, 3.0, None, None)]
  {
    var m := [0.0, 1.0, 2.0, 3.0];
    var sig := [0.5, 1.5, 2.5];
    var h := [0.5, 0.5, 0.5];
    assert !IsLooseBuyCross(m, sig, 1) && !IsLooseBuyCross(m, sig, 2);
    assert RawEventsBelow(m, sig, h, 3) == [];
    assert IsLooseBuyCross(m, sig, 3);
  }

  // ---------------------------------------------------------------------
  // The misaligned MACD line, and the right-aligned line it evidently means
  // ---------------------------------------------------------------------

  /** The long EMA of the example: prices [1, 2, 3, 4] with period 3. */
  lemma LongEmaExample()
    ensures Ema([1.0, 2.0, 3.0, 4.0], 3) == [2.0, 3.0]
  {
    var p := [1.0, 2.0, 3.0, 4.0];
    var long := Ema(p, 3);
    assert p[..3] == [1.0, 2.0, 3.0];
    assert Sum([1.0, 2.0, 3.0]) == 6.0 by {
      assert [1.0, 2.0, 3.0][..2] == [1.0, 2.0];
      assert [1.0, 2.0][..1] == [1.0];
      assert [1.0][..0] == [];
    }
    EmaSeed(p, 3);
    assert long[0] == 2.0;
    EmaRecurrence(p, 3, 1);
    assert long[1] == 3.0;
  }

  /** As written, prices [1, 2, 3, 4] with periods 2 and 3 give the line [-0.5, 3.5]. */
  lemma MacdLineMisaligned()
    ensures MacdOf([1.0, 2.0, 3.0, 4.0], 2, 3, 1).macdLine == [-0.5, 3.5]
    ensures AlignedMacdLine([1.0, 2.0, 3.0, 4.0], 2, 3) == [0.5, 0.5]
  {
    EmaExample();
    LongEmaExample();
    assert MacdLineOf([1.5, 2.5, 3.5], [2.0, 3.0], 4) == [-0.5, 3.5] by {
      assert SliceFrom([1.5, 2.5, 3.5], 1) == [2.5, 3.5];
      assert SliceFrom([2.0, 3.0], 1) == [3.0];
    }
  }

  /**
   * The MACD line with the short EMA right-aligned to the long one: entry i is
   * the difference of the two EMAs taken at the same price index.
   */
  function AlignedMacdLine(prices: seq<real>, emaShort: nat, emaLong: nat): (r: seq<real>)
    requires 1 <= emaShort <= emaLong <= |prices|
    ensures |r| == |Ema(prices, emaLong)|
  {
    var short := Ema(prices, emaShort);
    var long := Ema(prices, emaLong);
    var trim := |short| - |long|;
    seq(|long|, i requires 0 <= i < |long| => short[trim + i] - long[i])
  }

  function Last(s: seq<real>): real
    requires |s| > 0
  {
    s[|s| - 1]
  }

  /**
   * Entry i of the aligned line is the short EMA minus the long EMA of the
   * same prefix prices[..emaLong + i].
   */
  lemma AlignedMacdLineTimeAligned(prices: seq<real>, emaShort: nat, emaLong: nat, i: nat)
    requires 1 <= emaShort <= emaLong <= |prices|
    requires i < |prices| - emaLong + 1
    ensures AlignedMacdLine(prices, emaShort, emaLong)[i] ==
              Last(Ema(prices[..emaLong + i], emaShort)) - Last(Ema(prices[..emaLong + i], emaLong))
  {
    var n := emaLong + i;
    var short := Ema(prices, emaShort);
    var long := Ema(prices, emaLong);
    EmaPrefix(prices, emaShort, n);
    EmaPrefix(prices, emaLong, n);
    assert Last(Ema(prices[..n], emaShort)) == short[n - emaShort];
    assert Last(Ema(prices[..n], emaLong)) == long[i];
    assert |short| - |long| + i == n - emaShort;
  }
}
