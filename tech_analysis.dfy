// The signal-extraction part of the technical-analysis tool: given the
// closing prices of a ticker, find its peaks and troughs, read support and
// resistance levels off the most recent ones, and label three chart
// patterns.  Prices are exact positive reals; the indicator values the tool
// obtains from a third-party library enter as opaque inputs.

module TechAnalysis {
  import opened PeakFinding

  /** A closing price.  Prices are positive, so relative differences are defined. */
  type Price = r: real | 0.0 < r witness 1.0

  /** Fewest rows the analysis accepts. */
  const MinRows: nat := 50
  /** Minimal spacing, in rows, between two peaks or between two troughs. */
  const MinDistance: nat := 20
  /** How many recent extrema give support or resistance levels. */
  const LevelCount: nat := 3
  /** Largest relative difference of two "equal" tops or bottoms (exclusive). */
  const DoubleTolerance: real := 0.03

  function Min(a: nat, b: nat): nat {
    if a <= b then a else b
  }

  function Abs(v: real): real {
    if v < 0.0 then -v else v
  }

  // ---------------------------------------------------------------------
  // Peaks and troughs of the closing prices

  /** The peaks of the close series, searched with a minimal distance of 20 rows. */
  function Peaks(close: seq<Price>): (r: seq<nat>)
    ensures StrictlyIncreasing(r)
    ensures forall k :: 0 <= k < |r| ==> 0 < r[k] < |close| - 1 && IsLocalMax(close, r[k])
    ensures forall i, j :: 0 <= i < j < |r| ==> r[j] - r[i] >= MinDistance
    ensures forall q :: IsStrictLocalMax(close, q) && q !in r ==> Covered(close, r, q, MinDistance)
  {
    FindPeaks(close, MinDistance)
  }

  /** The troughs: the peaks of the negated close series, with the same distance. */
  function Troughs(close: seq<Price>): (r: seq<nat>)
    ensures StrictlyIncreasing(r)
    ensures forall k :: 0 <= k < |r| ==> 0 < r[k] < |close| - 1 && IsLocalMin(close, r[k])
    ensures forall i, j :: 0 <= i < j < |r| ==> r[j] - r[i] >= MinDistance
    ensures forall q :: IsStrictLocalMin(close, q) && q !in r ==> CoveredBelow(close, r, q, MinDistance)
  {
    FindTroughs(close, MinDistance)
  }

  /** Indices spaced d apart: the (k+1)-th lies at least k * d after the first. */
  lemma {:induction false} SpacedSpan(r: seq<nat>, d: nat, k: nat)
    requires k < |r|
    requires forall i, j :: 0 <= i < j < |r| ==> r[j] - r[i] >= d
    ensures r[k] - r[0] >= k * d
  {
    if k > 0 {
      SpacedSpan(r, d, k - 1);
      assert r[k] - r[k - 1] >= d;
    }
  }

  /** A series with n peaks (or n troughs) is at least 20 * (n - 1) + 3 rows long. */
  lemma ExtremaNeedRows(close: seq<Price>)
    ensures |Peaks(close)| > 0 ==> |close| >= MinDistance * (|Peaks(close)| - 1) + 3
    ensures |Troughs(close)| > 0 ==> |close| >= MinDistance * (|Troughs(close)| - 1) + 3
  {
    var p, t := Peaks(close), Troughs(close);
    if |p| > 0 {
      SpacedSpan(p, MinDistance, |p| - 1);
    }
    if |t| > 0 {
      SpacedSpan(t, MinDistance, |t| - 1);
    }
  }

  // ---------------------------------------------------------------------
  // Support and resistance

  /** The prices at the given indices (fancy indexing of the close series). */
  function PricesAt(close: seq<Price>, idx: seq<nat>): (r: seq<real>)
    requires forall k :: 0 <= k < |idx| ==> idx[k] < |close|
    ensures |r| == |idx|
  {
    seq(|idx|, k requires 0 <= k < |idx| => close[idx[k]])
  }

  /** Levels read off a sequence of extrema: the prices at its last three
      entries, or at all of them when there are fewer. */
  function Levels(close: seq<Price>, idx: seq<nat>): (r: seq<real>)
    requires forall k :: 0 <= k < |idx| ==> idx[k] < |close|
    ensures |r| == Min(LevelCount, |idx|)
    ensures forall k :: 0 <= k < |r| ==> r[k] == close[idx[|idx| - |r| + k]]
  {
    var prices := PricesAt(close, idx);
    if |idx| >= LevelCount then prices[|prices| - LevelCount..] else prices
  }

  /** The most recent entries of idx that give levels: its last three, or
      all of it when shorter. */
  function Recent(idx: seq<nat>): (r: seq<nat>)
    ensures |r| == Min(LevelCount, |idx|)
    ensures forall k :: 0 <= k < |r| ==> r[k] == idx[|idx| - |r| + k]
  {
    idx[|idx| - Min(LevelCount, |idx|)..]
  }

  /** The levels are the prices at the recent entries of idx, oldest first;
      there are at most three, and none exactly when idx is empty. */
  lemma {:induction false} LevelsAreRecentPrices(close: seq<Price>, idx: seq<nat>)
    requires forall k :: 0 <= k < |idx| ==> idx[k] < |close|
    ensures forall k :: 0 <= k < |Recent(idx)| ==> Recent(idx)[k] < |close|
    ensures Levels(close, idx) == PricesAt(close, Recent(idx))
    ensures |Levels(close, idx)| <= LevelCount
    ensures |Levels(close, idx)| == 0 <==> |idx| == 0
  {
    var r := Recent(idx);
    assert forall k :: 0 <= k < |r| ==> r[k] == idx[|idx| - |r| + k];
    var s, p := Levels(close, idx), PricesAt(close, r);
    assert |s| == |p|;
    forall k | 0 <= k < |s| ensures s[k] == p[k] {
      assert s[k] == close[idx[|idx| - |s| + k]];
    }
  }

  /** The support levels: prices at the last (up to) three troughs. */
  function SupportLevels(close: seq<Price>): (r: seq<real>)
  {
    Levels(close, Troughs(close))
  }

  /** The resistance levels: prices at the last (up to) three peaks. */
  function ResistanceLevels(close: seq<Price>): (r: seq<real>)
  {
    Levels(close, Peaks(close))
  }

  /** The support levels are the prices at the last min(3, #troughs)
      troughs, oldest first, so there are at most three and none without
      troughs; each of those troughs is a local minimum of the close series. */
  lemma SupportAtRecentTroughs(close: seq<Price>)
    ensures var t := Troughs(close);
      (forall k :: 0 <= k < |Recent(t)| ==> Recent(t)[k] < |close| && IsLocalMin(close, Recent(t)[k])) &&
      SupportLevels(close) == PricesAt(close, Recent(t)) &&
      |SupportLevels(close)| <= LevelCount &&
      (|SupportLevels(close)| == 0 <==> |t| == 0)
  {
    LevelsAreRecentPrices(close, Troughs(close));
  }

  /** The resistance levels are the prices at the last min(3, #peaks)
      peaks, oldest first, so there are at most three and none without
      peaks; each of those peaks is a local maximum of the close series. */
  lemma ResistanceAtRecentPeaks(close: seq<Price>)
    ensures var p := Peaks(close);
      (forall k :: 0 <= k < |Recent(p)| ==> Recent(p)[k] < |close| && IsLocalMax(close, Recent(p)[k])) &&
      ResistanceLevels(close) == PricesAt(close, Recent(p)) &&
      |ResistanceLevels(close)| <= LevelCount &&
      (|ResistanceLevels(close)| == 0 <==> |p| == 0)
  {
    LevelsAreRecentPrices(close, Peaks(close));
  }

  // ---------------------------------------------------------------------
  // Chart patterns

  datatype Pattern = HeadAndShoulders | DoubleTop | DoubleBottom {
    /** The label the report carries. */
    function Label(): string {
      match this
      case HeadAndShoulders => "Head and Shoulders"
      case DoubleTop => "Double Top"
      case DoubleBottom => "Double Bottom"
    }

    /** Position of the pattern in the order the checks run. */
    function Rank(): nat {
      match this
      case HeadAndShoulders => 0
      case DoubleTop => 1
      case DoubleBottom => 2
    }
  }

  /** b differs from a by less than 3% of a, stated without division. */
  predicate NearlyEqual(a: Price, b: Price) {
    Abs(b - a) < DoubleTolerance * a
  }

  /** The relative difference of b from the reference price a. */
  function RelativeChange(a: Price, b: Price): real {
    Abs(b - a) / a
  }

  /** The tool's 3% test, |b - a| / a < 0.03, holds exactly when b is
      NearlyEqual to a; the sign of the difference does not matter. */
  lemma RelativeDifference(a: Price, b: Price)
    ensures RelativeChange(a, b) < DoubleTolerance <==> NearlyEqual(a, b)
    ensures Abs(a - b) == Abs(b - a)
  {
    assert Abs(a - b) == Abs(b - a);
    DivisionBound(Abs(b - a), a, DoubleTolerance);
  }

  /** For a positive divisor, a quotient lies below t exactly when the
      dividend lies below t times the divisor. */
  lemma DivisionBound(x: real, a: real, t: real)
    requires 0.0 < a
    ensures x / a < t <==> x < t * a
  {
    var ratio := x / a;
    assert ratio * a == x;
    if ratio < t {
      assert (t - ratio) * a > 0.0;
      assert t * a - ratio * a == (t - ratio) * a;
    } else {
      assert (ratio - t) * a >= 0.0;
      assert ratio * a - t * a == (ratio - t) * a;
    }
  }

  /** Head and Shoulders: of the last three peaks, the middle one (the head)
      is strictly higher than both outer ones (the shoulders). */
  predicate IsHeadAndShoulders(close: seq<Price>) {
    var peaks := Peaks(close);
    if |peaks| >= 3 then
      var leftShoulder, head, rightShoulder := peaks[|peaks| - 3], peaks[|peaks| - 2], peaks[|peaks| - 1];
      close[head] > close[leftShoulder] && close[head] > close[rightShoulder]
    else
      false
  }

  /** The tool's 3% test on a sequence of extrema: there are at least two,
      and the price at the last differs from the price at the one before
      by less than 3% of the latter. */
  predicate LastTwoWithin(close: seq<Price>, idx: seq<nat>)
    requires forall k :: 0 <= k < |idx| ==> idx[k] < |close|
  {
    if |idx| >= 2 then
      RelativeChange(close[idx[|idx| - 2]], close[idx[|idx| - 1]]) < DoubleTolerance
    else
      false
  }

  /** Double Top: the last two peaks differ by less than 3% of the earlier. */
  predicate IsDoubleTop(close: seq<Price>) {
    LastTwoWithin(close, Peaks(close))
  }

  /** Double Bottom: the last two troughs differ by less than 3% of the earlier. */
  predicate IsDoubleBottom(close: seq<Price>) {
    LastTwoWithin(close, Troughs(close))
  }

  /** When the 3% test passes, the later price lies strictly inside the band
      of 3% around the earlier one, and conversely. */
  lemma LastTwoInBand(close: seq<Price>, idx: seq<nat>)
    requires forall k :: 0 <= k < |idx| ==> idx[k] < |close|
    ensures LastTwoWithin(close, idx) <==>
      |idx| >= 2 &&
      (1.0 - DoubleTolerance) * close[idx[|idx| - 2]] < close[idx[|idx| - 1]] &&
      close[idx[|idx| - 1]] < (1.0 + DoubleTolerance) * close[idx[|idx| - 2]]
  {
    if |idx| >= 2 {
      RelativeDifference(close[idx[|idx| - 2]], close[idx[|idx| - 1]]);
    }
  }

  /** A Head and Shoulders is three local maxima of the close series, each
      at least 20 rows after the previous one, the middle one strictly the
      highest; so it needs at least 43 rows. */
  lemma HeadAndShouldersShape(close: seq<Price>)
    requires IsHeadAndShoulders(close)
    ensures |Peaks(close)| >= 3
    ensures var p := Peaks(close);
      var l, h, r := p[|p| - 3], p[|p| - 2], p[|p| - 1];
      IsLocalMax(close, l) && IsLocalMax(close, h) && IsLocalMax(close, r) &&
      h - l >= MinDistance && r - h >= MinDistance &&
      close[l] < close[h] && close[r] < close[h]
    ensures |close| >= 2 * MinDistance + 3
  {
    var p := Peaks(close);
    ExtremaNeedRows(close);
    assert p[|p| - 1] - p[|p| - 3] >= 2 * MinDistance;
  }

  /** A Double Top is two local maxima of the close series at least 20 rows
      apart, the later one within 3% of the earlier, above or below. */
  lemma DoubleTopShape(close: seq<Price>)
    requires IsDoubleTop(close)
    ensures |Peaks(close)| >= 2
    ensures var p := Peaks(close);
      var first, second := p[|p| - 2], p[|p| - 1];
      IsLocalMax(close, first) && IsLocalMax(close, second) &&
      second - first >= MinDistance &&
      (1.0 - DoubleTolerance) * close[first] < close[second] < (1.0 + DoubleTolerance) * close[first]
  {
    LastTwoInBand(close, Peaks(close));
  }

  /** A Double Bottom is two local minima of the close series at least 20
      rows apart, the later one within 3% of the earlier, above or below. */
  lemma DoubleBottomShape(close: seq<Price>)
    requires IsDoubleBottom(close)
    ensures |Troughs(close)| >= 2
    ensures var t := Troughs(close);
      var first, second := t[|t| - 2], t[|t| - 1];
      IsLocalMin(close, first) && IsLocalMin(close, second) &&
      second - first >= MinDistance &&
      (1.0 - DoubleTolerance) * close[first] < close[second] < (1.0 + DoubleTolerance) * close[first]
  {
    LastTwoInBand(close, Troughs(close));
  }

  /** The labels for the given check outcomes, in the fixed order of the
      checks: each label present exactly when its check holds, none twice. */
  function PatternList(headAndShoulders: bool, doubleTop: bool, doubleBottom: bool): (r: seq<Pattern>)
    ensures HeadAndShoulders in r <==> headAndShoulders
    ensures DoubleTop in r <==> doubleTop
    ensures DoubleBottom in r <==> doubleBottom
    ensures forall i, j :: 0 <= i < j < |r| ==> r[i].Rank() < r[j].Rank()
  {
    (if headAndShoulders then [HeadAndShoulders] else []) +
    (if doubleTop then [DoubleTop] else []) +
    (if doubleBottom then [DoubleBottom] else [])
  }

  /** The patterns the close series shows. */
  function ChartPatterns(close: seq<Price>): seq<Pattern> {
    PatternList(IsHeadAndShoulders(close), IsDoubleTop(close), IsDoubleBottom(close))
  }

  /** The pattern list built up one append per check that held, in the
      order the checks run. */
  method CollectPatterns(headAndShoulders: bool, doubleTop: bool, doubleBottom: bool)
    returns (patterns: seq<Pattern>)
    ensures patterns == PatternList(headAndShoulders, doubleTop, doubleBottom)
  {
    patterns := [];
    if headAndShoulders {
      patterns := patterns + [HeadAndShoulders];
    }
    assert patterns == PatternList(headAndShoulders, false, false);
    if doubleTop {
      patterns := patterns + [DoubleTop];
    }
    assert patterns == PatternList(headAndShoulders, doubleTop, false);
    if doubleBottom {
      patterns := patterns + [DoubleBottom];
    }
  }

  /** Run the three checks on the close series and collect their labels. */
  method IdentifyChartPatterns(close: seq<Price>) returns (patterns: seq<Pattern>)
    ensures patterns == ChartPatterns(close)
  {
    var headAndShoulders := IsHeadAndShoulders(close);
    var doubleTop := IsDoubleTop(close);
    var doubleBottom := IsDoubleBottom(close);
    patterns := CollectPatterns(headAndShoulders, doubleTop, doubleBottom);
  }

  // ---------------------------------------------------------------------
  // The whole analysis

  /** Which indicator library was found when the tool was loaded. */
  datatype Backend = PandasTa | Ta | NoBackend

  /** The latest value of each indicator, absent while still warming up. */
  datatype Indicators = Indicators(
    sma50: Option<real>, sma200: Option<real>, rsi: Option<real>,
    macd: Option<real>, atr: Option<real>)

  datatype Option<T> = None | Some(value: T)

  datatype Report = Report(
    ticker: string,
    currentPrice: real,
    latest: Indicators,
    supportLevels: seq<real>,
    resistanceLevels: seq<real>,
    patterns: seq<Pattern>)

  datatype AnalysisError = InsufficientData | NoIndicatorLibrary {
    /** The message of the error result. */
    function Message(): string {
      match this
      case InsufficientData =>
        "Insufficient data for technical analysis. At least 50 data points are required."
      case NoIndicatorLibrary =>
        "Neither 'pandas_ta' nor 'ta' libraries are installed. Please install one: `pip install ta` (recommended) or `pip install pandas-ta`."
    }
  }

  datatype Outcome = Success(report: Report) | Failure(error: AnalysisError)

  /** Analyse a ticker's closing prices; `latest` holds the indicator values
      the chosen library computed over the same rows. */
  function Run(ticker: string, close: seq<Price>, backend: Backend, latest: Indicators): (r: Outcome)
    ensures |close| < MinRows <==> r == Failure(InsufficientData)
    ensures r == Failure(NoIndicatorLibrary) <==> |close| >= MinRows && backend == NoBackend
    ensures r.Success? ==>
      var rep := r.report;
      rep.ticker == ticker && rep.latest == latest &&
      rep.currentPrice == close[|close| - 1] &&
      rep.supportLevels == SupportLevels(close) &&
      rep.resistanceLevels == ResistanceLevels(close) &&
      rep.patterns == ChartPatterns(close)
  {
    if |close| == 0 || |close| < MinRows then
      Failure(InsufficientData)
    else if backend == NoBackend then
      Failure(NoIndicatorLibrary)
    else
      Success(Report(ticker, close[|close| - 1], latest,
                     SupportLevels(close), ResistanceLevels(close), ChartPatterns(close)))
  }
}
