# Technical-analysis signal extraction, verified in Dafny

This project models the signal-extraction core of the stock
technical-analysis tool `YFinanceTechnicalAnalysisTool`
(`tools/yf_tech_analysis.py`). The tool starts from the closing prices of a
ticker. It refuses histories shorter than 50 rows. It finds peaks and
troughs with a minimal spacing of 20 rows. It reads support and resistance
levels off the last (up to) three troughs and peaks. It labels three chart
patterns: Head and Shoulders, Double Top and Double Bottom. Finally it puts
everything into a report.

Two modules:

- `PeakFinding` (`peak_finding.dfy`) models SciPy's
  `find_peaks(x, distance=d)`, which the tool calls.
  - It first scans left to right for candidate local maxima. A flat plateau
    counts when it is entered by a strict rise and left by a strict fall.
  - It then thins the candidates greedily. The highest remaining candidate
    is kept, and every candidate closer than `d` to it is dropped.
  - `FindPeaks` is proved to return increasing indices. Each index is an
    interior local maximum, plateaus allowed. Any two indices are at least
    `d` apart. Every strict local maximum that was dropped lies within `d`
    of a kept peak that is at least as high.
  - `FindTroughs` is the same search run on the negated series, as the tool
    does. It is proved to give local minima with the mirror-image
    properties.
- `TechAnalysis` (`tech_analysis.dfy`) models the tool itself:
  - the support and resistance levels;
  - the three pattern checks (`IsHeadAndShoulders`, `IsDoubleTop`,
    `IsDoubleBottom`);
  - the pattern list (`ChartPatterns`), and the method
    `IdentifyChartPatterns`, which builds that list by successive appends;
  - `Run`, the whole analysis as a pure function. It returns either an
    error or a `Report`.

Modelling decisions:

- Prices are exact positive reals (`Price`). Being positive, the
  denominator of the 3% test is never zero.
- The market-data fetch is replaced by the close series, given as an input.
- The indicator values (SMA 50, SMA 200, RSI, MACD, ATR) enter `Run` as
  opaque optional values, `None` while an indicator is still warming up.
- The indicator library found when the tool was loaded enters `Run` as a
  `Backend` parameter. `NoBackend` gives the library error. That check
  comes after the size check, as in the source.
- Some descriptions of this component say that the first index of a flat
  plateau is the candidate, and that candidates are filtered left to right.
  The code does not do that: it delegates to SciPy. SciPy places a
  plateau's peak at its middle and thins highest-first. The executable
  definition here does the same, and takes the earliest index when two
  candidates are equally high. Neither rule is part of any contract, so
  every property proved holds whatever rule is used.

## Model

| member | source | states |
|---|---|---|
| PeakFinding.FindPeaks | tools/yf_tech_analysis.py:82 | the peak indices increase strictly, lie strictly inside the series, are local maxima (plateaus allowed), are pairwise at least `d` apart, and every dropped strict local maximum lies within `d` of a kept peak at least as high |
| PeakFinding.FindTroughs | tools/yf_tech_analysis.py:83 | the search on the negated series gives increasing interior local minima, pairwise at least `d` apart, and every dropped strict local minimum lies within `d` of a kept trough at least as low |
| PeakFinding.NegatedPeakIsTrough | tools/yf_tech_analysis.py:83 | an index is a (strict) local maximum of the negated series exactly when it is a (strict) local minimum of the series |
| PeakFinding.PeaksOfNegationAreTroughs | tools/yf_tech_analysis.py:83 | any result satisfying the peak contract for the negated series satisfies the trough contract for the series |
| PeakFinding.CandidatesIncrease | tools/yf_tech_analysis.py:82 | the candidate scan yields strictly increasing interior indices |
| PeakFinding.CandidatesAreLocalMaxima | tools/yf_tech_analysis.py:82 | every candidate lies on a local maximum |
| PeakFinding.CandidatesCoverStrictMaxima | tools/yf_tech_analysis.py:82 | no strict local maximum is missed by the scan |
| PeakFinding.SelectIsSpacedAndDominating | tools/yf_tech_analysis.py:82 | greedy thinning keeps a subset of the candidates, pairwise at least `d` apart, and each dropped candidate lies within `d` of a kept one at least as high |
| PeakFinding.ScanAndThinFindPeaks | tools/yf_tech_analysis.py:82 | the scan, the thinning and the ordering of survivors together meet the contract of the peak search |
| TechAnalysis.Peaks | tools/yf_tech_analysis.py:82 | the peaks of the close series are found with a spacing of 20 rows and have every property of the peak search |
| TechAnalysis.Troughs | tools/yf_tech_analysis.py:83 | the troughs are found on the negated close series with a spacing of 20 rows and are local minima of the close series, pairwise at least 20 apart |
| TechAnalysis.ExtremaNeedRows | tools/yf_tech_analysis.py:82-83 | a series with n peaks (or n troughs), n > 0, has at least 20 * (n - 1) + 3 rows |
| TechAnalysis.Levels | tools/yf_tech_analysis.py:84-85 | the levels are the prices at the last min(3, n) indices, oldest first |
| TechAnalysis.LevelsAreRecentPrices | tools/yf_tech_analysis.py:84-85 | slicing the last three prices equals reading the prices at the last min(3, n) indices; there are at most three levels, and none exactly when there are no indices |
| TechAnalysis.SupportAtRecentTroughs | tools/yf_tech_analysis.py:84 | the support levels are the prices at the last min(3, #troughs) troughs, oldest first, each a local minimum; at most three, and none exactly when there is no trough |
| TechAnalysis.ResistanceAtRecentPeaks | tools/yf_tech_analysis.py:85 | the resistance levels are the prices at the last min(3, #peaks) peaks, oldest first, each a local maximum; at most three, and none exactly when there is no peak |
| TechAnalysis.DivisionBound | tools/yf_tech_analysis.py:158 | for a positive divisor, a quotient is below t exactly when the dividend is below t times the divisor |
| TechAnalysis.RelativeDifference | tools/yf_tech_analysis.py:158 | the test abs(b - a) / a < 0.03 holds exactly when abs(b - a) < 0.03 * a, whichever way the difference is taken |
| TechAnalysis.LastTwoInBand | tools/yf_tech_analysis.py:157-159 | the 3% test on the last two extrema passes exactly when there are at least two and the later price lies strictly between 97% and 103% of the earlier |
| TechAnalysis.HeadAndShouldersShape | tools/yf_tech_analysis.py:139-144 | a Head and Shoulders is three local maxima, each at least 20 rows after the previous one, the middle one strictly higher than both others; it needs at least 43 rows |
| TechAnalysis.DoubleTopShape | tools/yf_tech_analysis.py:156-160 | a Double Top is two local maxima at least 20 rows apart, the later one strictly within 3% of the earlier |
| TechAnalysis.DoubleBottomShape | tools/yf_tech_analysis.py:172-176 | a Double Bottom is two local minima at least 20 rows apart, the later one strictly within 3% of the earlier |
| TechAnalysis.PatternList | tools/yf_tech_analysis.py:117-127 | each label is in the list exactly when its check held, and the labels appear in the order the checks run, so none appears twice |
| TechAnalysis.CollectPatterns | tools/yf_tech_analysis.py:119-125 | appending one label per check that held builds exactly that list |
| TechAnalysis.IdentifyChartPatterns | tools/yf_tech_analysis.py:117-127 | running the three checks and appending their labels yields the chart patterns of the close series |
| TechAnalysis.Run | tools/yf_tech_analysis.py:48-101 | fewer than 50 rows (empty included) gives exactly the insufficient-data error; otherwise no indicator library gives exactly the library error; otherwise the report holds the ticker, the last close, the indicator values, the support and resistance levels and the chart patterns |

## Left out

- Market-data fetch (`yf.Ticker(...).history`, lines 44-45): network I/O. The close series is an input instead.
- Indicator computation (lines 52-68) and the import-time choice of library (lines 8-18): these are foreign floating-point library calls. The latest values are opaque inputs, and the library choice is a parameter.
- Catch-all exception handlers (lines 102-105): they depend on runtime faults inside NumPy and pandas that the source does not show.
- NaN handling (`dropna` and `isnull().all()`, lines 74-81): the close series is taken to be NaN-free. So the rows the patterns see (line 118) and the rows the levels see (line 81) are the same.
- Floating point: prices and the 0.03 tolerance are exact reals. Rounding in the division of the 3% test is not modelled.
- The exact peak placement on a plateau and the winner between two equally high candidates are fixed by the executable definition but stated by no contract, because SciPy's source is not part of this model.
- `IsHeadAndShoulders`, `IsDoubleTop` and `IsDoubleBottom` are predicates without contracts of their own. What they establish is stated by the `...Shape` lemmas and by `LastTwoInBand`.
- `main_v2.py` (Streamlit layout and charting) and `crew_simple.py` (LLM prompting and tool orchestration) are not part of this model: they are UI and foreign calls.
