/** The historical backtest and the alert-threshold search of backend/analytics/backtest.py. */
module Backtest {
  import opened Wilson

  const Z95 := 1.96
  const ABS_TOL := 0.000000001

  /** Any other domain name is scored by the composite risk. */
  datatype Domain = Financial | Unrest | Conflict | OtherDomain

  /** What the risk engine reports after one feed item; the engine itself is arbitrary. */
  datatype Reading = Reading(prior: real, composite: real)

  datatype HistoricalCase = HistoricalCase(positive: bool, domain: Domain, readings: seq<Reading>)

  datatype CaseResult = CaseResult(expectedAlert: bool, alerted: bool, correct: bool,
                                   peakDomain: real, peakComposite: real)

  function DomainRisk(domain: Domain, reading: Reading): real {
    if domain == OtherDomain then reading.composite else reading.prior
  }

  function PeakDomain(base: real, domain: Domain, readings: seq<Reading>): real {
    if readings == [] then base
    else Max(PeakDomain(base, domain, readings[..|readings| - 1]), DomainRisk(domain, readings[|readings| - 1]))
  }

  function PeakComposite(base: real, readings: seq<Reading>): real {
    if readings == [] then base
    else Max(PeakComposite(base, readings[..|readings| - 1]), readings[|readings| - 1].composite)
  }

  function Score(c: HistoricalCase, base: real): real {
    var peak := PeakDomain(base, c.domain, c.readings);
    if c.domain == Conflict then Max(peak, PeakComposite(base, c.readings) * 0.95) else peak
  }

  function Evaluate(c: HistoricalCase, base: real, threshold: real): CaseResult {
    var alerted := Score(c, base) >= threshold;
    CaseResult(c.positive, alerted, alerted == c.positive,
               PeakDomain(base, c.domain, c.readings), PeakComposite(base, c.readings))
  }

  /** The prior, or a single reading, is already high enough. */
  ghost predicate Crosses(c: HistoricalCase, base: real, threshold: real) {
    || base >= threshold
    || (exists i :: 0 <= i < |c.readings| && DomainRisk(c.domain, c.readings[i]) >= threshold)
    || (c.domain == Conflict
        && (base * 0.95 >= threshold
          || exists i :: 0 <= i < |c.readings| && c.readings[i].composite * 0.95 >= threshold))
  }

  lemma {:induction false} PeakDomainReaches(base: real, domain: Domain, readings: seq<Reading>, threshold: real)
    ensures PeakDomain(base, domain, readings) >= threshold
            <==> base >= threshold || exists i :: 0 <= i < |readings| && DomainRisk(domain, readings[i]) >= threshold
  {
    if readings != [] {
      var init := readings[..|readings| - 1];
      PeakDomainReaches(base, domain, init, threshold);
      if i :| 0 <= i < |init| && DomainRisk(domain, init[i]) >= threshold {
        assert DomainRisk(domain, readings[i]) >= threshold;
      }
      assert forall i :: 0 <= i < |init| ==> readings[i] == init[i];
    }
  }

  lemma {:induction false} PeakCompositeReaches(base: real, readings: seq<Reading>, threshold: real)
    ensures PeakComposite(base, readings) * 0.95 >= threshold
            <==> || base * 0.95 >= threshold
                 || exists i :: 0 <= i < |readings| && readings[i].composite * 0.95 >= threshold
  {
    if readings != [] {
      var init := readings[..|readings| - 1];
      PeakCompositeReaches(base, init, threshold);
      if i :| 0 <= i < |init| && init[i].composite * 0.95 >= threshold {
        assert readings[i].composite * 0.95 >= threshold;
      }
      assert forall i :: 0 <= i < |init| ==> readings[i] == init[i];
    }
  }

  /** An alert is raised exactly when some reading on its own crosses the threshold. */
  lemma AlertIffSomeReadingCrosses(c: HistoricalCase, base: real, threshold: real)
    ensures Evaluate(c, base, threshold).alerted <==> Crosses(c, base, threshold)
  {
    PeakDomainReaches(base, c.domain, c.readings, threshold);
    PeakCompositeReaches(base, c.readings, threshold);
  }

  /** `_evaluate_case`: the running peaks over the feed items. */
  method EvaluateCase(c: HistoricalCase, base: real, threshold: real) returns (r: CaseResult)
    ensures r.alerted <==> Crosses(c, base, threshold)
    ensures r.expectedAlert == c.positive && (r.correct <==> r.alerted == r.expectedAlert)
    ensures r == Evaluate(c, base, threshold)
  {
    var peakDomain, peakComposite := base, base;
    for i := 0 to |c.readings|
      invariant peakDomain == PeakDomain(base, c.domain, c.readings[..i])
      invariant peakComposite == PeakComposite(base, c.readings[..i])
    {
      assert c.readings[..i + 1][..i] == c.readings[..i];
      peakDomain := Max(peakDomain, DomainRisk(c.domain, c.readings[i]));
      peakComposite := Max(peakComposite, c.readings[i].composite);
    }
    assert c.readings[..|c.readings|] == c.readings;
    var score := peakDomain;
    if c.domain == Conflict {
      score := Max(peakDomain, peakComposite * 0.95);
    }
    var alerted := score >= threshold;
    r := CaseResult(c.positive, alerted, alerted == c.positive, peakDomain, peakComposite);
    AlertIffSomeReadingCrosses(c, base, threshold);
  }

  // ---- counting ----

  function Count(results: seq<CaseResult>, p: CaseResult -> bool): (n: nat)
    ensures n <= |results|
  {
    if results == [] then 0 else Count(results[1..], p) + if p(results[0]) then 1 else 0
  }

  const TP := (r: CaseResult) => r.expectedAlert && r.alerted
  const TN := (r: CaseResult) => !r.expectedAlert && !r.alerted
  const FP := (r: CaseResult) => !r.expectedAlert && r.alerted
  const FN := (r: CaseResult) => r.expectedAlert && !r.alerted
  const EXPECTED := (r: CaseResult) => r.expectedAlert
  const CORRECT := (r: CaseResult) => r.correct

  function Results(suite: seq<HistoricalCase>, base: real, threshold: real): (rs: seq<CaseResult>)
    ensures |rs| == |suite|
  {
    seq(|suite|, i requires 0 <= i < |suite| => Evaluate(suite[i], base, threshold))
  }

  lemma ResultsTail(suite: seq<HistoricalCase>, base: real, threshold: real)
    requires suite != []
    ensures Results(suite, base, threshold)[0] == Evaluate(suite[0], base, threshold)
    ensures Results(suite, base, threshold)[1..] == Results(suite[1..], base, threshold)
  {
  }

  /** The four confusion counts partition the suite. */
  lemma {:induction false} CountsPartition(rs: seq<CaseResult>)
    requires forall i :: 0 <= i < |rs| ==> (rs[i].correct <==> rs[i].alerted == rs[i].expectedAlert)
    ensures Count(rs, TP) + Count(rs, TN) + Count(rs, FP) + Count(rs, FN) == |rs|
    ensures Count(rs, TP) + Count(rs, TN) == Count(rs, CORRECT)
    ensures Count(rs, TP) + Count(rs, FN) == Count(rs, EXPECTED)
  {
    if rs != [] {
      CountsPartition(rs[1..]);
    }
  }

  datatype BacktestReport = BacktestReport(
    total: nat, correct: nat, accuracy: real, confidenceRate: real, wilsonUpper: real,
    truePositives: nat, trueNegatives: nat, falsePositives: nat, falseNegatives: nat,
    sensitivity: real, specificity: real, alertThreshold: real, targetConfidence: real,
    meetsTarget: bool, caseResults: seq<CaseResult>)

  function Ratio(a: nat, b: nat): real {
    if b == 0 then 0.0 else a as real / b as real
  }

  function CorrectCount(suite: seq<HistoricalCase>, base: real, threshold: real): (n: nat)
    ensures n <= |suite|
  {
    Count(Results(suite, base, threshold), CORRECT)
  }

  /** `run_historical_backtest` on a given suite. */
  function RunHistoricalBacktest(suite: seq<HistoricalCase>, base: real, threshold: real, target: real,
                                 sqrt: real -> real): (r: BacktestReport)
    ensures r.total == |suite| && r.correct <= r.total
  {
    var rs := Results(suite, base, threshold);
    var tp, tn, fp, fn := Count(rs, TP), Count(rs, TN), Count(rs, FP), Count(rs, FN);
    var total := |rs|;
    CountsPartition(rs);
    assert total > 0 ==> Radicand(tp + tn, total, Z95) >= 0.0 by {
      if total > 0 { RadicandNonNegative(tp + tn, total, Z95); }
    }
    var bounds := WilsonInterval(tp + tn, total, Z95, sqrt);
    var positives := Count(rs, EXPECTED);
    BacktestReport(total, tp + tn, Ratio(tp + tn, total), bounds.0, bounds.1, tp, tn, fp, fn,
                   Ratio(tp, positives), Ratio(tn, total - positives), threshold, target,
                   bounds.0 >= target, rs)
  }

  /** The counts of a report add up to the suite, and its correct cases are those flagged correct. */
  lemma ReportCountsAgree(suite: seq<HistoricalCase>, base: real, threshold: real, target: real, sqrt: real -> real)
    ensures var r := RunHistoricalBacktest(suite, base, threshold, target, sqrt);
            && r.truePositives + r.trueNegatives + r.falsePositives + r.falseNegatives == |suite|
            && r.correct == CorrectCount(suite, base, threshold)
  {
    CountsPartition(Results(suite, base, threshold));
  }

  ghost predicate IsShare(share: real, part: nat, whole: nat) { share * whole as real == part as real }

  /** Its accuracy is the share of those cases. */
  lemma ReportAccuracy(suite: seq<HistoricalCase>, base: real, threshold: real, target: real, sqrt: real -> real)
    ensures IsShare(RunHistoricalBacktest(suite, base, threshold, target, sqrt).accuracy,
                    CorrectCount(suite, base, threshold), |suite|)
  {
    ReportRatios(suite, base, threshold, target, sqrt);
    RatioIsShare(CorrectCount(suite, base, threshold), |suite|);
  }

  lemma ReportRatios(suite: seq<HistoricalCase>, base: real, threshold: real, target: real, sqrt: real -> real)
    ensures var r, c := RunHistoricalBacktest(suite, base, threshold, target, sqrt),
            CorrectCount(suite, base, threshold);
            && r.accuracy == Ratio(c, |suite|)
            && (|suite| > 0 && Radicand(c, |suite|, Z95) >= 0.0 ==>
                  (r.confidenceRate, r.wilsonUpper) == WilsonInterval(c, |suite|, Z95, sqrt))
  {
    CountsPartition(Results(suite, base, threshold));
  }

  /** Its confidence and upper bound are the ends of the interval for that number, which need no clamping. */
  lemma ReportEnds(suite: seq<HistoricalCase>, base: real, threshold: real, target: real, sqrt: real -> real)
    requires ComputesSqrt(sqrt) && suite != []
    ensures var r, c := RunHistoricalBacktest(suite, base, threshold, target, sqrt),
            CorrectCount(suite, base, threshold);
            r.confidenceRate == Lower(c, |suite|, Z95, sqrt) && r.wilsonUpper == Upper(c, |suite|, Z95, sqrt)
  {
    ReportRatios(suite, base, threshold, target, sqrt);
    EndsAreOrdered(CorrectCount(suite, base, threshold), |suite|, Z95, sqrt);
  }

  lemma RatioIsShare(a: nat, b: nat)
    requires a <= b
    ensures IsShare(Ratio(a, b), a, b)
  {
    if b > 0 { DivMul(a as real, b as real); }
  }

  // ---- the effect of the threshold ----

  lemma {:induction false} CountsFall(suite: seq<HistoricalCase>, base: real, low: real, high: real)
    requires low <= high
    ensures Count(Results(suite, base, high), TP) <= Count(Results(suite, base, low), TP)
    ensures Count(Results(suite, base, high), FP) <= Count(Results(suite, base, low), FP)
    ensures Count(Results(suite, base, high), TN) >= Count(Results(suite, base, low), TN)
    ensures Count(Results(suite, base, high), EXPECTED) == Count(Results(suite, base, low), EXPECTED)
  {
    if suite != [] {
      ResultsTail(suite, base, low);
      ResultsTail(suite, base, high);
      CountsFall(suite[1..], base, low, high);
    }
  }

  lemma RatioMonotone(a: nat, b: nat, c: nat)
    requires a <= b
    ensures Ratio(a, c) <= Ratio(b, c)
  {
    if c != 0 {
      DivMul(a as real, c as real);
      DivMul(b as real, c as real);
      CancelLe(a as real / c as real, b as real / c as real, c as real);
    }
  }

  lemma RatesMove(suite: seq<HistoricalCase>, base: real, low: real, high: real)
    requires low <= high
    ensures var ls, hs := Results(suite, base, low), Results(suite, base, high);
            && Ratio(Count(hs, TP), Count(hs, EXPECTED)) <= Ratio(Count(ls, TP), Count(ls, EXPECTED))
            && Ratio(Count(hs, TN), |hs| - Count(hs, EXPECTED)) >= Ratio(Count(ls, TN), |ls| - Count(ls, EXPECTED))
  {
    CountsFall(suite, base, low, high);
    var ls, hs := Results(suite, base, low), Results(suite, base, high);
    RatioMonotone(Count(hs, TP), Count(ls, TP), Count(ls, EXPECTED));
    RatioMonotone(Count(ls, TN), Count(hs, TN), |ls| - Count(ls, EXPECTED));
  }

  /** A higher threshold costs sensitivity and buys specificity. */
  lemma RaisingTheThreshold(suite: seq<HistoricalCase>, base: real, low: real, high: real, target: real,
                            sqrt: real -> real)
    requires low <= high
    ensures var l, h := RunHistoricalBacktest(suite, base, low, target, sqrt),
            RunHistoricalBacktest(suite, base, high, target, sqrt);
            && h.truePositives <= l.truePositives && h.falsePositives <= l.falsePositives
            && h.sensitivity <= l.sensitivity && h.specificity >= l.specificity
  {
    CountsFall(suite, base, low, high);
    RatesMove(suite, base, low, high);
    ReportRates(suite, base, low, target, sqrt);
    ReportRates(suite, base, high, target, sqrt);
  }

  lemma ReportRates(suite: seq<HistoricalCase>, base: real, threshold: real, target: real, sqrt: real -> real)
    ensures var r, rs := RunHistoricalBacktest(suite, base, threshold, target, sqrt), Results(suite, base, threshold);
            && r.truePositives == Count(rs, TP) && r.falsePositives == Count(rs, FP)
            && r.sensitivity == Ratio(Count(rs, TP), Count(rs, EXPECTED))
            && r.specificity == Ratio(Count(rs, TN), |rs| - Count(rs, EXPECTED))
  {
  }

  /** More correct cases of as many: strictly more confidence and accuracy; so the pass/fail
      verdict is upward closed in the number of correct cases. */
  lemma ConfidenceFollowsCorrect(a: BacktestReport, b: BacktestReport, suiteA: seq<HistoricalCase>,
                                 suiteB: seq<HistoricalCase>,
                                 base: real, s: real, t: real, target: real, sqrt: real -> real)
    requires ComputesSqrt(sqrt) && |suiteA| == |suiteB|
    requires a == RunHistoricalBacktest(suiteA, base, s, target, sqrt)
    requires b == RunHistoricalBacktest(suiteB, base, t, target, sqrt)
    ensures a.correct == b.correct ==> a.confidenceRate == b.confidenceRate && a.accuracy == b.accuracy
    ensures a.correct < b.correct ==> a.confidenceRate < b.confidenceRate && a.accuracy < b.accuracy
    ensures a.correct <= b.correct && a.meetsTarget ==> b.meetsTarget
  {
    var n := |suiteA|;
    if n > 0 {
      EndsAreOrdered(a.correct, n, Z95, sqrt);
      EndsAreOrdered(b.correct, n, Z95, sqrt);
      if a.correct < b.correct {
        LowerStrictlyIncreasing(a.correct, b.correct, n, Z95, sqrt);
        AccuracyGap(a.correct, b.correct, n);
      }
    }
  }

  /** Accuracies of neighbouring counts differ by at least 1 / total. */
  lemma AccuracyGap(few: nat, many: nat, total: nat)
    requires few < many <= total
    ensures Ratio(few, total) < Ratio(many, total)
    ensures IsProduct(Ratio(many, total) - Ratio(few, total), total as real, (many - few) as real)
  {
    RatioCleared(few, total);
    RatioCleared(many, total);
    GapCleared(Ratio(few, total), Ratio(many, total), few as real, many as real, total as real);
  }

  lemma RatioCleared(a: nat, b: nat)
    requires b != 0
    ensures IsProduct(Ratio(a, b), b as real, a as real)
  {
    DivMul(a as real, b as real);
  }

  lemma GapCleared(x: real, y: real, a: real, b: real, n: real)
    requires n > 0.0 && IsProduct(x, n, a) && IsProduct(y, n, b) && a < b
    ensures x < y && IsProduct(y - x, n, b - a)
  {
    CancelLt(x, y, n);
  }

  // ---- the grid search ----

  function Abs(x: real): real { if x < 0.0 then -x else x }

  /** `math.isclose` with rel_tol = 0 and abs_tol = 1e-9. */
  predicate IsClose(a: real, b: real) { Abs(a - b) <= ABS_TOL }

  /** Python's `round` to an integer: ties go to the even neighbour. */
  function RoundHalfEven(x: real): (r: int)
    ensures Abs(r as real - x) <= 0.5
  {
    var down := x.Floor;
    var fraction := x - down as real;
    if fraction < 0.5 then down
    else if fraction > 0.5 then down + 1
    else if down % 2 == 0 then down else down + 1
  }

  function GridPoint(first: real, step: real, i: int): real { first + i as real * step }

  /** Whether the search moves from `best` to `threshold`. */
  predicate Prefers(report: BacktestReport, threshold: real, bestReport: BacktestReport, best: real) {
    var betterConfidence := report.confidenceRate > bestReport.confidenceRate;
    var tiedConfidence := IsClose(report.confidenceRate, bestReport.confidenceRate);
    var betterAccuracy := report.accuracy > bestReport.accuracy;
    var tiedAccuracy := IsClose(report.accuracy, bestReport.accuracy);
    betterConfidence || (tiedConfidence && betterAccuracy) || (tiedConfidence && tiedAccuracy && threshold > best)
  }

  /** The threshold held after the first `i` grid points, when `run` scores a threshold. */
  function BestAfter(run: real -> BacktestReport, first: real, step: real, i: nat): real {
    if i == 0 then first
    else
      var best, next := BestAfter(run, first, step, i - 1), GridPoint(first, step, i - 1);
      if Prefers(run(next), next, run(best), best) then next else best
  }

  /** `t` is the largest of those first `n` grid points that get the most cases right. */
  ghost predicate LargestBest(suite: seq<HistoricalCase>, base: real, first: real, step: real, n: nat, t: real) {
    && (exists i :: 0 <= i < n && t == GridPoint(first, step, i))
    && (forall i :: 0 <= i < n ==>
          var g := GridPoint(first, step, i);
          CorrectCount(suite, base, g) < CorrectCount(suite, base, t)
          || (CorrectCount(suite, base, g) == CorrectCount(suite, base, t) && g <= t))
  }

  datatype TuneResult = Tuned(threshold: real, report: BacktestReport) | ZeroDivision

  /** The reports the search compares, by threshold. */
  function Runner(suite: seq<HistoricalCase>, base: real, target: real, sqrt: real -> real): real -> BacktestReport
    requires ComputesSqrt(sqrt)
  {
    (t: real) => RunHistoricalBacktest(suite, base, t, target, sqrt)
  }

  /** `tune_alert_threshold`. `first`, `last` and `step` are its min_threshold, max_threshold and step. */
  method TuneAlertThreshold(suite: seq<HistoricalCase>, base: real, first: real, last: real, step: real, target: real,
                            sqrt: real -> real)
    returns (r: TuneResult)
    requires ComputesSqrt(sqrt)
    ensures r.ZeroDivision? <==> step == 0.0
    ensures r.Tuned? ==> r.report == RunHistoricalBacktest(suite, base, r.threshold, target, sqrt)
    ensures r.Tuned? ==>
              r.threshold == BestAfter(Runner(suite, base, target, sqrt), first, step, GridSize(first, last, step))
    ensures r.Tuned? && |suite| < 1_000_000_000 ==>
              LargestBest(suite, base, first, step, NonEmptyGridSize(first, last, step), r.threshold)
  {
    if step == 0.0 {
      return ZeroDivision;
    }
    var run := Runner(suite, base, target, sqrt);
    var steps := RoundHalfEven((last - first) / step);
    var bestThreshold, bestReport := ScanGrid(run, first, step, steps);
    r := Tuned(bestThreshold, bestReport);
    if |suite| < 1_000_000_000 {
      FoldIsLargestBest(suite, base, first, step, target, sqrt, GridSize(first, last, step));
    }
  }

  lemma FoldIsLargestBest(suite: seq<HistoricalCase>, base: real, first: real, step: real, target: real,
                          sqrt: real -> real, n: nat)
    requires ComputesSqrt(sqrt) && |suite| < 1_000_000_000
    ensures LargestBest(suite, base, first, step, if n == 0 then 1 else n,
                        BestAfter(Runner(suite, base, target, sqrt), first, step, n))
  {
    if n == 0 {
      StartIsBestOfOne(suite, base, first, step);
    } else {
      SearchIsOptimal(Runner(suite, base, target, sqrt), suite, base, first, step, target, sqrt, n);
    }
  }

  lemma StartIsBestOfOne(suite: seq<HistoricalCase>, base: real, first: real, step: real)
    ensures LargestBest(suite, base, first, step, 1, first)
  {
    assert GridPoint(first, step, 0) == first;
  }

  /** The loop of `tune_alert_threshold`: `range(steps + 1)` is empty for negative `steps`. */
  method ScanGrid(run: real -> BacktestReport, first: real, step: real, steps: int)
    returns (bestThreshold: real, bestReport: BacktestReport)
    ensures bestReport == run(bestThreshold)
    ensures bestThreshold == BestAfter(run, first, step, if steps < 0 then 0 else steps + 1)
  {
    bestThreshold := first;
    bestReport := run(first);
    var i := 0;
    while i < steps + 1
      invariant 0 <= i <= if steps < 0 then 0 else steps + 1
      invariant bestThreshold == BestAfter(run, first, step, i)
      invariant bestReport == run(bestThreshold)
    {
      var threshold := GridPoint(first, step, i);
      var report := run(threshold);
      if Prefers(report, threshold, bestReport, bestThreshold) {
        bestThreshold, bestReport := threshold, report;
      }
      i := i + 1;
    }
  }

  /** How many thresholds the loop visits. */
  function GridSize(first: real, last: real, step: real): nat
    requires step != 0.0
  {
    var steps := RoundHalfEven((last - first) / step);
    if steps < 0 then 0 else steps + 1
  }

  /** The starting threshold counts even when the loop visits none. */
  function NonEmptyGridSize(first: real, last: real, step: real): nat
    requires step != 0.0
  {
    if GridSize(first, last, step) == 0 then 1 else GridSize(first, last, step)
  }

  /** The last grid point is the multiple of the step nearest to max_threshold. */
  lemma GridEndsNearMaximum(first: real, last: real, step: real)
    requires step > 0.0 && first <= last
    ensures GridSize(first, last, step) > 0
    ensures Abs(GridPoint(first, step, GridSize(first, last, step) - 1) - last) <= 0.5 * step
  {
    var x := (last - first) / step;
    DivMul(last - first, step);
    CancelLe(0.0, x, step);
    var k := RoundHalfEven(x) as real;
    assert RoundHalfEven(x) >= 0;
    assert (k - x) * step == k * step - (last - first);
    if k >= x {
      MulNonNegative(0.5 - (k - x), step);
      assert (0.5 - (k - x)) * step == 0.5 * step - (k - x) * step;
      MulNonNegative(k - x, step);
    } else {
      MulNonNegative(0.5 - (x - k), step);
      assert (0.5 - (x - k)) * step == 0.5 * step + (k - x) * step;
      MulNonNegative(x - k, step);
      assert (x - k) * step == -((k - x) * step);
    }
  }

  /** Below 10^9 cases the tolerances never confuse two different counts. */
  lemma PrefersExactly(suite: seq<HistoricalCase>, base: real, s: real, t: real, target: real, sqrt: real -> real)
    requires ComputesSqrt(sqrt) && |suite| < 1_000_000_000
    ensures Prefers(RunHistoricalBacktest(suite, base, t, target, sqrt), t,
                    RunHistoricalBacktest(suite, base, s, target, sqrt), s)
            <==> Ahead(suite, base, t, s)
  {
    var a, b := RunHistoricalBacktest(suite, base, s, target, sqrt),
      RunHistoricalBacktest(suite, base, t, target, sqrt);
    ReportCountsAgree(suite, base, s, target, sqrt);
    ReportCountsAgree(suite, base, t, target, sqrt);
    ConfidenceFollowsCorrect(a, b, suite, suite, base, s, t, target, sqrt);
    ConfidenceFollowsCorrect(b, a, suite, suite, base, t, s, target, sqrt);
    if b.correct < a.correct {
      AccuracyNotClose(b.correct, a.correct, |suite|);
    }
    PrefersFromFacts(a, b, s, t);
  }

  lemma AccuracyNotClose(few: nat, many: nat, total: nat)
    requires few < many <= total < 1_000_000_000
    ensures !IsClose(Ratio(few, total), Ratio(many, total))
  {
    AccuracyGap(few, many, total);
    ExceedsTolerance(Ratio(many, total) - Ratio(few, total), total as real, (many - few) as real);
  }

  lemma ExceedsTolerance(gap: real, n: real, d: real)
    requires 0.0 < n < 1000000000.0 && d >= 1.0 && IsProduct(gap, n, d)
    ensures gap > ABS_TOL
  {
    CancelLt(ABS_TOL, gap, n);
  }

  lemma WithinTolerance(gap: real, n: real)
    requires n >= 1000000000.0 && IsProduct(gap, n, 1.0)
    ensures 0.0 < gap <= ABS_TOL
  {
    CancelLt(0.0, gap, n);
    CancelLe(gap, ABS_TOL, n);
  }

  lemma PrefersFromFacts(a: BacktestReport, b: BacktestReport, s: real, t: real)
    requires a.correct == b.correct ==> a.confidenceRate == b.confidenceRate && a.accuracy == b.accuracy
    requires a.correct < b.correct ==> a.confidenceRate < b.confidenceRate
    requires b.correct < a.correct ==>
               b.confidenceRate < a.confidenceRate && b.accuracy < a.accuracy && !IsClose(b.accuracy, a.accuracy)
    ensures Prefers(b, t, a, s) <==> b.correct > a.correct || (b.correct == a.correct && t > s)
  {
  }

  ghost predicate Scores(run: real -> BacktestReport, suite: seq<HistoricalCase>, base: real, target: real,
                         sqrt: real -> real) {
    forall t :: run(t) == RunHistoricalBacktest(suite, base, t, target, sqrt)
  }

  /** Whoever gets more cases right is preferred; among equals, the higher threshold. */
  predicate Ahead(suite: seq<HistoricalCase>, base: real, t: real, s: real) {
    CorrectCount(suite, base, t) > CorrectCount(suite, base, s)
    || (CorrectCount(suite, base, t) == CorrectCount(suite, base, s) && t > s)
  }

  ghost predicate ComparesCounts(run: real -> BacktestReport, suite: seq<HistoricalCase>, base: real) {
    forall s, t :: Prefers(run(t), t, run(s), s) <==> Ahead(suite, base, t, s)
  }

  lemma SmallSuitesCompareCounts(run: real -> BacktestReport, suite: seq<HistoricalCase>, base: real, target: real,
                                 sqrt: real -> real)
    requires ComputesSqrt(sqrt) && Scores(run, suite, base, target, sqrt) && |suite| < 1_000_000_000
    ensures ComparesCounts(run, suite, base)
  {
    forall s, t ensures Prefers(run(t), t, run(s), s) <==> Ahead(suite, base, t, s) {
      PrefersExactly(suite, base, s, t, target, sqrt);
    }
  }

  lemma {:induction false} ScanFindsLargestBest(run: real -> BacktestReport, suite: seq<HistoricalCase>, base: real,
                                                first: real, step: real, n: nat)
    requires ComparesCounts(run, suite, base) && n > 0
    ensures LargestBest(suite, base, first, step, n, BestAfter(run, first, step, n))
  {
    var next, best := GridPoint(first, step, n - 1), BestAfter(run, first, step, n - 1);
    assert Prefers(run(next), next, run(best), best) <==> Ahead(suite, base, next, best);
    if n == 1 {
      assert next == first;
    } else {
      ScanFindsLargestBest(run, suite, base, first, step, n - 1);
      var i :| 0 <= i < n - 1 && best == GridPoint(first, step, i);
    }
  }

  /** Threshold search is optimal for suites below 10^9 cases. */
  lemma SearchIsOptimal(run: real -> BacktestReport, suite: seq<HistoricalCase>, base: real,
                        first: real, step: real, target: real, sqrt: real -> real, n: nat)
    requires ComputesSqrt(sqrt) && Scores(run, suite, base, target, sqrt)
    requires |suite| < 1_000_000_000 && n > 0
    ensures LargestBest(suite, base, first, step, n, BestAfter(run, first, step, n))
  {
    SmallSuitesCompareCounts(run, suite, base, target, sqrt);
    ScanFindsLargestBest(run, suite, base, first, step, n);
  }

  // ---- the bound on the suite is exact ----

  const HIT := HistoricalCase(true, Financial, [Reading(0.5, 0.0)])
  const MISS := HistoricalCase(true, Financial, [])

  /** One positive case scoring 0.5 among positive cases scoring 0. */
  function OneHit(n: nat): (suite: seq<HistoricalCase>)
    requires n > 0
    ensures |suite| == n
  {
    [HIT] + seq(n - 1, _ => MISS)
  }

  lemma {:induction false} MissesCountZero(n: nat, threshold: real)
    requires threshold > 0.0
    ensures CorrectCount(seq(n, _ => MISS), 0.0, threshold) == 0
  {
    var misses := seq(n, _ => MISS);
    if n > 0 {
      ResultsTail(misses, 0.0, threshold);
      assert misses[1..] == seq(n - 1, _ => MISS);
      MissesCountZero(n - 1, threshold);
    }
  }

  lemma OneHitCounts(n: nat)
    requires n > 0
    ensures CorrectCount(OneHit(n), 0.0, 0.4) == 1
    ensures CorrectCount(OneHit(n), 0.0, 0.6) == 0
  {
    var suite := OneHit(n);
    assert suite[1..] == seq(n - 1, _ => MISS);
    assert HIT.readings[..0] == [];
    ResultsTail(suite, 0.0, 0.4);
    ResultsTail(suite, 0.0, 0.6);
    MissesCountZero(n - 1, 0.4);
    MissesCountZero(n - 1, 0.6);
  }

  /** With a single success the lower end is at most 1 / (total + z^2). */
  lemma LowerOfOneIsSmall(n: nat, z: real, sqrt: real -> real)
    requires ComputesSqrt(sqrt) && n >= 1_000_000_000 && z >= 0.0
    ensures 0.0 <= Lower(1, n, z, sqrt) <= ABS_TOL
  {
    var total, z2 := n as real, z * z;
    var e := total + z2;
    var q, c, m := Cleared(1, n, z, sqrt, 1.0, total, z2, e);
    EndsAreOrdered(1, n, z, sqrt);
    HalfZBelow(1.0, total, z, z2, q);
    MulNonNegative(z, q - z / 2.0);
    SmallLower(c, m, z, z2, q, e);
  }

  lemma SmallLower(c: real, m: real, z: real, z2: real, q: real, e: real)
    requires e >= 1000000000.0 && z2 == z * z && z * (q - z / 2.0) >= 0.0
    requires IsProduct(c, e, 1.0 + z2 / 2.0) && IsProduct(m, e, z * q)
    ensures c - m <= ABS_TOL
  {
    assert z * (q - z / 2.0) == z * q - z2 / 2.0;
    assert (c - m) * e == c * e - m * e;
    CancelLe(c - m, ABS_TOL, e);
  }

  /** From 10^9 cases on the tolerances hide a whole case: the search gives up the better
      threshold 0.4 for the higher 0.6. */
  lemma SearchCanMissTheBest(n: nat, target: real, sqrt: real -> real)
    requires ComputesSqrt(sqrt) && n >= 1_000_000_000
    ensures Prefers(RunHistoricalBacktest(OneHit(n), 0.0, 0.6, target, sqrt), 0.6,
                    RunHistoricalBacktest(OneHit(n), 0.0, 0.4, target, sqrt), 0.4)
    ensures CorrectCount(OneHit(n), 0.0, 0.6) < CorrectCount(OneHit(n), 0.0, 0.4)
  {
    var suite := OneHit(n);
    var a, b := RunHistoricalBacktest(suite, 0.0, 0.4, target, sqrt),
      RunHistoricalBacktest(suite, 0.0, 0.6, target, sqrt);
    OneHitCounts(n);
    ReportCountsAgree(suite, 0.0, 0.4, target, sqrt);
    ReportCountsAgree(suite, 0.0, 0.6, target, sqrt);
    LowerOfOneIsSmall(n, Z95, sqrt);
    PerfectRecord(n, Z95, sqrt);
    EndsAreOrdered(0, n, Z95, sqrt);
    EndsAreOrdered(1, n, Z95, sqrt);
    AccuracyGap(0, 1, n);
    WithinTolerance(Ratio(1, n) - Ratio(0, n), n as real);
    TiedReportsPreferHigher(a, b);
  }

  lemma TiedReportsPreferHigher(a: BacktestReport, b: BacktestReport)
    requires IsClose(b.confidenceRate, a.confidenceRate) && IsClose(b.accuracy, a.accuracy)
    ensures Prefers(b, 0.6, a, 0.4)
  {
  }

  /** The search returns the largest best threshold for every suite of `n` cases and every grid. */
  ghost predicate AlwaysOptimal(n: nat, target: real, sqrt: real -> real) {
    forall run, suite, base, first, step, size: nat ::
      |suite| == n && size > 0 && Scores(run, suite, base, target, sqrt) ==>
        LargestBest(suite, base, first, step, size, BestAfter(run, first, step, size))
  }

  lemma TwoPointSearch(run: real -> BacktestReport)
    requires Prefers(run(0.6), 0.6, run(0.4), 0.4)
    ensures BestAfter(run, 0.4, 0.2, 2) == 0.6
  {
    assert GridPoint(0.4, 0.2, 0) == 0.4 && GridPoint(0.4, 0.2, 1) == 0.6;
    assert BestAfter(run, 0.4, 0.2, 1) == 0.4;
  }

  /** The exact condition: the search is optimal on all suites of a size if and only if that
      size is below 10^9. */
  lemma OptimalIffBelowBillion(n: nat, target: real, sqrt: real -> real)
    requires ComputesSqrt(sqrt)
    ensures AlwaysOptimal(n, target, sqrt) <==> n < 1_000_000_000
  {
    if n < 1_000_000_000 {
      forall run, suite, base, first, step, size: nat
        | |suite| == n && size > 0 && Scores(run, suite, base, target, sqrt)
        ensures LargestBest(suite, base, first, step, size, BestAfter(run, first, step, size))
      {
        SearchIsOptimal(run, suite, base, first, step, target, sqrt, size);
      }
    } else {
      var suite := OneHit(n);
      var run := t => RunHistoricalBacktest(suite, 0.0, t, target, sqrt);
      SearchCanMissTheBest(n, target, sqrt);
      TwoPointSearch(run);
      assert GridPoint(0.4, 0.2, 0) == 0.4;
      assert !LargestBest(suite, 0.0, 0.4, 0.2, 2, 0.6);
      assert Scores(run, suite, 0.0, target, sqrt);
    }
  }
}
