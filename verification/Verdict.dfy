/** What a backtest report says, told from the suite alone: the four counts, the peaks, and the verdict in closed form.
    */
module Verdict {
  import opened Wilson
  import opened Backtest

  // ---- when the lower end reaches a target ----

  /** With k of n and z2 = z^2: k - n t is not negative, and its square is at least z2 n t (1 - t). */
  ghost predicate Clears(k: real, n: real, t: real, z2: real) {
    k >= n * t && (k - n * t) * (k - n * t) >= z2 * (n * (t * (1.0 - t)))
  }

  lemma SignPositive(e: real, x: real, product: real)
    requires e > 0.0 && IsProduct(e, x, product)
    ensures product >= 0.0 <==> x >= 0.0
  {
    if x >= 0.0 { MulNonNegative(e, x); } else { NegativeProduct(e, x); }
  }

  lemma NegativeProduct(e: real, x: real)
    requires e > 0.0 && x < 0.0
    ensures e * x < 0.0
  {
    MulPositive(e, -x);
    assert e * -x == -(e * x);
  }

  lemma SignNegative(a: real, b: real, product: real)
    requires b < 0.0 && IsProduct(a, b, product)
    ensures product >= 0.0 <==> a <= 0.0
  {
    if a > 0.0 {
      NegativeProduct(a, b);
    } else {
      MulNonNegative(-a, -b);
      assert -a * -b == a * b;
    }
  }

  /** A point below the larger root lies at or below the smaller one exactly where the quadratic is not negative. */
  lemma BelowBothRoots(d: real, w: real, n: real, e: real, t: real, lo: real, hi: real)
    requires n > 0.0 && e > 0.0 && RootForm(d, w, n, e, t, lo, hi) && t < hi
    ensures t <= lo <==> d >= w
  {
    var product := (t - lo) * (t - hi);
    SignNegative(t - lo, t - hi, product);
    SignPositive(e, product, e * product);
    assert IsProduct(n, d - w, e * product);
    SignPositive(n, d - w, e * product);
  }

  lemma ProductOrder(x: real, y: real, n: real, xn: real, yn: real)
    requires n > 0.0 && IsProduct(x, n, xn) && IsProduct(y, n, yn)
    ensures x <= y <==> xn <= yn
  {
    assert IsProduct(n, y - x, yn - xn) by { assert n * (y - x) == y * n - x * n; }
    SignPositive(n, y - x, yn - xn);
  }

  lemma QuadraticOfEnds(t: real, successes: int, total: int, z: real, sqrt: real -> real)
    requires ComputesSqrt(sqrt) && 0 <= successes <= total && total > 0
    ensures var n := total as real;
            RootForm(SquaredDistance(t, successes as real / n), Spread(t, z * z, n), n, n + z * z, t,
                     Lower(successes, total, z, sqrt), Upper(successes, total, z, sqrt))
  {
    var k, n, z2 := successes as real, total as real, z * z;
    var q, c, m := Cleared(successes, total, z, sqrt, k, n, z2, n + z2);
    DivMul(k, n);
    RootProduct(k, n, z, z2, n + z2, q, c, m);
    CancelPhat(c, m, n + z2, k / n, k, n);
    FactorQuadratic(t, k / n, k, n, z2, n + z2, c, m);
  }

  /** Clearing the denominators of (t - phat)^2 >= z2 t (1 - t) / n. */
  lemma DistanceCleared(t: real, phat: real, k: real, n: real, z2: real)
    requires n > 0.0 && IsProduct(phat, n, k)
    ensures SquaredDistance(t, phat) >= Spread(t, z2, n)
            <==> (k - n * t) * (k - n * t) >= z2 * (n * (t * (1.0 - t)))
  {
    var d, w := SquaredDistance(t, phat), Spread(t, z2, n);
    DistanceTwice(d, t, phat, k, n);
    SpreadTwice(w, t, z2, n);
    CompareTwice(d, w, n, (k - n * t) * (k - n * t), z2 * (n * (t * (1.0 - t))));
  }

  lemma DistanceTwice(d: real, t: real, phat: real, k: real, n: real)
    requires IsProduct(phat, n, k) && d == SquaredDistance(t, phat)
    ensures IsProduct(d * n, n, (k - n * t) * (k - n * t))
  {
    var x := (phat - t) * n;
    assert x == k - n * t;
    assert d * n * n == x * x;
  }

  lemma SpreadTwice(w: real, t: real, z2: real, n: real)
    requires n > 0.0 && w == Spread(t, z2, n)
    ensures IsProduct(w * n, n, z2 * (n * (t * (1.0 - t))))
  {
    SpreadCleared(t, z2, n);
    var x := t * (1.0 - t);
    assert w * n == z2 * x;
    assert z2 * x * n == z2 * (n * x);
  }

  lemma CompareTwice(d: real, w: real, n: real, dn: real, wn: real)
    requires n > 0.0 && IsProduct(d * n, n, dn) && IsProduct(w * n, n, wn)
    ensures d >= w <==> dn >= wn
  {
    ProductOrder(w, d, n, w * n, d * n);
    ProductOrder(w * n, d * n, n, wn, dn);
  }

  lemma PhatAtLeast(t: real, phat: real, k: real, n: real)
    requires n > 0.0 && IsProduct(phat, n, k)
    ensures t <= phat <==> k >= n * t
  {
    assert IsProduct(t, n, n * t);
    ProductOrder(t, phat, n, n * t, k);
  }

  lemma ShareClears(t: real, k: real, n: real, z2: real)
    requires n > 0.0
    ensures t <= k / n <==> k >= n * t
    ensures SquaredDistance(t, k / n) >= Spread(t, z2, n)
            <==> (k - n * t) * (k - n * t) >= z2 * (n * (t * (1.0 - t)))
  {
    DivMul(k, n);
    PhatAtLeast(t, k / n, k, n);
    DistanceCleared(t, k / n, k, n, z2);
  }

  lemma SquarePositive(z: real, z2: real)
    requires z > 0.0 && z2 == z * z
    ensures z2 > 0.0
  {
    if z2 <= 0.0 {
      MulNonNegativeSquare(z);
      ZeroProduct(z, z);
    }
  }

  lemma SpreadPositive(p: real, z2: real, n: real)
    requires 0.0 < p < 1.0 && z2 > 0.0 && n > 0.0
    ensures Spread(p, z2, n) > 0.0
  {
    MulPositive(z2, p);
    MulPositive(z2 * p, 1.0 - p);
    DivMul(z2 * p * (1.0 - p), n);
    CancelLt(0.0, Spread(p, z2, n), n);
  }

  /** The upper end exceeds the share of successes, unless that is 1. */
  lemma UpperExceeds(successes: int, total: int, z: real, sqrt: real -> real)
    requires ComputesSqrt(sqrt) && 0 <= successes < total && z > 0.0
    ensures successes as real / total as real < Upper(successes, total, z, sqrt)
  {
    var phat := successes as real / total as real;
    EndsAreOrdered(successes, total, z, sqrt);
    if successes == 0 {
      UpperOfNone(total, z, sqrt);
    } else {
      ShareIsNoRoot(successes, total, z);
      EndsAreTheRoots(phat, successes, total, z, sqrt);
    }
  }

  lemma ShareIsNoRoot(successes: int, total: int, z: real)
    requires 0 < successes < total && z > 0.0
    ensures !ScoreEquation(successes as real / total as real, successes, total, z)
  {
    var phat, z2 := successes as real / total as real, z * z;
    ShareInside(successes as real, total as real);
    SquarePositive(z, z2);
    SpreadPositive(phat, z2, total as real);
    NoDistance(phat);
  }

  lemma NoDistance(p: real)
    ensures SquaredDistance(p, p) == 0.0
  {
  }

  lemma ShareInside(k: real, n: real)
    requires 0.0 < k < n
    ensures 0.0 < k / n < 1.0
  {
    DivMul(k, n);
    InsideByProduct(k / n, k, n);
  }

  lemma InsideByProduct(x: real, k: real, n: real)
    requires 0.0 < k < n && IsProduct(x, n, k)
    ensures 0.0 < x < 1.0
  {
    CancelLt(0.0, x, n);
    CancelLt(x, 1.0, n);
  }

  lemma UpperOfNone(total: int, z: real, sqrt: real -> real)
    requires ComputesSqrt(sqrt) && total > 0 && z > 0.0
    ensures Upper(0, total, z, sqrt) > 0.0
  {
    SwapMirrors(total, total, z, sqrt);
    LowerOfAll(total, z, sqrt);
  }

  lemma LowerOfAll(total: int, z: real, sqrt: real -> real)
    requires ComputesSqrt(sqrt) && total > 0 && z > 0.0
    ensures Lower(total, total, z, sqrt) < 1.0
  {
    PerfectRecord(total, z, sqrt);
    var lo, n, z2 := Lower(total, total, z, sqrt), total as real, z * z;
    assert IsProduct(lo, n + z2, n);
    SquarePositive(z, z2);
    LessThanWhole(lo, n, n + z2);
  }

  lemma LessThanWhole(lo: real, n: real, e: real)
    requires 0.0 < n < e && IsProduct(lo, e, n)
    ensures lo < 1.0
  {
    CancelLt(lo, 1.0, e);
  }

  /** Both ends and the share of successes, in their order. */
  lemma EndsAndShare(successes: int, total: int, z: real, sqrt: real -> real)
    requires ComputesSqrt(sqrt) && 0 <= successes <= total && total > 0 && z > 0.0
    ensures var lo, phat, hi := Lower(successes, total, z, sqrt), successes as real / total as real,
                                Upper(successes, total, z, sqrt);
            lo <= phat <= hi <= 1.0 && lo < 1.0 && (phat < hi || phat == 1.0)
  {
    EndsAreOrdered(successes, total, z, sqrt);
    if successes == total {
      LowerOfAll(total, z, sqrt);
      DivMul(successes as real, total as real);
      CancelEq(successes as real / total as real, 1.0, total as real);
    } else {
      UpperExceeds(successes, total, z, sqrt);
      if successes > 0 { ShareInside(successes as real, total as real); }
    }
  }

  /** How the facts combine: `high` says that the share reaches the target, `far` that the quadratic is not
      negative there. */
  lemma Combine(lo: real, phat: real, hi: real, t: real, high: bool, far: bool)
    requires lo <= phat <= hi <= 1.0 && lo < 1.0 && (phat < hi || phat == 1.0)
    requires (t <= phat <==> high) && (t < hi ==> (t <= lo <==> far))
    ensures lo >= t <==> t < 1.0 && high && far
  {
  }

  /** The lower end reaches the target exactly if the target is below 1 and the number of successes clears it. */
  lemma LowerReachesIff(successes: int, total: int, z: real, t: real, sqrt: real -> real)
    requires ComputesSqrt(sqrt) && 0 <= successes <= total && total > 0 && z > 0.0
    ensures Lower(successes, total, z, sqrt) >= t
            <==> t < 1.0 && Clears(successes as real, total as real, t, z * z)
  {
    var lo, phat, hi := Lower(successes, total, z, sqrt), successes as real / total as real,
      Upper(successes, total, z, sqrt);
    var d, w := SquaredDistance(t, phat), Spread(t, z * z, total as real);
    EndsAndShare(successes, total, z, sqrt);
    ReachedBelow(d, w, successes, total, z, t, sqrt);
    Combine(lo, phat, hi, t, t <= phat, d >= w);
    ClearsIff(t, successes as real, total as real, z * z);
  }

  lemma ClearsIff(t: real, k: real, n: real, z2: real)
    requires n > 0.0
    ensures Clears(k, n, t, z2) <==> t <= k / n && SquaredDistance(t, k / n) >= Spread(t, z2, n)
  {
    ShareClears(t, k, n, z2);
  }

  lemma ReachedBelow(d: real, w: real, successes: int, total: int, z: real, t: real, sqrt: real -> real)
    requires ComputesSqrt(sqrt) && 0 <= successes <= total && total > 0 && z > 0.0
    requires d == SquaredDistance(t, successes as real / total as real) && w == Spread(t, z * z, total as real)
    ensures t < Upper(successes, total, z, sqrt) ==> (t <= Lower(successes, total, z, sqrt) <==> d >= w)
  {
    QuadraticOfEnds(t, successes, total, z, sqrt);
    MulPositive(z, z);
    if t < Upper(successes, total, z, sqrt) {
      BelowBothRoots(d, w, total as real, total as real + z * z, t, Lower(successes, total, z, sqrt),
                     Upper(successes, total, z, sqrt));
    }
  }

  // ---- the verdict of a report ----

  /** The verdict goes by the lower end of the interval, in closed form: with c of n cases right, the target t below
      1 must satisfy c >= n t and (c - n t)^2 >= 1.96^2 n t (1 - t). */
  lemma MeetsTargetIff(suite: seq<HistoricalCase>, base: real, threshold: real, target: real, sqrt: real -> real)
    requires ComputesSqrt(sqrt) && suite != []
    ensures var r, c := RunHistoricalBacktest(suite, base, threshold, target, sqrt),
            CorrectCount(suite, base, threshold);
            r.meetsTarget <==> target < 1.0 && Clears(c as real, |suite| as real, target, 3.8416)
  {
    MeetsByLower(suite, base, threshold, target, sqrt);
    LowerReachesIff(CorrectCount(suite, base, threshold), |suite|, 1.96, target, sqrt);
    assert 1.96 * 1.96 == 3.8416;
  }

  lemma MeetsByLower(suite: seq<HistoricalCase>, base: real, threshold: real, target: real, sqrt: real -> real)
    requires ComputesSqrt(sqrt) && suite != []
    ensures RunHistoricalBacktest(suite, base, threshold, target, sqrt).meetsTarget
            <==> Lower(CorrectCount(suite, base, threshold), |suite|, 1.96, sqrt) >= target
  {
    ReportEnds(suite, base, threshold, target, sqrt);
    VerdictIsByConfidence(suite, base, threshold, target, sqrt);
  }

  lemma VerdictIsByConfidence(suite: seq<HistoricalCase>, base: real, threshold: real, target: real, sqrt: real -> real)
    ensures var r := RunHistoricalBacktest(suite, base, threshold, target, sqrt);
            r.meetsTarget <==> r.confidenceRate >= target
  {
  }

  lemma EmptySuiteMeetsIff(base: real, threshold: real, target: real, sqrt: real -> real)
    ensures RunHistoricalBacktest([], base, threshold, target, sqrt).meetsTarget <==> target <= 0.0
  {
  }

  /** A report with all n cases right meets the target exactly if n (1 - target) >= 3.8416 target. */
  lemma AllRightMeetsIff(suite: seq<HistoricalCase>, base: real, threshold: real, target: real, sqrt: real -> real)
    requires ComputesSqrt(sqrt) && suite != [] && CorrectCount(suite, base, threshold) == |suite|
    ensures RunHistoricalBacktest(suite, base, threshold, target, sqrt).meetsTarget
            <==> AllRightSuffice(|suite|, target)
  {
    MeetsByLower(suite, base, threshold, target, sqrt);
    AllReachIff(|suite|, target, sqrt);
  }

  predicate AllRightSuffice(total: nat, target: real) { total as real * (1.0 - target) >= 3.8416 * target }

  lemma AllReachIff(total: nat, target: real, sqrt: real -> real)
    requires ComputesSqrt(sqrt) && total > 0
    ensures Lower(total, total, 1.96, sqrt) >= target <==> AllRightSuffice(total, target)
  {
    PerfectRecordMeetsTarget(total, 1.96, target, sqrt);
    assert target * (1.96 * 1.96) == 3.8416 * target;
  }

  /** Nine of ten right: the accuracy reaches 0.8, the verdict does not. */
  lemma NineOfTenFails(suite: seq<HistoricalCase>, base: real, threshold: real, sqrt: real -> real)
    requires ComputesSqrt(sqrt) && |suite| == 10 && CorrectCount(suite, base, threshold) == 9
    ensures var r := RunHistoricalBacktest(suite, base, threshold, 0.8, sqrt); r.accuracy == 0.9 && !r.meetsTarget
  {
    MeetsTargetIff(suite, base, threshold, 0.8, sqrt);
    ReportRatios(suite, base, threshold, 0.8, sqrt);
  }

  // ---- the counts, as numbers of cases ----

  ghost function Where(rs: seq<CaseResult>, p: CaseResult -> bool): set<int> { set i | 0 <= i < |rs| && p(rs[i]) }

  lemma {:induction false} CountSnoc(rs: seq<CaseResult>, r: CaseResult, p: CaseResult -> bool)
    ensures Count(rs + [r], p) == Count(rs, p) + if p(r) then 1 else 0
  {
    if rs == [] {
      assert rs + [r] == [r] && [r][1..] == [];
    } else {
      assert (rs + [r])[1..] == rs[1..] + [r];
      CountSnoc(rs[1..], r, p);
    }
  }

  lemma {:induction false} CountIsNumber(rs: seq<CaseResult>, p: CaseResult -> bool)
    ensures Count(rs, p) == |Where(rs, p)|
  {
    if rs != [] {
      var last := |rs| - 1;
      var init := rs[..last];
      CountIsNumber(init, p);
      CountSnoc(init, rs[last], p);
      assert rs == init + [rs[last]];
      assert Where(rs, p) == Where(init, p) + if p(rs[last]) then {last} else {};
    }
  }

  /** The cases of the suite with this label for which an alert is raised, or is not. */
  ghost function Cases(suite: seq<HistoricalCase>, base: real, threshold: real, positive: bool,
                       alerted: bool): set<int> {
    set i | 0 <= i < |suite| && suite[i].positive == positive && (Crosses(suite[i], base, threshold) <==> alerted)
  }

  /** The four counts of a report are the numbers of positive and negative cases that crossed or did not. */
  lemma ReportCells(suite: seq<HistoricalCase>, base: real, threshold: real, target: real, sqrt: real -> real)
    ensures var r := RunHistoricalBacktest(suite, base, threshold, target, sqrt);
            && r.truePositives == |Cases(suite, base, threshold, true, true)|
            && r.falseNegatives == |Cases(suite, base, threshold, true, false)|
            && r.falsePositives == |Cases(suite, base, threshold, false, true)|
            && r.trueNegatives == |Cases(suite, base, threshold, false, false)|
            && r.correct == r.truePositives + r.trueNegatives
  {
    CellCount(suite, base, threshold, TP, true, true);
    CellCount(suite, base, threshold, FN, true, false);
    CellCount(suite, base, threshold, FP, false, true);
    CellCount(suite, base, threshold, TN, false, false);
    CountsPartition(Results(suite, base, threshold));
  }

  lemma CellCount(suite: seq<HistoricalCase>, base: real, threshold: real, p: CaseResult -> bool, positive: bool,
                  alerted: bool)
    requires forall r :: p(r) <==> r.expectedAlert == positive && r.alerted == alerted
    ensures Count(Results(suite, base, threshold), p) == |Cases(suite, base, threshold, positive, alerted)|
  {
    var rs := Results(suite, base, threshold);
    CountIsNumber(rs, p);
    forall i | 0 <= i < |suite| ensures rs[i].alerted <==> Crosses(suite[i], base, threshold) {
      AlertIffSomeReadingCrosses(suite[i], base, threshold);
    }
    assert Where(rs, p) == Cases(suite, base, threshold, positive, alerted);
  }

  // ---- accuracy alone does not do ----

  /** Nine controls without a feed, and a crisis without one. */
  const NINE_OF_TEN: seq<HistoricalCase> :=
    seq(10, i requires 0 <= i < 10 => HistoricalCase(i == 9, Financial, []))

  lemma NineAreRight()
    ensures CorrectCount(NINE_OF_TEN, 0.0, 0.5) == 9
  {
    var rs := Results(NINE_OF_TEN, 0.0, 0.5);
    CountIsNumber(rs, CORRECT);
    forall i | 0 <= i < 10 ensures rs[i].correct <==> i < 9 {
      assert NINE_OF_TEN[i] == HistoricalCase(i == 9, Financial, []);
    }
    assert Where(rs, CORRECT) == {0, 1, 2, 3, 4, 5, 6, 7, 8};
  }

  /** The accuracy of this suite is 0.9, yet the report does not meet a target of 0.8. */
  lemma AccuracyIsNotEnough(sqrt: real -> real)
    requires ComputesSqrt(sqrt)
    ensures var r := RunHistoricalBacktest(NINE_OF_TEN, 0.0, 0.5, 0.8, sqrt); r.accuracy == 0.9 && !r.meetsTarget
  {
    NineAreRight();
    NineOfTenFails(NINE_OF_TEN, 0.0, 0.5, sqrt);
  }

  // ---- the results of the cases ----

  /** The greatest of the starting value and the values of the readings. */
  ghost predicate IsPeak(v: real, base: real, readings: seq<Reading>, value: Reading -> real) {
    && v >= base && (forall i :: 0 <= i < |readings| ==> v >= value(readings[i]))
    && (v == base || exists i :: 0 <= i < |readings| && v == value(readings[i]))
  }

  function RiskOf(domain: Domain): Reading -> real { (r: Reading) => DomainRisk(domain, r) }

  const COMPOSITE := (r: Reading) => r.composite

  lemma {:induction false} PeakDomainIsPeak(base: real, domain: Domain, readings: seq<Reading>)
    ensures IsPeak(PeakDomain(base, domain, readings), base, readings, RiskOf(domain))
  {
    if readings != [] {
      PeakDomainIsPeak(base, domain, readings[..|readings| - 1]);
      PeakNext(PeakDomain(base, domain, readings[..|readings| - 1]), base, readings, RiskOf(domain));
    }
  }

  lemma {:induction false} PeakCompositeIsPeak(base: real, readings: seq<Reading>)
    ensures IsPeak(PeakComposite(base, readings), base, readings, COMPOSITE)
  {
    if readings != [] {
      PeakCompositeIsPeak(base, readings[..|readings| - 1]);
      PeakNext(PeakComposite(base, readings[..|readings| - 1]), base, readings, COMPOSITE);
    }
  }

  lemma PeakNext(v: real, base: real, readings: seq<Reading>, value: Reading -> real)
    requires readings != [] && IsPeak(v, base, readings[..|readings| - 1], value)
    ensures IsPeak(Max(v, value(readings[|readings| - 1])), base, readings, value)
  {
    var init := readings[..|readings| - 1];
    assert forall i :: 0 <= i < |init| ==> init[i] == readings[i];
  }

  /** What case `i` of a report says: its label, whether some reading crossed, whether the two agree, and the two peaks
      over its feed. */
  lemma CaseResultSays(suite: seq<HistoricalCase>, base: real, threshold: real, target: real, sqrt: real -> real,
                       i: nat)
    requires i < |suite|
    ensures var rs, c := RunHistoricalBacktest(suite, base, threshold, target, sqrt).caseResults, suite[i];
            && |rs| == |suite| && rs[i].expectedAlert == c.positive
            && (rs[i].alerted <==> Crosses(c, base, threshold))
            && (rs[i].correct <==> (Crosses(c, base, threshold) <==> c.positive))
            && IsPeak(rs[i].peakDomain, base, c.readings, RiskOf(c.domain))
            && IsPeak(rs[i].peakComposite, base, c.readings, COMPOSITE)
  {
    var c := suite[i];
    AlertIffSomeReadingCrosses(c, base, threshold);
    PeakDomainIsPeak(base, c.domain, c.readings);
    PeakCompositeIsPeak(base, c.readings);
  }

  // ---- alerts and rates, without the program's helpers ----

  ghost predicate SomeReading(c: HistoricalCase, value: Reading -> real, threshold: real) {
    exists i :: 0 <= i < |c.readings| && value(c.readings[i]) >= threshold
  }

  const PRIOR := (r: Reading) => r.prior
  const DAMPED := (r: Reading) => r.composite * 0.95

  /** A financial or unrest case is flagged by its prior, a conflict case also by 95 hundredths of the composite risk,
      and a case of any other kind by the composite risk. */
  lemma AlertByReadings(c: HistoricalCase, base: real, threshold: real)
    ensures Evaluate(c, base, threshold).alerted
            <==> match c.domain
                 case OtherDomain => base >= threshold || SomeReading(c, COMPOSITE, threshold)
                 case Conflict => base >= threshold || base * 0.95 >= threshold || SomeReading(c, PRIOR, threshold)
                                  || SomeReading(c, DAMPED, threshold)
                 case _ => base >= threshold || SomeReading(c, PRIOR, threshold)
  {
    AlertIffSomeReadingCrosses(c, base, threshold);
  }

  /** `rate` is `part` of `whole`, and 0 if there is no whole. */
  ghost predicate IsRate(rate: real, part: nat, whole: nat) {
    if whole == 0 then rate == 0.0 else rate * whole as real == part as real
  }

  lemma RatioIsRate(part: nat, whole: nat)
    ensures IsRate(Ratio(part, whole), part, whole)
  {
    if whole > 0 { DivMul(part as real, whole as real); }
  }

  /** Accuracy, sensitivity and specificity are shares of all, of the positive and of the negative cases; on an empty
      suite both ends of the interval are 0. */
  lemma ReportRatesAre(suite: seq<HistoricalCase>, base: real, threshold: real, target: real, sqrt: real -> real)
    ensures var r := RunHistoricalBacktest(suite, base, threshold, target, sqrt);
            && IsRate(r.accuracy, r.truePositives + r.trueNegatives, |suite|)
            && IsRate(r.sensitivity, r.truePositives, r.truePositives + r.falseNegatives)
            && IsRate(r.specificity, r.trueNegatives, r.trueNegatives + r.falsePositives)
            && (suite == [] ==> r.confidenceRate == 0.0 && r.wilsonUpper == 0.0)
            && r.alertThreshold == threshold && r.targetConfidence == target
  {
    var rs := Results(suite, base, threshold);
    var tp, tn, fp, fn := Count(rs, TP), Count(rs, TN), Count(rs, FP), Count(rs, FN);
    CountsPartition(rs);
    RatioIsRate(tp + tn, |suite|);
    RatioIsRate(tp, tp + fn);
    RatioIsRate(tn, tn + fp);
    ReportRatios(suite, base, threshold, target, sqrt);
    ReportRates(suite, base, threshold, target, sqrt);
  }

  /** Among thresholds the accuracy test of the search decides nothing: a better accuracy is a better confidence. */
  lemma AccuracyTestIsDead(suite: seq<HistoricalCase>, base: real, s: real, t: real, target: real, sqrt: real -> real)
    requires ComputesSqrt(sqrt)
    ensures var a, b := RunHistoricalBacktest(suite, base, s, target, sqrt),
                        RunHistoricalBacktest(suite, base, t, target, sqrt);
            a.accuracy < b.accuracy ==> a.confidenceRate < b.confidenceRate
  {
    var a, b := RunHistoricalBacktest(suite, base, s, target, sqrt),
      RunHistoricalBacktest(suite, base, t, target, sqrt);
    ConfidenceFollowsCorrect(a, b, suite, suite, base, s, t, target, sqrt);
    ConfidenceFollowsCorrect(b, a, suite, suite, base, t, s, target, sqrt);
  }

  /** Halves are rounded to the even neighbour. */
  lemma HalvesGoToEven(k: int)
    ensures RoundHalfEven(k as real + 0.5) == if k % 2 == 0 then k else k + 1
  {
    assert (k as real + 0.5).Floor == k;
  }
}
