/** The intrinsic P/E of a consistent compounder and its degree of overvaluation
    (Apps.py, `calculate_intrinsic_pe` and the overvaluation branch of `main`). */
module Valuation {
  import opened Wrappers

  /** `x ** k` for a whole exponent. */
  function Pow(x: real, k: nat): (r: real)
    ensures x > 0.0 ==> r > 0.0
    ensures x != 0.0 ==> r != 0.0
  {
    if k == 0 then 1.0 else x * Pow(x, k - 1)
  }

  // ---------------------------------------------------------------------------------------
  // The growth-rate schedule

  /** The growth rate of year `i` (lines 190-194). During the high-growth period it is the
      high-growth rate; afterwards `remaining` counts the fade years left including this one,
      so the first fade year gets exactly the terminal rate and later years climb back toward
      the high-growth rate. The fade branch divides by `fade`, which is positive there. */
  function GrowthRate(i: nat, hgr: real, hgp: int, fade: int, tgr: real): (g: real)
    requires i < hgp + fade
    ensures i < hgp ==> g == hgr
    ensures i == hgp ==> g == tgr
    ensures hgp <= i ==> fade > 0 && g == tgr + (hgr - tgr) * ((i - hgp) as real / fade as real)
  {
    if i < hgp then
      hgr
    else
      var remaining := fade - (i - hgp);
      hgr - (hgr - tgr) * (remaining as real / fade as real)
  }

  /** The number of years the loop runs: `range(hgp + fade)`, empty when the sum is not
      positive. */
  function Horizon(hgp: int, fade: int): nat {
    if hgp + fade > 0 then hgp + fade else 0
  }

  /** The growth rates of the loop's years, in order. */
  function Schedule(hgr: real, hgp: int, fade: int, tgr: real): (rates: seq<real>)
    ensures |rates| == Horizon(hgp, fade)
    ensures forall i | 0 <= i < |rates| && i < hgp :: rates[i] == hgr
    ensures 0 <= hgp < |rates| ==> rates[hgp] == tgr
    ensures forall i | 0 <= i < |rates| && hgp <= i ::
      rates[i] == tgr + (hgr - tgr) * ((i - hgp) as real / fade as real)
  {
    seq(Horizon(hgp, fade), i requires 0 <= i < Horizon(hgp, fade) => GrowthRate(i, hgr, hgp, fade, tgr))
  }

  /** Real-number facts the schedule proofs use. */
  lemma ProductPositive(a: real, b: real)
    requires a > 0.0 && b > 0.0
    ensures a * b > 0.0
  {
  }

  lemma ProductNonNegative(a: real, b: real)
    requires a >= 0.0 && b >= 0.0
    ensures a * b >= 0.0
  {
  }

  lemma FractionOfFade(k: int, fade: int)
    requires 0 <= k < fade
    ensures 0.0 <= k as real / fade as real < 1.0
  {
    FractionsOrdered(k, fade, fade);
    assert fade as real / fade as real == 1.0;
  }

  lemma FractionsOrdered(k: int, l: int, fade: int)
    requires 0 <= k < l && fade > 0
    ensures 0.0 <= k as real / fade as real < l as real / fade as real
  {
    var f := fade as real;
    assert l as real / f - k as real / f == (l - k) as real / f;
    assert (l - k) as real / f > 0.0;
  }

  /** After the high-growth period the code's rates rise strictly, year by year, from the
      terminal rate toward the high-growth rate, without reaching it, whenever the terminal
      rate is the lower one. */
  lemma FadeClimbsBack(hgr: real, hgp: int, fade: int, tgr: real, i: int, j: int)
    requires tgr < hgr
    requires 0 <= hgp <= i < j < hgp + fade
    ensures var rates := Schedule(hgr, hgp, fade, tgr);
      tgr <= rates[i] < rates[j] < hgr
  {
    var ri, ti := RateAfterPeak(hgr, hgp, fade, tgr, i);
    var rj, tj := RateAfterPeak(hgr, hgp, fade, tgr, j);
    assert 0.0 <= ti < tj < 1.0 by {
      FractionOfFade(j - hgp, fade);
      FractionsOrdered(i - hgp, j - hgp, fade);
    }
    InterpolationOrdered(hgr, tgr, ti, tj, ri, rj);
  }

  /** A rate of the fade, read off the schedule, as the point at fraction `t` of the way
      from the terminal rate to the high-growth rate. */
  lemma RateAfterPeak(hgr: real, hgp: int, fade: int, tgr: real, i: int) returns (r: real, t: real)
    requires 0 <= hgp <= i < hgp + fade
    ensures r == Schedule(hgr, hgp, fade, tgr)[i]
    ensures t == (i - hgp) as real / fade as real
    ensures r == tgr + (hgr - tgr) * t
  {
    r := Schedule(hgr, hgp, fade, tgr)[i];
    t := (i - hgp) as real / fade as real;
  }

  /** Moving a point of the segment from `tgr` to `hgr` further along raises it. */
  lemma InterpolationOrdered(hgr: real, tgr: real, ti: real, tj: real, ri: real, rj: real)
    requires tgr < hgr && 0.0 <= ti < tj < 1.0
    requires ri == tgr + (hgr - tgr) * ti && rj == tgr + (hgr - tgr) * tj
    ensures tgr <= ri < rj < hgr
  {
    var d := hgr - tgr;
    ProductPositive(d, tj - ti);
    assert d * tj - d * ti == d * (tj - ti);
    ProductPositive(d, 1.0 - tj);
    assert d - d * tj == d * (1.0 - tj);
    ProductNonNegative(d, ti);
  }

  // ---------------------------------------------------------------------------------------
  // The discounted sum and the intrinsic P/E

  /** The running total of the loop after its years 0 .. |rates|-1:
      the sum of `(1 + g_i) / (1 + coc) ** (i + 1)`. */
  function DiscountSum(rates: seq<real>, coc: real): (sum: real)
    requires 1.0 + coc != 0.0
    decreases |rates|
  {
    if |rates| == 0 then
      0.0
    else
      var n := |rates|;
      DiscountSum(rates[..n - 1], coc) + (1.0 + rates[n - 1]) / Pow(1.0 + coc, n)
  }

  /** When money is worth more tomorrow than nothing (`coc > -1`) and every year grows the
      business (`g > -1`), the discounted sum is positive. */
  lemma {:induction false} DiscountSumPositive(rates: seq<real>, coc: real)
    requires coc > -1.0
    requires forall i | 0 <= i < |rates| :: rates[i] > -1.0
    ensures |rates| > 0 ==> DiscountSum(rates, coc) > 0.0
    ensures DiscountSum(rates, coc) >= 0.0
    decreases |rates|
  {
    if |rates| > 0 {
      var n := |rates|;
      DiscountSumPositive(rates[..n - 1], coc);
      var p := Pow(1.0 + coc, n);
      assert (1.0 + rates[n - 1]) / p > 0.0;
    }
  }

  /** Raising any year's growth rate never lowers the discounted sum. */
  lemma {:induction false} DiscountSumMonotone(low: seq<real>, high: seq<real>, coc: real)
    requires coc > -1.0
    requires |low| == |high|
    requires forall i | 0 <= i < |low| :: low[i] <= high[i]
    ensures DiscountSum(low, coc) <= DiscountSum(high, coc)
    decreases |low|
  {
    if |low| > 0 {
      var n := |low|;
      DiscountSumMonotone(low[..n - 1], high[..n - 1], coc);
      var p := Pow(1.0 + coc, n);
      assert (1.0 + low[n - 1]) / p <= (1.0 + high[n - 1]) / p by {
        assert p > 0.0;
        assert 1.0 + low[n - 1] <= 1.0 + high[n - 1];
      }
    }
  }

  /** The loop and the final division of `calculate_intrinsic_pe` for a given schedule of
      growth rates: the discounted sum divided by `roce - coc`. Python raises
      ZeroDivisionError when `roce == coc`, and also when `coc == -1` and the loop runs at
      least once, since `0 ** (i + 1)` is zero. */
  function IntrinsicFromRates(rates: seq<real>, coc: real, roce: real): (r: Result<real>)
    ensures r == Raised(ZeroDivision) <==> roce == coc || (1.0 + coc == 0.0 && |rates| > 0)
    ensures r.Ok? && |rates| == 0 ==> r.value == 0.0
    ensures r.Ok? && |rates| > 0 ==> 1.0 + coc != 0.0 && r.value * (roce - coc) == DiscountSum(rates, coc)
  {
    if 1.0 + coc == 0.0 && |rates| > 0 then
      Raised(ZeroDivision)
    else if roce == coc then
      Raised(ZeroDivision)
    else if |rates| == 0 then
      Ok(0.0)
    else
      Ok(DiscountSum(rates, coc) / (roce - coc))
  }

  /** `calculate_intrinsic_pe` (lines 187-197), with the code's schedule. */
  function CalculateIntrinsicPe(coc: real, roce: real, hgr: real, hgp: int, fade: int, tgr: real): (r: Result<real>)
    ensures r == Raised(ZeroDivision) <==> roce == coc || (1.0 + coc == 0.0 && Horizon(hgp, fade) > 0)
    ensures r.Ok? && Horizon(hgp, fade) == 0 ==> r.value == 0.0
    ensures r.Ok? && Horizon(hgp, fade) > 0 ==>
      1.0 + coc != 0.0 && r.value * (roce - coc) == DiscountSum(Schedule(hgr, hgp, fade, tgr), coc)
  {
    IntrinsicFromRates(Schedule(hgr, hgp, fade, tgr), coc, roce)
  }

  /** With a positive cost of capital and growth rates above -100%, the intrinsic P/E is
      defined unless the return on capital equals the cost of capital, and it is positive
      exactly when the return on capital exceeds the cost of capital. */
  lemma IntrinsicPeSign(coc: real, roce: real, hgr: real, hgp: int, fade: int, tgr: real)
    requires 0.0 < coc && roce != coc
    requires hgr > -1.0 && tgr > -1.0
    requires Horizon(hgp, fade) > 0
    ensures CalculateIntrinsicPe(coc, roce, hgr, hgp, fade, tgr).Ok?
    ensures CalculateIntrinsicPe(coc, roce, hgr, hgp, fade, tgr).value > 0.0 <==> roce > coc
    ensures CalculateIntrinsicPe(coc, roce, hgr, hgp, fade, tgr).value != 0.0
  {
    var rates := Schedule(hgr, hgp, fade, tgr);
    ScheduleAboveMinusOne(hgr, hgp, fade, tgr);
    DiscountSumPositive(rates, coc);
    QuotientSign(DiscountSum(rates, coc), roce - coc);
  }

  lemma QuotientSign(a: real, b: real)
    requires a > 0.0 && b != 0.0
    ensures a / b > 0.0 <==> b > 0.0
    ensures a / b != 0.0
  {
    if b < 0.0 {
      assert a / b == -(a / -b);
    }
  }

  /** Every rate of the schedule lies between the high-growth and terminal rates. */
  lemma ScheduleAboveMinusOne(hgr: real, hgp: int, fade: int, tgr: real)
    requires hgr > -1.0 && tgr > -1.0
    ensures forall i | 0 <= i < |Schedule(hgr, hgp, fade, tgr)| :: Schedule(hgr, hgp, fade, tgr)[i] > -1.0
  {
    var rates := Schedule(hgr, hgp, fade, tgr);
    forall i | 0 <= i < |rates| ensures rates[i] > -1.0 {
      if hgp <= i {
        FractionOfFade(i - hgp, fade);
        RateBetween(hgr, tgr, (i - hgp) as real / fade as real);
      }
    }
  }

  /** A point between two rates above -100% is above -100% too. */
  lemma RateBetween(hgr: real, tgr: real, t: real)
    requires hgr > -1.0 && tgr > -1.0 && 0.0 <= t < 1.0
    ensures tgr + (hgr - tgr) * t > -1.0
  {
    assert tgr + (hgr - tgr) * t == (1.0 - t) * (tgr + 1.0) + t * (hgr + 1.0) - 1.0;
    ProductNonNegative(t, hgr + 1.0);
    ProductPositive(1.0 - t, tgr + 1.0);
  }

  // ---------------------------------------------------------------------------------------
  // The fade schedule as evidently intended

  /** The growth rate of year `i` with a fade that runs from the high-growth rate down to the
      terminal rate: the k-th fade year (counting from 1) moves k/fade of the way. */
  function IntendedGrowthRate(i: nat, hgr: real, hgp: int, fade: int, tgr: real): (g: real)
    requires i < hgp + fade
    ensures i < hgp ==> g == hgr
    ensures hgp <= i ==> fade > 0 && g == tgr + (hgr - tgr) * ((hgp + fade - 1 - i) as real / fade as real)
  {
    if i < hgp then
      hgr
    else
      var done := i - hgp + 1;
      var r := hgr - (hgr - tgr) * (done as real / fade as real);
      assert r == tgr + (hgr - tgr) * ((hgp + fade - 1 - i) as real / fade as real) by {
        FadeComplement(hgr - tgr, done, fade);
      }
      r
  }

  /** `d - d * (k / f) == d * ((f - k) / f)`. */
  lemma FadeComplement(d: real, k: int, fade: int)
    requires fade > 0
    ensures d - d * (k as real / fade as real) == d * ((fade - k) as real / fade as real)
  {
    var f := fade as real;
    var kr := k as real;
    assert (fade - k) as real == f - kr;
    assert (f - kr) / f == f / f - kr / f;
    assert f / f == 1.0;
  }

  /** The intended growth rates of the loop's years, in order. */
  function IntendedSchedule(hgr: real, hgp: int, fade: int, tgr: real): (rates: seq<real>)
    ensures |rates| == Horizon(hgp, fade)
    ensures forall i | 0 <= i < |rates| && i < hgp :: rates[i] == hgr
    ensures forall i | 0 <= i < |rates| && hgp <= i ::
      rates[i] == tgr + (hgr - tgr) * ((hgp + fade - 1 - i) as real / fade as real)
  {
    seq(Horizon(hgp, fade), i requires 0 <= i < Horizon(hgp, fade) => IntendedGrowthRate(i, hgr, hgp, fade, tgr))
  }

  /** The intended schedule fades: when the terminal rate is the lower one the rates never
      rise from one year to the next, stay between the two rates, and the last fade year has
      exactly the terminal rate. */
  lemma IntendedScheduleFades(hgr: real, hgp: int, fade: int, tgr: real)
    requires tgr <= hgr
    ensures var rates := IntendedSchedule(hgr, hgp, fade, tgr);
      && (forall i | 0 <= i < |rates| :: tgr <= rates[i] <= hgr)
      && (forall i | 0 < i < |rates| :: rates[i] <= rates[i - 1])
      && (fade > 0 && |rates| > 0 ==> rates[|rates| - 1] == tgr)
  {
    var rates := IntendedSchedule(hgr, hgp, fade, tgr);
    forall i | 0 <= i < |rates| ensures tgr <= rates[i] <= hgr {
      IntendedRateBetween(hgr, hgp, fade, tgr, i);
    }
    forall i | 0 < i < |rates| ensures rates[i] <= rates[i - 1] {
      IntendedStep(hgr, hgp, fade, tgr, i);
    }
    if fade > 0 && |rates| > 0 {
      IntendedEnd(hgr, hgp, fade, tgr);
    }
  }

  /** No year of the intended schedule has a higher rate than the year before. */
  lemma IntendedStep(hgr: real, hgp: int, fade: int, tgr: real, i: int)
    requires tgr <= hgr && 0 < i < Horizon(hgp, fade)
    ensures IntendedSchedule(hgr, hgp, fade, tgr)[i] <= IntendedSchedule(hgr, hgp, fade, tgr)[i - 1]
  {
    var rates := IntendedSchedule(hgr, hgp, fade, tgr);
    if hgp <= i - 1 {
      var k := hgp + fade - 1 - i;
      FractionsOrdered(k, k + 1, fade);
      PointsOrdered(hgr, tgr, k as real / fade as real, (k + 1) as real / fade as real, rates[i], rates[i - 1]);
    } else {
      IntendedRateBetween(hgr, hgp, fade, tgr, i);
    }
  }

  /** The last year of a fade ends on the terminal rate. */
  lemma IntendedEnd(hgr: real, hgp: int, fade: int, tgr: real)
    requires fade > 0 && Horizon(hgp, fade) > 0
    ensures IntendedSchedule(hgr, hgp, fade, tgr)[hgp + fade - 1] == tgr
  {
    assert (hgp + fade - 1 - (hgp + fade - 1)) as real / fade as real == 0.0;
  }

  /** One year of the intended schedule lies between the two rates. */
  lemma IntendedRateBetween(hgr: real, hgp: int, fade: int, tgr: real, i: int)
    requires tgr <= hgr && 0 <= i < Horizon(hgp, fade)
    ensures tgr <= IntendedSchedule(hgr, hgp, fade, tgr)[i] <= hgr
  {
    if hgp <= i {
      var t := (hgp + fade - 1 - i) as real / fade as real;
      FractionOfFade(hgp + fade - 1 - i, fade);
      PointBetween(hgr, tgr, t, IntendedSchedule(hgr, hgp, fade, tgr)[i]);
    }
  }

  /** A point of the segment from `tgr` to `hgr` lies on it. */
  lemma PointBetween(hgr: real, tgr: real, t: real, r: real)
    requires tgr <= hgr && 0.0 <= t <= 1.0 && r == tgr + (hgr - tgr) * t
    ensures tgr <= r <= hgr
  {
    var d := hgr - tgr;
    ProductNonNegative(d, t);
    ProductNonNegative(d, 1.0 - t);
    assert d - d * t == d * (1.0 - t);
  }

  /** Of two points of the segment from `tgr` up to `hgr`, the one further along is higher. */
  lemma PointsOrdered(hgr: real, tgr: real, s: real, t: real, rs: real, rt: real)
    requires tgr <= hgr && s <= t
    requires rs == tgr + (hgr - tgr) * s && rt == tgr + (hgr - tgr) * t
    ensures rs <= rt
  {
    var d := hgr - tgr;
    ProductNonNegative(d, t - s);
    assert d * t - d * s == d * (t - s);
  }

  /** The code's fade is the intended fade in reverse order: fade year k of the code has the
      rate the intended schedule gives fade year fade-1-k. */
  lemma CodeFadeIsReversed(hgr: real, hgp: int, fade: int, tgr: real, k: int)
    requires 0 <= hgp && 0 <= k < fade
    ensures Schedule(hgr, hgp, fade, tgr)[hgp + k] == IntendedSchedule(hgr, hgp, fade, tgr)[hgp + fade - 1 - k]
  {
  }

  /** The intrinsic P/E with the intended schedule. */
  function IntendedIntrinsicPe(coc: real, roce: real, hgr: real, hgp: int, fade: int, tgr: real): (r: Result<real>)
    ensures r == Raised(ZeroDivision) <==> roce == coc || (1.0 + coc == 0.0 && Horizon(hgp, fade) > 0)
    ensures r.Ok? && Horizon(hgp, fade) == 0 ==> r.value == 0.0
    ensures r.Ok? && Horizon(hgp, fade) > 0 ==>
      1.0 + coc != 0.0 && r.value * (roce - coc) == DiscountSum(IntendedSchedule(hgr, hgp, fade, tgr), coc)
  {
    IntrinsicFromRates(IntendedSchedule(hgr, hgp, fade, tgr), coc, roce)
  }

  /** The worked example of a 2-year high-growth period at 15% and a 2-year fade to 5% at a
      10% cost of capital: the code's schedule climbs back in the last year, the intended one
      keeps falling, and the two intrinsic P/Es differ. */
  lemma FadeRunsBackwards()
    ensures Schedule(0.15, 2, 2, 0.05) == [0.15, 0.15, 0.05, 0.10]
    ensures IntendedSchedule(0.15, 2, 2, 0.05) == [0.15, 0.15, 0.10, 0.05]
    ensures CalculateIntrinsicPe(0.10, 0.20, 0.15, 2, 2, 0.05) == Ok(47065.0 / 1331.0)
    ensures IntendedIntrinsicPe(0.10, 0.20, 0.15, 2, 2, 0.05) == Ok(518215.0 / 14641.0)
  {
    var code := Schedule(0.15, 2, 2, 0.05);
    var intended := IntendedSchedule(0.15, 2, 2, 0.05);
    assert code[2] == 0.05 && code[3] == 0.10;
    assert intended[2] == 0.10 && intended[3] == 0.05;
    assert Pow(1.1, 1) == 1.1 && Pow(1.1, 2) == 1.21 && Pow(1.1, 3) == 1.331 && Pow(1.1, 4) == 1.4641;
    assert code[..3][..2][..1] == [0.15] && code[..3][..2] == [0.15, 0.15] && code[..3] == [0.15, 0.15, 0.05];
    assert intended[..3][..2][..1] == [0.15] && intended[..3][..2] == [0.15, 0.15] && intended[..3] == [0.15, 0.15, 0.10];
    assert DiscountSum([0.15], 0.10) == 1.15 / 1.1;
    assert DiscountSum([0.15, 0.15], 0.10) == 1.15 / 1.1 + 1.15 / 1.21;
    assert DiscountSum([0.15, 0.15, 0.05], 0.10) == 1.15 / 1.1 + 1.15 / 1.21 + 1.05 / 1.331;
    assert DiscountSum(code, 0.10) == 1.15 / 1.1 + 1.15 / 1.21 + 1.05 / 1.331 + 1.10 / 1.4641;
    assert DiscountSum([0.15, 0.15, 0.10], 0.10) == 1.15 / 1.1 + 1.15 / 1.21 + 1.10 / 1.331;
    assert DiscountSum(intended, 0.10) == 1.15 / 1.1 + 1.15 / 1.21 + 1.10 / 1.331 + 1.05 / 1.4641;
  }

  // ---------------------------------------------------------------------------------------
  // Degree of overvaluation

  /** Python truthiness of an optional number: present and non-zero. */
  predicate Truthy(x: Option<real>) {
    x.Some? && x.value != 0.0
  }

  function Min(a: real, b: real): (m: real)
    ensures m <= a && m <= b && (m == a || m == b)
  {
    if a <= b then a else b
  }

  /** The overvaluation branch of `main` (lines 240-248): only when both multiples are truthy,
      the lower of the two over the intrinsic P/E, less one. */
  function Overvaluation(current: Option<real>, fy: Option<real>, intrinsic: real): (r: Result<Option<real>>)
    ensures !(Truthy(current) && Truthy(fy)) ==> r == Ok(None)
    ensures Truthy(current) && Truthy(fy) && intrinsic == 0.0 ==> r == Raised(ZeroDivision)
    ensures Truthy(current) && Truthy(fy) && intrinsic != 0.0 ==>
      && r.Ok? && r.value.Some?
      && r.value.value + 1.0 == Min(current.value, fy.value) / intrinsic
  {
    if !(Truthy(current) && Truthy(fy)) then
      Ok(None)
    else if intrinsic == 0.0 then
      Raised(ZeroDivision)
    else if current.value < fy.value then
      Ok(Some(current.value / intrinsic - 1.0))
    else
      Ok(Some(fy.value / intrinsic - 1.0))
  }

  /** The two branches amount to taking the minimum: swapping the multiples changes nothing. */
  lemma OvervaluationSymmetric(current: Option<real>, fy: Option<real>, intrinsic: real)
    ensures Overvaluation(current, fy, intrinsic) == Overvaluation(fy, current, intrinsic)
  {
    if Truthy(current) && Truthy(fy) && intrinsic != 0.0 {
      var a, b := Overvaluation(current, fy, intrinsic).value.value, Overvaluation(fy, current, intrinsic).value.value;
      assert a + 1.0 == b + 1.0;
    }
  }

  /** Against a positive intrinsic P/E, the stock is overvalued (a positive degree) exactly
      when both observed multiples exceed it. */
  lemma OvervaluedIffBothAbove(current: real, fy: real, intrinsic: real)
    requires current != 0.0 && fy != 0.0 && intrinsic > 0.0
    ensures Overvaluation(Some(current), Some(fy), intrinsic).Ok?
    ensures var d := Overvaluation(Some(current), Some(fy), intrinsic).value.value;
      d > 0.0 <==> current > intrinsic && fy > intrinsic
  {
    var m := Min(current, fy);
    var d := Overvaluation(Some(current), Some(fy), intrinsic).value.value;
    assert d + 1.0 == m / intrinsic;
    assert d > 0.0 <==> m / intrinsic > 1.0;
    assert m / intrinsic > 1.0 <==> m > intrinsic by {
      assert (m / intrinsic) * intrinsic == m;
    }
  }
}
