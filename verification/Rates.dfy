/** The control rate on its way from the configuration to the runtime. Divisions are exact. */
module Rates {
  import opened Arithmetic
  import opened IconHwmController

  const NANOS := 1_000_000_000

  /** `std::nano::den / get_update_rate()`. */
  function ControlPeriodNs(updateRate: nat): nat
    requires updateRate > 0
  {
    NANOS / updateRate
  }

  function Abs(x: int): nat {
    if x < 0 then -x else x
  }

  /** Rounds a quotient, ties to even. */
  function RoundDiv(a: nat, b: nat): nat
    requires b > 0
  {
    var q, r := a / b, a % b;
    if 2 * r < b then q
    else if 2 * r > b then q + 1
    else if q % 2 == 0 then q else q + 1
  }

  /** The result is the nearest integer, and the even one of two equally near. */
  lemma {:induction false} RoundDivIsNearest(a: nat, b: nat)
    requires b > 0
    ensures 2 * Abs(a - RoundDiv(a, b) * b) <= b
    ensures 2 * Abs(a - RoundDiv(a, b) * b) == b ==> RoundDiv(a, b) % 2 == 0
  {
    var q, r := a / b, a % b;
    var low, high := q * b, (q + 1) * b;
    assert a == low + r;
    assert high == low + b;
    if RoundDiv(a, b) == q {
      assert RoundDiv(a, b) * b == low;
    } else {
      assert RoundDiv(a, b) * b == high;
    }
  }

  /** `n` is the integer nearest to `numerator / denominator`, and the even one if two are. */
  predicate IsNearest(numerator: int, denominator: int, n: int) {
    || 2 * Abs(numerator - n * denominator) < denominator
    || (2 * Abs(numerator - n * denominator) == denominator && n % 2 == 0)
  }

  lemma {:induction false} OneApart(a: int, b: nat, x: int, y: int)
    requires b > 0 && x < y
    requires 2 * Abs(a - x * b) <= b && 2 * Abs(a - y * b) <= b
    ensures y == x + 1 && 2 * Abs(a - x * b) == b == 2 * Abs(a - y * b)
  {
    var gap := (y - x) * b;
    assert gap == y * b - x * b;
    assert y - x >= 2 ==> gap >= 2 * b;
    assert y == x + 1 ==> gap == b;
  }

  /** No other number is the rounded quotient. */
  lemma {:induction false} RoundDivIs(a: nat, b: nat, x: int)
    requires b > 0
    ensures x == RoundDiv(a, b) <==> IsNearest(a, b, x)
  {
    var r := RoundDiv(a, b);
    RoundDivIsNearest(a, b);
    if x != r && 2 * Abs(a - x * b) <= b {
      if x < r {
        OneApart(a, b, x, r);
      } else {
        OneApart(a, b, r, x);
      }
    }
  }

  datatype ControlRate =
    | Unset
    | FrequencyHz(numerator: int, denominator: nat)
    | PeriodNs(period: int)
  {
    predicate Valid() { FrequencyHz? ==> denominator > 0 }
  }

  /** The frequency launch argument: the nearest frequency of a positive rate, and -1 exactly for
      an unset or non-positive one. */
  method ControlFrequency(rate: ControlRate) returns (controlFrequencyHz: int)
    requires rate.Valid()
    ensures controlFrequencyHz == -1 <==>
            (rate.Unset? || (rate.FrequencyHz? && rate.numerator <= 0) || (rate.PeriodNs? && rate.period <= 0))
    ensures rate.FrequencyHz? && rate.numerator > 0 ==> IsNearest(rate.numerator, rate.denominator, controlFrequencyHz)
    ensures rate.PeriodNs? && rate.period > 0 ==> IsNearest(NANOS, rate.period, controlFrequencyHz)
    ensures controlFrequencyHz == FrequencyOf(rate)
  {
    controlFrequencyHz := -1;
    if rate.FrequencyHz? {
      if rate.numerator > 0 {
        controlFrequencyHz := RoundDiv(rate.numerator, rate.denominator);
        RoundDivIs(rate.numerator, rate.denominator, controlFrequencyHz);
      }
    } else if rate.PeriodNs? {
      if rate.period > 0 {
        controlFrequencyHz := RoundDiv(NANOS, rate.period);
        RoundDivIs(NANOS, rate.period, controlFrequencyHz);
      }
    }
  }

  function FrequencyOf(rate: ControlRate): int
    requires rate.Valid()
  {
    match rate
    case FrequencyHz(n, d) => if n > 0 then RoundDiv(n, d) else -1
    case PeriodNs(p) => if p > 0 then RoundDiv(NANOS, p) else -1
    case Unset => -1
  }

  /** Going to the period and back gives the frequency exactly when the remainder is less than
      half the period (or just half, for an even frequency). */
  lemma {:induction false} RateRoundTripExactly(f: nat)
    requires 1 <= f <= NANOS
    ensures ControlPeriodNs(f) > 0
    ensures var p, r := ControlPeriodNs(f), NANOS % f;
            RoundDiv(NANOS, p) == f <==> 2 * r < p || (2 * r == p && f % 2 == 0)
  {
    var p, r := ControlPeriodNs(f), NANOS % f;
    QuotientAtLeast(NANOS, f, 1);
    assert NANOS == f * p + r;
    if 2 * r <= p {
      QuotientIs(NANOS, p, f, r);
    } else {
      RoundDivIsNearest(NANOS, p);
    }
  }

  /** The round trip holds up to 22360 Hz, and in general whenever 2 (f - 1) < floor(10^9 / f). */
  lemma {:induction false} RateRoundTrip(f: nat)
    requires 1 <= f <= NANOS && (f <= 22360 || 2 * (f - 1) < NANOS / f)
    ensures ControlPeriodNs(f) > 0 && RoundDiv(NANOS, ControlPeriodNs(f)) == f
  {
    if f <= 22360 {
      QuotientAtLeast(NANOS, f, 44721);
    }
    RateRoundTripExactly(f);
  }

  /** It does not hold for every frequency. */
  lemma RoundTripFails()
    ensures RoundDiv(NANOS, ControlPeriodNs(22553)) != 22553
  {
    assert ControlPeriodNs(22553) == 44339;
  }

  /** A configured period passes the check of on_configure exactly when the update rate is the
      nearest frequency, or when no frequency is derived from it: it is not positive, or so long
      (2 s or more) that the nearest frequency is 0, which the check takes as unset. */
  lemma {:induction false} PeriodAcceptedExactly(p: int, updateRate: nat)
    ensures FrequencyAccepted(FrequencyOf(PeriodNs(p)), updateRate) <==>
            p <= 0 || p >= 2 * NANOS || IsNearest(NANOS, p, updateRate)
  {
    if p > 0 {
      var f := RoundDiv(NANOS, p);
      RoundDivIs(NANOS, p, updateRate);
      RoundDivIs(NANOS, p, 0);
      RoundDivBound(NANOS, p);
      assert f > 0 ==> f % 0x1_0000_0000 == f;
    }
  }

  lemma {:induction false} RoundDivBound(a: nat, b: nat)
    requires b > 0
    ensures RoundDiv(a, b) <= a + 1
  {
    assert a == (a / b) * b + a % b;
    TimesPositive(a / b, b);
  }

  /** A configured period that the controller's own update rate yields passes its check. */
  lemma {:induction false} OwnPeriodIsAccepted(updateRate: nat)
    requires 1 <= updateRate <= 22360
    ensures FrequencyAccepted(FrequencyOf(PeriodNs(ControlPeriodNs(updateRate))), updateRate)
  {
    RateRoundTrip(updateRate);
  }

  /** A multiple k f of f that is within f of n, where n is within p / 2 of f p. */
  lemma {:induction false} MultipleNearProduct(n: int, p: nat, f: nat, k: nat, s: nat)
    requires 2 * Abs(n - f * p) <= p && n == k * f + s && s < f
    ensures 2 * (f * Abs(k - p)) <= p + 2 * f
  {
    assert f * k == k * f;
    if k >= p {
      assert f * (k - p) == f * k - f * p;
    } else {
      assert f * (p - k) == f * p - f * k;
    }
  }

  /** The period recovered from a rounded frequency f is within p / (2 f) + 1 ns of p. */
  lemma {:induction false} PeriodError(p: nat)
    requires p > 0 && RoundDiv(NANOS, p) >= 1
    ensures var f := RoundDiv(NANOS, p);
            2 * (f * Abs(ControlPeriodNs(f) - p)) <= p + 2 * f
  {
    var f := RoundDiv(NANOS, p);
    RoundDivIsNearest(NANOS, p);
    assert NANOS == ControlPeriodNs(f) * f + NANOS % f;
    MultipleNearProduct(NANOS, p, f, ControlPeriodNs(f), NANOS % f);
  }
}
