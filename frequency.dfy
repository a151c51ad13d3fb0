/** Sample-rate arithmetic: the SUMP divider against the protocol's 100 MHz
    reference clock, and the inter-sample delay derived from a frequency. */
module Frequency {

  /** SUMP's reference clock in Hz. */
  const BaseClockHz: nat := 100_000_000

  const MicrosPerSecond: nat := 1_000_000

  /** setupDelay: the sample rate a divider selects, in integer arithmetic. */
  function FrequencyOf(divider: nat): (f: nat)
    ensures f * (divider + 1) <= BaseClockHz < (f + 1) * (divider + 1)
  {
    BaseClockHz / (divider + 1)
  }

  /** setCaptureFrequency: `(1000000.0 / value) - 1` truncated to an unsigned
      integer. For value <= 10^6 that is 10^6 / value - 1 in integer division;
      above 10^6 the quotient minus one lies in (-1, 0) and truncates to 0. */
  function DelayTimeUs(value: nat): (d: nat)
    requires value > 0
    ensures value <= MicrosPerSecond ==> (d + 1) * value <= MicrosPerSecond < (d + 2) * value
    ensures value > MicrosPerSecond ==> d == 0
  {
    if value <= MicrosPerSecond then MicrosPerSecond / value - 1 else 0
  }

  /** A divider below 10^8 selects a non-zero frequency. */
  lemma FrequencyPositive(divider: nat)
    requires divider < BaseClockHz
    ensures FrequencyOf(divider) > 0
  {
  }

  /** When the divider is 100k - 1 and k divides 10^6, the sampling period is
      k microseconds, and the delay between samples is that period less the
      one microsecond a sample is taken to cost. */
  lemma {:induction false} DividerGivesPeriod(divider: nat, k: nat)
    requires divider + 1 == 100 * k && k > 0 && MicrosPerSecond % k == 0
    ensures FrequencyOf(divider) == MicrosPerSecond / k
    ensures DelayTimeUs(FrequencyOf(divider)) == k - 1
  {
    var q := MicrosPerSecond / k;
    assert q * k == MicrosPerSecond;
    assert q * (divider + 1) == BaseClockHz by {
      assert q * (100 * k) == 100 * (q * k);
    }
    assert (q + 1) * (divider + 1) == q * (divider + 1) + (divider + 1);
    FloorUnique(FrequencyOf(divider), q, divider + 1, BaseClockHz);
    assert 0 < q <= MicrosPerSecond;
    var d := DelayTimeUs(q);
    assert (k + 1) * q == k * q + q;
    FloorUnique(d + 1, k, q, MicrosPerSecond);
  }

  /** The quotient of a division is the only number whose multiples bracket
      the dividend. */
  lemma FloorUnique(f: nat, g: nat, n: nat, b: nat)
    requires f * n <= b < (f + 1) * n
    requires g * n <= b < (g + 1) * n
    ensures f == g
  {
    if f < g {
      MultiplyMonotone(f + 1, g, n);
    } else if g < f {
      MultiplyMonotone(g + 1, f, n);
    }
  }

  lemma MultiplyMonotone(a: nat, b: nat, c: nat)
    requires a <= b
    ensures a * c <= b * c
  {
  }

  /** The rates SUMP clients ask for most: divider 99 is 1 MHz with no extra
      delay, divider 199 is 500 kHz with one microsecond of delay. */
  lemma CommonDividers()
    ensures FrequencyOf(99) == 1_000_000 && DelayTimeUs(FrequencyOf(99)) == 0
    ensures FrequencyOf(199) == 500_000 && DelayTimeUs(FrequencyOf(199)) == 1
  {
    DividerGivesPeriod(99, 1);
    DividerGivesPeriod(199, 2);
  }
}
