/** Register arithmetic of drivers/drv_pwm.c: drv_pwm_set turns nanoseconds into
    prescaler, reload and compare values; drv_pwm_get turns them back. */
module Pwm {

  const MAX_PERIOD: nat := 65535
  const MIN_PERIOD: nat := 3
  const MIN_PULSE: nat := 2
  const UINT32: nat := 0x1_0000_0000
  const MAX_CLOCK: nat := 168   // MHz

  lemma DivIs(x: nat, d: nat, q: nat)
    requires d > 0 && q * d <= x < (q + 1) * d
    ensures x / d == q
  {
    var r := x / d;
    DivBounds(x, d);
    if r < q { Scale(r + 1, q, d); }
    if r > q { Scale(q + 1, r, d); }
  }

  lemma DivBounds(x: nat, d: nat)
    requires d > 0
    ensures x / d * d <= x < (x / d + 1) * d
  {
    assert x == d * (x / d) + x % d;
  }

  lemma Scale(a: nat, b: nat, d: nat)
    requires a <= b
    ensures a * d <= b * d
  {
  }

  /** Dividing by 1000 and by psc in either order truncates alike. */
  lemma DivisionsCommute(x: nat, psc: nat)
    requires psc > 0
    ensures x / 1000 / psc == x / psc / 1000
  {
    var t := x / 1000;
    var q := t / psc;
    DivBounds(x, 1000);
    DivBounds(t, psc);
    // q is also the quotient of x / psc by 1000
    var u := x / psc;
    DivBounds(x, psc);
    assert q * 1000 * psc <= x by { assert q * psc * 1000 == q * 1000 * psc; Scale(q * psc, t, 1000); }
    assert x < (q + 1) * 1000 * psc by {
      Scale(t + 1, (q + 1) * psc, 1000);
      assert (q + 1) * psc * 1000 == (q + 1) * 1000 * psc;
    }
    DivBoundsLower(x, psc, q * 1000);
    DivBoundsUpper(x, psc, (q + 1) * 1000);
    DivIs(u, 1000, q);
  }

  lemma DivBoundsLower(x: nat, d: nat, m: nat)
    requires d > 0 && m * d <= x
    ensures m <= x / d
  {
    DivBounds(x, d);
    if m > x / d { Scale(x / d + 1, m, d); }
  }

  lemma DivBoundsUpper(x: nat, d: nat, m: nat)
    requires d > 0 && x < m * d
    ensures x / d < m
  {
    DivBounds(x, d);
    if m <= x / d { Scale(m, x / d, d); }
  }

  class Timer {
    var psc: nat     // PSC, the prescaler less one
    var arr: nat     // ARR, the period less one
    var ccr: nat     // CCR of the channel, the pulse less one
    var cnt: nat     // CNT

    /** drv_pwm_set with the timer clock in MHz. */
    method Set(periodNs: nat, pulseNs: nat, clock: nat)
      requires periodNs < UINT32 && pulseNs < UINT32 && 0 < clock <= MAX_CLOCK
      modifies this
      ensures (psc, arr, ccr) == Registers(periodNs, pulseNs, clock) && cnt == 0
      // every value fits its 16-bit register and the pulse never exceeds the period
      ensures psc <= 0xFFFF && 2 <= arr < 0xFFFF && 1 <= ccr <= arr
    {
      hide PeriodCounts, PulseCounts, Counts, Prescale;
      RegistersFit(periodNs, pulseNs, clock);
      SourceCounts(periodNs, pulseNs, clock);
      var period := PeriodCounts(periodNs, clock);
      var prescale := period / MAX_PERIOD + 1;
      period := period / prescale;
      psc := prescale - 1;
      if period < MIN_PERIOD {
        period := MIN_PERIOD;
      }
      arr := period - 1;
      var pulse := PulseCounts(pulseNs, clock, prescale);
      if pulse < MIN_PULSE {
        pulse := MIN_PULSE;
      } else if pulse > period {
        pulse := period;
      }
      ccr := pulse - 1;
      cnt := 0;
    }

    /** drv_pwm_get: the products are 32-bit. */
    method Get(clock: nat) returns (periodNs: nat, pulseNs: nat)
      requires 0 < clock
      ensures periodNs == ReadBack(arr, psc, clock) && pulseNs == ReadBack(ccr, psc, clock)
    {
      periodNs := (arr + 1) * (psc + 1) * 1000 % UINT32 / clock;
      pulseNs := (ccr + 1) * (psc + 1) * 1000 % UINT32 / clock;
    }
  }

  /** The two products of drv_pwm_set, cut to 32 bits when stored. */
  function PeriodCounts(periodNs: nat, clock: nat): nat { periodNs * clock / 1000 % UINT32 }

  function PulseCounts(pulseNs: nat, clock: nat, psc: nat): nat
    requires psc > 0
  {
    pulseNs * clock / psc / 1000 % UINT32
  }

  lemma SourceCounts(periodNs: nat, pulseNs: nat, clock: nat)
    requires periodNs < UINT32 && pulseNs < UINT32 && 0 < clock <= MAX_CLOCK
    ensures var p := Prescale(periodNs, clock);
            && PeriodCounts(periodNs, clock) == Counts(periodNs, clock)
            && p == Counts(periodNs, clock) / MAX_PERIOD + 1
            && PulseCounts(pulseNs, clock, p) == Counts(pulseNs, clock) / p
  {
    hide Counts, Prescale;
    RegistersFit(periodNs, pulseNs, clock);
    CountsIs(periodNs, clock);
    PrescaleIs(periodNs, clock);
  }

  /** Timer counts in ns nanoseconds, before any prescaling. */
  function Counts(ns: nat, clock: nat): nat { ns * clock / 1000 }

  /** The prescaler that brings the period under 65535 counts. */
  function Prescale(periodNs: nat, clock: nat): (p: nat)
    ensures p > 0
  {
    Counts(periodNs, clock) / MAX_PERIOD + 1
  }

  lemma PrescaleIs(periodNs: nat, clock: nat)
    ensures Prescale(periodNs, clock) == Counts(periodNs, clock) / MAX_PERIOD + 1
  {
  }

  function Clamp(x: nat, lo: nat, hi: nat): nat {
    if x < lo then lo else if x > hi then hi else x
  }

  /** PSC, ARR and CCR, in unbounded arithmetic. */
  function Registers(periodNs: nat, pulseNs: nat, clock: nat): (nat, nat, int) {
    var p := Prescale(periodNs, clock);
    var period := Clamp(Counts(periodNs, clock) / p, MIN_PERIOD, MAX_PERIOD);
    (p - 1, period - 1, Clamp(Counts(pulseNs, clock) / p, MIN_PULSE, period) - 1)
  }

  function ReadBack(reg: nat, psc: nat, clock: nat): nat
    requires clock > 0
  {
    (reg + 1) * (psc + 1) * 1000 % UINT32 / clock
  }

  lemma CountsFit(ns: nat, clock: nat)
    requires ns < UINT32 && clock <= MAX_CLOCK
    ensures Counts(ns, clock) < 721554506
  {
    assert ns * clock <= ns * MAX_CLOCK;
  }

  lemma PeriodFits(counts: nat)
    requires counts < 721554506
    ensures var p := counts / MAX_PERIOD + 1; p <= 0x1_0000 && counts / p < MAX_PERIOD
  {
    var p := counts / MAX_PERIOD + 1;
    assert counts < p * MAX_PERIOD;
    assert counts < MAX_PERIOD * p;
    DivBoundsUpper(counts, p, MAX_PERIOD);
  }

  /** No 32-bit truncation and no 16-bit overflow happens for clocks up to 168 MHz. */
  lemma RegistersFit(periodNs: nat, pulseNs: nat, clock: nat)
    requires periodNs < UINT32 && pulseNs < UINT32 && 0 < clock <= MAX_CLOCK
    ensures var (psc, arr, ccr) := Registers(periodNs, pulseNs, clock);
            psc <= 0xFFFF && 2 <= arr < 0xFFFF && 1 <= ccr <= arr
    ensures Counts(periodNs, clock) < UINT32 && Counts(periodNs, clock) / Prescale(periodNs, clock) <= MAX_PERIOD
    ensures var p := Prescale(periodNs, clock);
            pulseNs * clock / p / 1000 == Counts(pulseNs, clock) / p < UINT32
  {
    hide Counts;
    CountsFit(periodNs, clock);
    CountsFit(pulseNs, clock);
    PeriodFits(Counts(periodNs, clock));
    var p := Prescale(periodNs, clock);
    DivisionsCommute(pulseNs * clock, p);
    CountsIs(pulseNs, clock);
    DivShrinks(Counts(pulseNs, clock), p);
  }

  lemma CountsIs(ns: nat, clock: nat)
    ensures Counts(ns, clock) == ns * clock / 1000
  {
  }

  lemma DivShrinks(x: nat, d: nat)
    requires d > 0
    ensures x / d <= x
  {
    var q := x / d;
    DivBounds(x, d);
    hide *;
    Scale(1, d, q);
    assert q * d == d * q;
  }

  /** The prescaler is the smallest that brings the period below 65535 counts. */
  lemma PrescalerLeast(periodNs: nat, pulseNs: nat, clock: nat)
    requires periodNs < UINT32 && 0 < clock <= MAX_CLOCK
    ensures var (psc, _, _) := Registers(periodNs, pulseNs, clock); var counts := periodNs * clock / 1000;
            counts < 65535 * (psc + 1) && 65535 * psc <= counts
  {
    PrescaleIs(periodNs, clock);
    CountsIs(periodNs, clock);
    hide Counts, Prescale;
    DivBounds(periodNs * clock / 1000, 65535);
  }

  /** Registers without the clamps: whole prescaled counts, less one. */
  lemma UnclampedRegisters(periodNs: nat, pulseNs: nat, clock: nat)
    requires periodNs < UINT32 && pulseNs < UINT32 && 0 < clock <= MAX_CLOCK
    ensures var (psc, arr, ccr) := Registers(periodNs, pulseNs, clock);
            var period := periodNs * clock / 1000 / (psc + 1); var pulse := pulseNs * clock / 1000 / (psc + 1);
            && arr == (if period < 3 then 3 else period) - 1
            && ccr == (if pulse < 2 then 2 else if pulse > arr + 1 then arr + 1 else pulse) - 1
  {
    CountsIs(periodNs, clock);
    CountsIs(pulseNs, clock);
    CountsFit(periodNs, clock);
    hide Counts;
    PeriodFits(Counts(periodNs, clock));
  }

  lemma DivMonotone(x: nat, y: nat, d: nat)
    requires x <= y && d > 0
    ensures x / d <= y / d
  {
    var q := x / d;
    assert q * d <= x by { DivBounds(x, d); }
    DivBoundsLower(y, d, q);
  }

  /** A longer pulse never gets a smaller compare value. */
  lemma PulseMonotone(periodNs: nat, p1: nat, p2: nat, clock: nat)
    requires periodNs < UINT32 && p1 <= p2 < UINT32 && 0 < clock <= MAX_CLOCK
    ensures Registers(periodNs, p1, clock).0 == Registers(periodNs, p2, clock).0
    ensures Registers(periodNs, p1, clock).2 <= Registers(periodNs, p2, clock).2
  {
    UnclampedRegisters(periodNs, p1, clock);
    UnclampedRegisters(periodNs, p2, clock);
    var psc := Registers(periodNs, p1, clock).0;
    hide Registers;
    Scale(p1, p2, clock);
    DivMonotone(p1 * clock, p2 * clock, 1000);
    DivMonotone(p1 * clock / 1000, p2 * clock / 1000, psc + 1);
  }

  /** A pulse of two prescaled counts or more, not above the period, reads back no
      longer than it was asked for, and short by less than one prescaled count
      plus one nanosecond. */
  lemma PulseReadBack(periodNs: nat, pulseNs: nat, clock: nat)
    requires pulseNs <= periodNs < UINT32 && 0 < clock <= MAX_CLOCK
    ensures var (psc, arr, ccr) := Registers(periodNs, pulseNs, clock); var got := ReadBack(ccr, psc, clock);
            2 * (psc + 1) * 1000 <= pulseNs * clock && (ccr + 1) * (psc + 1) * 1000 < UINT32 ==>
              got <= pulseNs && (pulseNs - got) * clock < (psc + 1) * 1000 + clock
  {
    UnclampedRegisters(periodNs, pulseNs, clock);
    var (psc, arr, ccr) := Registers(periodNs, pulseNs, clock);
    hide Registers, ReadBack;
    if 2 * (psc + 1) * 1000 <= pulseNs * clock && (ccr + 1) * (psc + 1) * 1000 < UINT32 {
      var p, x := psc + 1, pulseNs * clock;
      var k := x / 1000 / p;
      assert 2 * p * 1000 == 2000 * p;
      DivBoundsLower(x, 1000, 2 * p);
      DivBoundsLower(x / 1000, p, 2);
      Scale(pulseNs, periodNs, clock);
      DivMonotone(x, periodNs * clock, 1000);
      DivMonotone(x / 1000, periodNs * clock / 1000, p);
      TruncationLoss(x, p);
      ReadBackLoss(k * p * 1000, pulseNs, clock, p * 1000);
      ReadBackIs(k - 1, p - 1, clock);
    }
  }

  /** A servo pulse: 1.5 ms in 20 ms at 84 MHz. */
  lemma ServoPulse()
    ensures Registers(20_000_000, 1_500_000, 84) == (25, 64614, 4845)
  {
  }

  /** A requested full duty cycle gives equal registers iff the period is at
      least three timer counts: below that the two minima differ. */
  lemma FullDutyIff(ns: nat, clock: nat)
    requires ns < UINT32 && 0 < clock <= MAX_CLOCK
    ensures var (psc, arr, ccr) := Registers(ns, ns, clock);
            ccr == arr <==> Counts(ns, clock) >= MIN_PERIOD
  {
    hide Counts;
    var c := Counts(ns, clock);
    CountsFit(ns, clock);
    PeriodFits(c);
    var p := Prescale(ns, clock);
    if c >= MAX_PERIOD {
      ManyCounts(c, p);
    } else {
      assert p == 1;
    }
  }

  lemma ManyCounts(c: nat, p: nat)
    requires c >= MAX_PERIOD && p == c / MAX_PERIOD + 1
    ensures c / p >= MIN_PERIOD
  {
    assert (p - 1) * MAX_PERIOD <= c && p >= 2;
    assert MIN_PERIOD * p <= c;
    DivBoundsLower(c, p, MIN_PERIOD);
  }

  /** What two truncating divisions lose. */
  lemma TruncationLoss(x: nat, p: nat)
    requires p > 0
    ensures var k := x / 1000 / p; k * p * 1000 <= x < k * p * 1000 + p * 1000
  {
    var t := x / 1000;
    var k := t / p;
    DivBounds(x, 1000);
    DivBounds(t, p);
    assert (k + 1) * p == k * p + p;
  }

  lemma ReadBackLoss(product: nat, ns: nat, clock: nat, loss: nat)
    requires clock > 0 && product <= ns * clock < product + loss
    ensures var got := product / clock; got <= ns && (ns - got) * clock < loss + clock
  {
    var got := product / clock;
    DivBounds(product, clock);
    assert (ns + 1) * clock == ns * clock + clock;
    DivBoundsUpper(product, clock, ns + 1);
    assert (ns - got) * clock == ns * clock - got * clock;
    assert (got + 1) * clock == got * clock + clock;
  }

  /** An unclamped period reads back no longer than it was asked for, and short
      by less than one prescaled count plus one nanosecond. */
  lemma PeriodReadBack(ns: nat, clock: nat)
    requires ns < UINT32 && 0 < clock <= MAX_CLOCK
    ensures var (psc, arr, _) := Registers(ns, ns, clock); var got := ReadBack(arr, psc, clock);
            Counts(ns, clock) >= MIN_PERIOD && (arr + 1) * (psc + 1) * 1000 < UINT32 ==>
              got <= ns && (ns - got) * clock < (psc + 1) * 1000 + clock
  {
    hide Clamp, Counts, Prescale, ReadBack;
    var (psc, arr, _) := Registers(ns, ns, clock);
    if Counts(ns, clock) >= MIN_PERIOD && (arr + 1) * (psc + 1) * 1000 < UINT32 {
      var p := Prescale(ns, clock);
      var k := UnclampedPeriod(ns, clock);
      TruncationLoss(ns * clock, p);
      ReadBackLoss(k * p * 1000, ns, clock, p * 1000);
      ReadBackIs(k - 1, p - 1, clock);
    }
  }

  lemma UnclampedPeriod(ns: nat, clock: nat) returns (k: nat)
    requires ns < UINT32 && 0 < clock <= MAX_CLOCK && Counts(ns, clock) >= MIN_PERIOD
    ensures k == ns * clock / 1000 / Prescale(ns, clock) && k >= 1
    ensures Registers(ns, ns, clock).0 == Prescale(ns, clock) - 1 && Registers(ns, ns, clock).1 == k - 1
  {
    hide Clamp, Counts, Prescale;
    var c, p := Counts(ns, clock), Prescale(ns, clock);
    CountsFit(ns, clock);
    CountsIs(ns, clock);
    PrescaleIs(ns, clock);
    PeriodFits(c);
    if c >= MAX_PERIOD { ManyCounts(c, p); }
    ClampId(c / p, MIN_PERIOD, MAX_PERIOD);
    k := c / p;
  }

  lemma ReadBackIs(reg: nat, psc: nat, clock: nat)
    requires clock > 0 && (reg + 1) * (psc + 1) * 1000 < UINT32
    ensures ReadBack(reg, psc, clock) == (reg + 1) * (psc + 1) * 1000 / clock
  {
    Unwrapped((reg + 1) * (psc + 1) * 1000);
  }

  lemma Unwrapped(x: nat)
    requires x < UINT32
    ensures x % UINT32 == x
  {
  }

  lemma ClampId(x: nat, lo: nat, hi: nat)
    requires lo <= x <= hi
    ensures Clamp(x, lo, hi) == x
  {
  }

  /** The 32-bit product of drv_pwm_get gives the true value iff it does not wrap. */
  lemma ReadBackExactIff(reg: nat, psc: nat, clock: nat)
    requires 0 < clock <= MAX_CLOCK
    ensures ReadBack(reg, psc, clock) == (reg + 1) * (psc + 1) * 1000 / clock
       <==> (reg + 1) * (psc + 1) * 1000 < UINT32
  {
    var x := (reg + 1) * (psc + 1) * 1000;
    var y := x % UINT32;
    if x >= UINT32 {
      assert y + UINT32 <= x;
      DivBounds(y, clock);
      assert (y / clock + 1) * clock == y / clock * clock + clock;
      DivBoundsLower(x, clock, y / clock + 1);
    }
  }

  /** A full duty cycle of no length: the registers differ. */
  lemma FullDutyFails()
    ensures Registers(0, 0, 84) == (0, 2, 1)
  {
  }

  /** 51.5 ms at 84 MHz reads back as 0.37 ms. */
  lemma ReadBackFails()
    ensures Registers(51_500_000, 0, 84) == (66, 64566, 1)
    ensures ReadBack(64566, 66, 84) == 369306
  {
  }
}
