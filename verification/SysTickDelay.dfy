/** The busy delay rt_hw_us_delay of drivers/drv_common.c against the down
    counter SysTick, which runs from LOAD to 0 and starts again. */
module SysTickDelay {

  const UINT32: nat := 0x1_0000_0000
  const COUNTS_PER_TICK: nat := 1000   // 1000000 / RT_TICK_PER_SECOND

  /** A moment: full rounds of LOAD + 1 counts, and counts into the round. */
  datatype Moment = Moment(round: nat, phase: nat)

  predicate On(m: Moment, load: nat) { m.phase <= load }

  /** SysTick->VAL at a moment. */
  function Val(m: Moment, load: nat): nat
    requires On(m, load)
  {
    load - m.phase
  }

  /** True counts from a to b. */
  function Elapsed(a: Moment, b: Moment, load: nat): int {
    (b.round - a.round) * (load + 1) + b.phase - a.phase
  }

  /** The polls are later and later moments. */
  ghost predicate Polls(ms: seq<Moment>, load: nat) {
    && (forall k :: 0 <= k < |ms| ==> On(ms[k], load))
    && (forall k :: 0 <= k < |ms| - 1 ==> Elapsed(ms[k], ms[k + 1], load) >= 0)
  }

  /** What one poll adds to tcnt. */
  function Gain(a: Moment, b: Moment, load: nat): nat
    requires On(a, load) && On(b, load)
  {
    var told, tnow := Val(a, load), Val(b, load);
    if tnow == told then 0
    else if tnow < told then told - tnow
    else load - tnow + told
  }

  lemma ElapsedAdds(a: Moment, b: Moment, c: Moment, load: nat)
    ensures Elapsed(a, c, load) == Elapsed(a, b, load) + Elapsed(b, c, load)
  {
    assert (c.round - a.round) * (load + 1) == (b.round - a.round) * (load + 1) + (c.round - b.round) * (load + 1);
  }

  lemma RoundsOrdered(a: Moment, b: Moment, load: nat)
    requires On(a, load) && On(b, load) && Elapsed(a, b, load) >= 0
    ensures b.round >= a.round
    ensures b.round > a.round ==> (b.round - a.round) * (load + 1) >= load + 1
    ensures b.round > a.round + 1 ==> (b.round - a.round) * (load + 1) >= 2 * (load + 1)
  {
    var r := b.round - a.round;
    if r < 0 { Times(-r, 1, load + 1); }
    if r > 0 { Times(r, 1, load + 1); }
    if r > 1 { Times(r, 2, load + 1); }
  }

  lemma Times(r: int, m: int, n: nat)
    requires r >= m
    ensures r * n >= m * n
  {
  }

  /** However long the gap, one poll never counts more than really passed. */
  lemma GainAtMostElapsed(a: Moment, b: Moment, load: nat)
    requires On(a, load) && On(b, load) && Elapsed(a, b, load) >= 0
    ensures Gain(a, b, load) <= Elapsed(a, b, load)
  {
    RoundsOrdered(a, b, load);
  }

  /** A gap of at most LOAD counts is counted but for one count per wrap. */
  lemma GainExact(a: Moment, b: Moment, load: nat)
    requires On(a, load) && On(b, load) && 0 <= Elapsed(a, b, load) <= load
    ensures Gain(a, b, load) == Elapsed(a, b, load) - (b.round - a.round)
    ensures b.round - a.round <= 1
  {
    RoundsOrdered(a, b, load);
  }

  /** ticks, in the 32-bit arithmetic of the source. */
  function TicksFor(us: nat, reload: nat): nat {
    us * reload % UINT32 / COUNTS_PER_TICK
  }

  /** The product wraps for long delays: the tick count is the intended one iff
      us * LOAD fits 32 bits. */
  lemma TicksExactIff(us: nat, reload: nat)
    ensures TicksFor(us, reload) == us * reload / COUNTS_PER_TICK <==> us * reload < UINT32
  {
  }

  /** 25566 microseconds at 168 MHz wait 95 counts in place of 4295062. */
  lemma TicksFail()
    ensures TicksFor(25566, 167999) == 95 && 25566 * 167999 / COUNTS_PER_TICK == 4295062
  {
  }

  /** What the polls up to number j add to tcnt. */
  function Gained(polls: seq<Moment>, j: nat, load: nat): nat
    requires j < |polls| && forall k :: 0 <= k < |polls| ==> On(polls[k], load)
    decreases j
  {
    if j == 0 then 0 else Gained(polls, j - 1, load) + Gain(polls[j - 1], polls[j], load)
  }

  /** Poll j sees the counter moved and enough counts gained. */
  predicate MayEnd(polls: seq<Moment>, j: nat, load: nat, ticks: nat)
    requires 0 < j < |polls| && forall k :: 0 <= k < |polls| ==> On(polls[k], load)
  {
    polls[j].phase != polls[j - 1].phase && Gained(polls, j, load) >= ticks
  }

  /** The loop of rt_hw_us_delay over the moments at which it reads the counter;
      done says whether it left the loop within them. */
  method Delay(us: nat, reload: nat, polls: seq<Moment>) returns (done: bool, last: nat, tcnt: nat)
    requires polls != [] && Polls(polls, reload)
    ensures last < |polls|
    // it never returns early, however irregular the polling
    ensures done ==> TicksFor(us, reload) <= tcnt <= Elapsed(polls[0], polls[last], reload)
    ensures !done ==> last == |polls| - 1 && (tcnt < TicksFor(us, reload) || tcnt == 0)
    // it returns at the first poll at which the count is reached, and only there
    ensures done ==> last > 0 && MayEnd(polls, last, reload, TicksFor(us, reload))
    ensures forall j :: 0 < j < |polls| && (j < last || !done) ==> !MayEnd(polls, j, reload, TicksFor(us, reload))
    ensures tcnt == Gained(polls, last, reload)
    // so it is late by less than the last gap between polls
    ensures done ==> tcnt < TicksFor(us, reload) + Elapsed(polls[last - 1], polls[last], reload)
                     || TicksFor(us, reload) == 0
    ensures done && (forall k :: 0 <= k < |polls| - 1 ==> Elapsed(polls[k], polls[k + 1], reload) <= reload) ==>
              var before := Elapsed(polls[0], polls[last - 1], reload) - (polls[last - 1].round - polls[0].round);
              before < TicksFor(us, reload) || before == 0
    // regular polling counts all but one count per wrap
    ensures (forall k :: 0 <= k < |polls| - 1 ==> Elapsed(polls[k], polls[k + 1], reload) <= reload) ==>
              tcnt == Elapsed(polls[0], polls[last], reload) - (polls[last].round - polls[0].round)
  {
    hide Elapsed, Gain, Gained, MayEnd;
    var ticks := TicksFor(us, reload);
    var told := Val(polls[0], reload);
    tcnt, last, done := 0, 0, false;
    ghost var regular := forall k :: 0 <= k < |polls| - 1 ==> Elapsed(polls[k], polls[k + 1], reload) <= reload;
    ElapsedSelf(polls[0], reload);
    GainedAt(polls, 0, reload, ticks);
    while last + 1 < |polls|
      invariant last < |polls| && told == Val(polls[last], reload)
      invariant 0 <= tcnt <= Elapsed(polls[0], polls[last], reload)
      invariant tcnt < ticks || tcnt == 0
      invariant tcnt == Gained(polls, last, reload)
      invariant forall j :: 0 < j <= last ==> !MayEnd(polls, j, reload, ticks)
      invariant regular ==> tcnt == Elapsed(polls[0], polls[last], reload) - (polls[last].round - polls[0].round)
    {
      var a, b := polls[last], polls[last + 1];
      ElapsedAdds(polls[0], a, b, reload);
      GainAtMostElapsed(a, b, reload);
      GainIs(a, b, reload);
      GainedAt(polls, last + 1, reload, ticks);
      if regular { GainExact(a, b, reload); }
      var tnow := Val(b, reload);
      last := last + 1;
      if tnow != told {
        if tnow < told {
          tcnt := tcnt + (told - tnow);
        } else {
          tcnt := tcnt + (reload - tnow + told);
        }
        told := tnow;
        if tcnt >= ticks {
          done := true;
          return;
        }
      }
    }
  }

  lemma GainedAt(polls: seq<Moment>, j: nat, load: nat, ticks: nat)
    requires j < |polls| && forall k :: 0 <= k < |polls| ==> On(polls[k], load)
    ensures j == 0 ==> Gained(polls, j, load) == 0
    ensures j > 0 ==> Gained(polls, j, load) == Gained(polls, j - 1, load) + Gain(polls[j - 1], polls[j], load)
    ensures j > 0 ==> (MayEnd(polls, j, load, ticks) <==>
                         Val(polls[j], load) != Val(polls[j - 1], load) && Gained(polls, j, load) >= ticks)
  {
  }

  lemma ElapsedSelf(a: Moment, load: nat)
    ensures Elapsed(a, a, load) == 0
  {
  }

  lemma GainIs(a: Moment, b: Moment, load: nat)
    requires On(a, load) && On(b, load)
    ensures Gain(a, b, load) == if Val(b, load) == Val(a, load) then 0
                                else if Val(b, load) < Val(a, load) then Val(a, load) - Val(b, load)
                                else load - Val(b, load) + Val(a, load)
  {
  }
}
