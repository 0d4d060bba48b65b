/** The plate-contact judgement of applications/lcr_task.c: hysteresis bands,
    an error hold-off counter, and a report on every change of state. */
module PlateJudge {
  import opened MedianFilter

  datatype Option<T> = None | Some(value: T)

  datatype PlateState = Disconnect | ConnectOk | ConnectHalf | Error

  const LIMIT1_LOW: nat := 15000
  const LIMIT1_HIGH: nat := 20000
  const LIMIT2_LOW: nat := 50000
  const LIMIT2_HIGH: nat := 70000
  const LIMIT3_LOW: nat := 100000
  const LIMIT3_HIGH: nat := 5000000
  const ERROR_REDUCE: nat := 10
  const WINDOW: nat := 11

  /** The static variables of lcr_info_judge and g_send_info.neg_state. */
  datatype Judge = Judge(neg: PlateState, pre: PlateState, reduce: nat, sent: PlateState)

  const INITIAL := Judge(Disconnect, Disconnect, 0, Disconnect)

  /** One call: the raw measurement and the filtered value it leads to. */
  datatype Sample = Sample(c: real, cap: nat)

  /** Where a filtered value pulls the state; None is a dead band. */
  function Pull(cap: nat, pre: PlateState): Option<PlateState> {
    if cap < LIMIT1_LOW then Some(Disconnect)
    else if cap < LIMIT1_HIGH then (if pre in {Disconnect, ConnectHalf} then None else Some(Disconnect))
    else if cap < LIMIT2_LOW then Some(ConnectHalf)
    else if cap < LIMIT2_HIGH then (if pre in {Disconnect, ConnectHalf} then None else Some(ConnectHalf))
    else if cap < LIMIT3_LOW then Some(ConnectOk)
    else if cap < LIMIT3_HIGH then (if pre in {ConnectOk, Error} then None else Some(ConnectOk))
    else if cap == LIMIT3_HIGH then None
    else Some(Error)
  }

  /** The sample puts the hold-off counter back to its full value. */
  predicate Arms(s: Judge, x: Sample) {
    x.cap > LIMIT3_HIGH || (s.neg == Error && x.c > LIMIT3_HIGH as real)
  }

  /** One call of lcr_info_judge: a pull away from ERROR first uses up the
      counter, a pull to ERROR takes effect at once. */
  function Step(s: Judge, x: Sample): Judge {
    var reduce := if Arms(s, x) then ERROR_REDUCE else s.reduce;
    var (neg, left) :=
      match Pull(x.cap, s.pre)
      case None => (s.neg, reduce)
      case Some(to) => if to == Error then (Error, ERROR_REDUCE)
                       else if reduce > 0 then (s.neg, reduce - 1)
                       else (to, 0);
    Judge(neg, neg, left, if s.pre != neg then neg else s.sent)
  }

  /** The state, if any, that the call reports to the main board. */
  function Report(s: Judge, x: Sample): Option<PlateState> {
    if Step(s, x).neg != s.pre then Some(Step(s, x).neg) else None
  }

  function Run(s: Judge, xs: seq<Sample>): Judge
    decreases |xs|
  {
    if xs == [] then s else Step(Run(s, xs[..|xs| - 1]), xs[|xs| - 1])
  }

  /** Every report of a run, oldest first. */
  function Reports(s: Judge, xs: seq<Sample>): seq<PlateState>
    decreases |xs|
  {
    if xs == [] then [] else
      var front := xs[..|xs| - 1];
      Reports(s, front) + (match Report(Run(s, front), xs[|xs| - 1]) case None => [] case Some(r) => [r])
  }

  // --- Invariants of every run ----------------------------------------------------

  /** The three copies of the state agree and the counter is idle outside ERROR. */
  predicate Settled(s: Judge) {
    && s.pre == s.neg && s.sent == s.neg
    && s.reduce <= ERROR_REDUCE
    && (s.neg != Error ==> s.reduce == 0)
  }

  lemma StepSettled(s: Judge, x: Sample)
    requires Settled(s)
    ensures Settled(Step(s, x))
    ensures Report(s, x) == if Step(s, x).neg == s.neg then None else Some(Step(s, x).neg)
  {
  }

  ghost predicate Alternates(rs: seq<PlateState>) {
    forall k :: 0 <= k < |rs| - 1 ==> rs[k] != rs[k + 1]
  }

  /** After every call of every run the copies agree; the last report made is the
      present state, and consecutive reports always differ. */
  lemma {:induction false} RunSettled(s: Judge, xs: seq<Sample>)
    requires Settled(s)
    ensures Settled(Run(s, xs))
    ensures var rs := [s.neg] + Reports(s, xs); rs[|rs| - 1] == Run(s, xs).neg && Alternates(rs)
    decreases |xs|
  {
    hide Step, Settled, Report;
    if xs != [] {
      var front, x := xs[..|xs| - 1], xs[|xs| - 1];
      RunSettled(s, front);
      StepSettled(Run(s, front), x);
      SettledPre(Run(s, front));
      var rs := [s.neg] + Reports(s, front);
      var ts := [s.neg] + Reports(s, xs);
      assert ts == rs || ts == rs + [Step(Run(s, front), x).neg];
    }
  }

  lemma RunSnoc(s: Judge, xs: seq<Sample>, x: Sample)
    ensures Run(s, xs + [x]) == Step(Run(s, xs), x)
    ensures Reports(s, xs + [x]) == Reports(s, xs) + (match Report(Run(s, xs), x) case None => [] case Some(r) => [r])
  {
    hide Step, Report;
    assert (xs + [x])[..|xs|] == xs;
  }

  lemma SettledPre(s: Judge)
    requires Settled(s)
    ensures s.pre == s.neg && s.sent == s.neg
  {
  }

  // --- The transitions, in plain numbers ------------------------------------------------------

  /** Outside ERROR the filtered value alone decides, but for two dead bands. */
  lemma NextState(s: Judge, x: Sample)
    requires Settled(s) && s.neg != Error
    ensures Step(s, x).neg ==
              if x.cap < 15000 then Disconnect
              else if x.cap < 20000 then (if s.neg == ConnectOk then Disconnect else s.neg)
              else if x.cap < 50000 then ConnectHalf
              else if x.cap < 70000 then (if s.neg == ConnectOk then ConnectHalf else s.neg)
              else if x.cap < 5000000 then ConnectOk
              else if x.cap == 5000000 then s.neg
              else Error
  {
  }

  /** In ERROR: what re-arms the hold-off, what holds it, what uses it up, and where
      the state goes once it is used up. */
  lemma NextFromError(s: Judge, x: Sample)
    requires Settled(s) && s.neg == Error
    ensures var t := Step(s, x); var left := if x.cap > 5000000 || x.c > 5000000.0 then 10 else s.reduce;
            if x.cap >= 100000 then t.neg == Error && t.reduce == left
            else if left > 0 then t.neg == Error && t.reduce == left - 1
            else t.neg == if x.cap < 20000 then Disconnect else if x.cap < 70000 then ConnectHalf else ConnectOk
  {
  }

  /** Reports are the changes of state, and entering ERROR arms ten. */
  lemma NextReport(s: Judge, x: Sample)
    requires Settled(s)
    ensures Report(s, x) == if Step(s, x).neg == s.neg then None else Some(Step(s, x).neg)
    ensures s.neg != Error && Step(s, x).neg == Error ==> Step(s, x).reduce == 10
  {
  }

  // --- Error hold-off ----------------------------------------------------------------

  /** Samples that use up the hold-off: filtered value below 100000. */
  function Quiet(xs: seq<Sample>): nat
    decreases |xs|
  {
    if xs == [] then 0 else Quiet(xs[..|xs| - 1]) + (if xs[|xs| - 1].cap < LIMIT3_LOW then 1 else 0)
  }

  /** Neither the filtered nor the raw value is above the short-circuit limit. */
  predicate Calm(x: Sample) { x.cap <= LIMIT3_HIGH && x.c <= LIMIT3_HIGH as real }

  lemma CalmStep(s: Judge, x: Sample)
    requires Settled(s) && Calm(x)
    ensures s.neg != Error ==> Step(s, x).neg != Error
    ensures s.neg == Error && x.cap >= LIMIT3_LOW ==> Step(s, x) == s
    ensures s.neg == Error && x.cap < LIMIT3_LOW && s.reduce > 0 ==>
              Step(s, x) == s.(reduce := s.reduce - 1)
    ensures s.neg == Error && x.cap < LIMIT3_LOW && s.reduce == 0 ==> Step(s, x).neg != Error
  {
  }

  lemma {:induction false} CalmRun(s: Judge, xs: seq<Sample>)
    requires Settled(s) && s.neg == Error && forall k :: 0 <= k < |xs| ==> Calm(xs[k])
    ensures Run(s, xs).neg == Error <==> Quiet(xs) <= s.reduce
    ensures Run(s, xs).neg == Error ==> Run(s, xs).reduce == s.reduce - Quiet(xs)
    decreases |xs|
  {
    hide Step, Settled, Calm;
    if xs != [] {
      var front, x := xs[..|xs| - 1], xs[|xs| - 1];
      assert forall k :: 0 <= k < |front| ==> front[k] == xs[k];
      CalmRun(s, front);
      RunSettled(s, front);
      CalmStep(Run(s, front), x);
    }
  }

  lemma ArmStep(s: Judge, x: Sample)
    requires Settled(s) && Arms(s, x)
    ensures var t := Step(s, x);
            Settled(t) && t.neg == Error && t.reduce == ERROR_REDUCE - (if x.cap < LIMIT3_LOW then 1 else 0)
  {
  }

  /** From any sample that arms the hold-off up to the next that does, ERROR is
      held exactly as long as at most ten filtered values below 100000 have come
      in at or after the arming sample: it ends with the eleventh. */
  lemma HoldOff(s: Judge, arming: Sample, xs: seq<Sample>)
    requires Settled(s) && Arms(s, arming)
    requires forall k :: 0 <= k < |xs| ==> Calm(xs[k])
    ensures Run(Step(s, arming), xs).neg == Error
       <==> Quiet(xs) + (if arming.cap < LIMIT3_LOW then 1 else 0) <= ERROR_REDUCE
  {
    hide Step, Settled, Calm, Arms;
    ArmStep(s, arming);
    CalmRun(Step(s, arming), xs);
  }

  /** A remark on the re-arm test: as it looks at the unscaled measurement, while
      the filtered value is not above 5000000, ERROR is re-armed iff the scaled
      one, which the limit is meant for, is above 5000 million. */
  lemma RearmIff(s: Judge, x: Sample)
    requires Settled(s) && s.neg == Error && x.cap <= LIMIT3_HIGH
    ensures Arms(s, x) <==> x.c * 1000.0 > 5_000_000_000.0
  {
  }

  // --- Dead bands -------------------------------------------------------------------------

  /** Disconnect and half-connected are 5000 apart. */
  lemma DeadBand(s: Judge, x: Sample)
    requires Settled(s)
    ensures s.neg == Disconnect && Step(s, x).neg == ConnectHalf ==> LIMIT1_HIGH <= x.cap < LIMIT2_LOW
    ensures s.neg == ConnectHalf && Step(s, x).neg == Disconnect ==> x.cap < LIMIT1_LOW
    ensures s.neg in {Disconnect, ConnectHalf} && x.cap < LIMIT2_HIGH ==> Step(s, x).neg in {Disconnect, ConnectHalf}
  {
  }

  /** The only state that filtered values from lo to lo + 5000 can still reach. */
  function Sink(lo: nat): PlateState {
    if lo < LIMIT1_LOW then Disconnect else ConnectHalf
  }

  lemma {:induction false} NoiseRun(s: Judge, xs: seq<Sample>, lo: nat)
    requires Settled(s) && s.neg in {Disconnect, ConnectHalf}
    requires forall k :: 0 <= k < |xs| ==> lo <= xs[k].cap < lo + 5000 && xs[k].cap < LIMIT2_HIGH
    ensures Run(s, xs).neg in {Disconnect, ConnectHalf}
    ensures s.neg == Sink(lo) ==> Reports(s, xs) == [] && Run(s, xs).neg == s.neg
    ensures (Reports(s, xs) == [] && Run(s, xs).neg == s.neg)
         || (Reports(s, xs) == [Sink(lo)] && Run(s, xs).neg == Sink(lo))
    decreases |xs|
  {
    hide Step, Settled, Report;
    if xs != [] {
      var front, x := xs[..|xs| - 1], xs[|xs| - 1];
      assert forall k :: 0 <= k < |front| ==> front[k] == xs[k];
      NoiseRun(s, front, lo);
      RunSettled(s, front);
      StepSettled(Run(s, front), x);
      DeadBand(Run(s, front), x);
    }
  }

  /** Between disconnected and half-connected, filtered values that stay within
      any span of 5000 below 70000 cause at most one report, however many. */
  lemma NoiseImmunity(s: Judge, xs: seq<Sample>, lo: nat)
    requires Settled(s) && s.neg in {Disconnect, ConnectHalf}
    requires forall k :: 0 <= k < |xs| ==> lo <= xs[k].cap < lo + 5000 && xs[k].cap < LIMIT2_HIGH
    ensures |Reports(s, xs)| <= 1
  {
    NoiseRun(s, xs, lo);
  }

  /** A span of 5001 is too wide: 14999 and 20000 in turn are reported each time. */
  lemma SpanIsTight()
    ensures Reports(INITIAL, [Sample(0.0, 20000), Sample(0.0, 14999), Sample(0.0, 20000)])
         == [ConnectHalf, Disconnect, ConnectHalf]
  {
    var a, b := Sample(0.0, 20000), Sample(0.0, 14999);
    var h := INITIAL.(neg := ConnectHalf, pre := ConnectHalf, sent := ConnectHalf);
    assert [a, b, a][..2] == [a, b] && [a, b][..1] == [a] && [a][..0] == [];
    assert Run(INITIAL, [a]) == h && Run(INITIAL, [a, b]) == INITIAL;
    assert Reports(INITIAL, [a]) == [ConnectHalf] && Reports(INITIAL, [a, b]) == [ConnectHalf, Disconnect];
  }

  /** A filtered value that repeats outside ERROR has its whole effect at once. */
  lemma RepeatIsIdempotent(s: Judge, x: Sample, y: Sample)
    requires Settled(s) && s.neg != Error && y.cap == x.cap
    ensures Step(Step(s, x), y) == Step(s, x)
  {
  }

  lemma {:induction false} RepeatRun(s: Judge, xs: seq<Sample>)
    requires Settled(s) && s.neg != Error && xs != []
    requires forall k :: 0 <= k < |xs| ==> xs[k].cap == xs[0].cap
    ensures Run(s, xs) == Step(s, xs[0])
    ensures Reports(s, xs) == Reports(s, [xs[0]]) && |Reports(s, xs)| <= 1
    decreases |xs|
  {
    hide Step, Settled;
    assert [xs[0]][..0] == [];
    if |xs| == 1 {
      assert xs == [xs[0]];
    } else {
      var front, x := xs[..|xs| - 1], xs[|xs| - 1];
      RepeatRun(s, front);
      RepeatIsIdempotent(s, xs[0], x);
      StepSettled(s, xs[0]);
      SettledPre(Step(s, xs[0]));
    }
  }

  function At(p: PlateState): Judge { Judge(p, p, 0, p) }

  /** There is no dead band between half and fully connected: a value that moves
      OK to HALF and one that moves HALF back to OK can be 1 apart, and such a
      pair exists at no other place than 70000. */
  lemma HalfOkBoundary(a: nat, b: nat)
    ensures Step(At(ConnectHalf), Sample(0.0, a)).neg == ConnectOk && Step(At(ConnectOk), Sample(0.0, b)).neg == ConnectHalf
       <==> LIMIT2_HIGH <= a < LIMIT3_HIGH && LIMIT1_HIGH <= b < LIMIT2_HIGH
  {
  }

  /** One step each way across 70000. */
  lemma HalfOkDeadBandFails()
    ensures Step(At(ConnectHalf), Sample(0.0, 70000)).neg == ConnectOk
    ensures Step(At(ConnectOk), Sample(0.0, 69999)).neg == ConnectHalf
  {
  }

  /** A filtered value leaves the state as it is, whatever the state, iff it is
      exactly 5000000: it is neither below the limit nor above it. */
  lemma HoldsEveryStateIff(c: real, cap: nat)
    ensures (forall s: Judge :: Settled(s) ==> Step(s, Sample(c, cap)).neg == s.neg) <==> cap == LIMIT3_HIGH
  {
    if cap != LIMIT3_HIGH {
      var p := if cap < LIMIT2_HIGH || cap > LIMIT3_HIGH then ConnectOk else Disconnect;
      assert Settled(At(p)) && Step(At(p), Sample(c, cap)).neg != p;
    }
  }

  // --- End to end, from raw measurements ---------------------------------------------------

  /** (uint32_t) of a float as the Cortex-M4 converts it: toward zero, saturating. */
  function Truncate(v: real): nat {
    if v < 0.0 then 0
    else if v >= 4294967295.0 then 4294967295
    else v.Floor
  }

  lemma TruncateRange(v: real, lo: nat, hi: nat)
    requires lo as real <= v < hi as real && hi <= 4294967295
    ensures lo <= Truncate(v) < hi
  {
  }

  function Scaled(cs: seq<real>): (r: seq<real>)
    ensures |r| == |cs|
    ensures forall k :: 0 <= k < |cs| ==> r[k] == cs[k] * 1000.0
  {
    seq(|cs|, k requires 0 <= k < |cs| => cs[k] * 1000.0)
  }

  /** The filtered value after the measurements cs. */
  function Cap(cs: seq<real>): nat
    requires cs != []
  {
    Truncate(Filtered(Scaled(cs), WINDOW))
  }

  function Samples(cs: seq<real>): (r: seq<Sample>)
    ensures |r| == |cs|
    ensures forall k :: 0 <= k < |cs| ==> r[k] == Sample(cs[k], Cap(cs[..k + 1]))
  {
    seq(|cs|, k requires 0 <= k < |cs| => Sample(cs[k], Cap(cs[..k + 1])))
  }

  /** The last eleven scaled measurements. */
  function LastWindow(cs: seq<real>): (w: seq<real>)
    requires |cs| >= WINDOW
    ensures |w| == WINDOW
  {
    Scaled(cs)[|cs| - WINDOW..]
  }

  /** With a full window the filtered value reaches a limit iff at least six of the
      last eleven scaled measurements do. */
  lemma CapNeedsSix(cs: seq<real>, limit: nat)
    requires |cs| >= WINDOW && 0 < limit < 4294967295
    ensures Cap(cs) >= limit <==> Count(LastWindow(cs), AtLeast(limit as real)) >= 6
  {
    hide Median, Count;
    var w := LastWindow(cs);
    var m := Median(w);
    MedianIsMedian(w);
    assert m >= limit as real <==> 2 * Count(w, AtLeast(limit as real)) > |w|;
    TruncateAtLeast(m, limit);
  }

  lemma TruncateAtLeast(v: real, limit: nat)
    requires 0 < limit < 4294967295
    ensures Truncate(v) >= limit <==> v >= limit as real
  {
  }

  /** The filtered value is above the short-circuit limit iff at least six of the
      last eleven scaled measurements are. */
  lemma ShortNeedsSix(cs: seq<real>)
    requires |cs| >= WINDOW
    ensures Cap(cs) > LIMIT3_HIGH <==> Count(LastWindow(cs), AtLeast(5000001.0)) >= 6
  {
    hide Count, Cap;
    CapNeedsSix(cs, 5000001);
  }

  /** Shorts in the measurements that the filter lets through: six of the last
      eleven, or, until eleven have come, the last one alone. */
  predicate FilteredShort(cs: seq<real>)
    requires cs != []
  {
    if |cs| >= WINDOW then Count(LastWindow(cs), AtLeast(5000001.0)) >= 6
    else cs[|cs| - 1] * 1000.0 >= 5000001.0
  }

  /** ERROR is newly entered iff at least six of the last eleven scaled
      measurements are 5000001 or more, so that five outliers never do it, or the
      window is not yet full and the last one is. */
  lemma ErrorEntryIff(cs: seq<real>)
    requires cs != []
    requires Run(INITIAL, Samples(cs[..|cs| - 1])).neg != Error
    ensures Run(INITIAL, Samples(cs)).neg == Error <==> FilteredShort(cs)
  {
    hide Step, Settled, Run, Samples, Count, Cap, Scaled;
    var front, c := cs[..|cs| - 1], cs[|cs| - 1];
    assert cs == front + [c];
    ExtendSamples(front, c);
    RunSnoc(INITIAL, Samples(front), Sample(c, Cap(cs)));
    InitialSettled();
    RunSettled(INITIAL, Samples(front));
    EntryStep(Run(INITIAL, Samples(front)), Sample(c, Cap(cs)));
    if |cs| >= WINDOW { ShortNeedsSix(cs); } else { EarlyCap(cs); }
  }

  /** Before the window is full the last measurement alone decides. */
  lemma EarlyCap(cs: seq<real>)
    requires 0 < |cs| < WINDOW
    ensures Cap(cs) == Truncate(cs[|cs| - 1] * 1000.0)
    ensures Cap(cs) > LIMIT3_HIGH <==> cs[|cs| - 1] * 1000.0 >= 5000001.0
  {
    hide Truncate, Median;
    TruncateAtLeast(cs[|cs| - 1] * 1000.0, 5000001);
  }

  lemma EarlyCapReaches(cs: seq<real>, limit: nat)
    requires 0 < |cs| < WINDOW && 0 < limit < 4294967295
    ensures Cap(cs) >= limit <==> cs[|cs| - 1] * 1000.0 >= limit as real
  {
    hide Truncate, Median, Cap;
    EarlyCap(cs);
    TruncateAtLeast(cs[|cs| - 1] * 1000.0, limit);
  }

  /** One outlier, right after power-up. */
  lemma OneOutlierFails()
    ensures Run(INITIAL, Samples([6000.0])).neg == Error
  {
    hide Step, Cap;
    var cs: seq<real> := [6000.0];
    assert cs[..0] == [] && Samples([]) == [];
    ErrorEntryIff(cs);
  }

  lemma InitialSettled()
    ensures Settled(INITIAL)
  {
  }

  lemma EntryStep(s: Judge, x: Sample)
    requires Settled(s) && s.neg != Error
    ensures Step(s, x).neg == Error <==> x.cap > LIMIT3_HIGH
  {
  }

  lemma MajorityBoundsCap(cs: seq<real>, lo: nat, hi: nat)
    requires |cs| >= WINDOW && hi < 4294967295
    requires Count(LastWindow(cs), Within(lo as real, hi as real)) >= 6
    ensures lo <= Cap(cs) <= hi
  {
    hide Median;
    MajorityBoundsMedian(LastWindow(cs), lo as real, hi as real);
    TruncateRange(Median(LastWindow(cs)), lo, hi + 1);
  }

  /** Filter and judge together: from a moment when the window is full and the
      plate is disconnected or half-connected, as long as six of every eleven
      consecutive measurements stay within a span of 4999 below 70000, whatever
      the other five are, at most one report is made. */
  lemma OutliersCauseOneReport(cs: seq<real>, n: nat, lo: nat)
    requires WINDOW <= n <= |cs|
    ensures lo + 4999 < LIMIT2_HIGH && Outliers(cs, n, lo)
            && Run(INITIAL, Samples(cs)[..n]).neg in {Disconnect, ConnectHalf} ==>
              |Reports(Run(INITIAL, Samples(cs)[..n]), Samples(cs)[n..])| <= 1
  {
    hide Step, Settled, Count, Cap, Run, Reports;
    if lo + 4999 < LIMIT2_HIGH && Outliers(cs, n, lo)
       && Run(INITIAL, Samples(cs)[..n]).neg in {Disconnect, ConnectHalf} {
      var xs := Samples(cs);
      InitialSettled();
      RunSettled(INITIAL, xs[..n]);
      forall k | 0 <= k < |xs[n..]|
        ensures lo <= xs[n..][k].cap < lo + 5000
      {
        assert xs[n..][k] == xs[n + k];
        MajorityBoundsCap(cs[..n + k + 1], lo, lo + 4999);
      }
      NoiseImmunity(Run(INITIAL, xs[..n]), xs[n..], lo);
    }
  }

  /** From n on, six of every last eleven scaled measurements are within 4999 of lo. */
  ghost predicate Outliers(cs: seq<real>, n: nat, lo: nat)
    requires WINDOW <= n <= |cs|
  {
    forall k :: n < k <= |cs| ==> Count(LastWindow(cs[..k]), Within(lo as real, (lo + 4999) as real)) >= 6
  }

  /** The measurements from n on: none is above 5000 million when scaled, and six
      of every last eleven are below 100000 when scaled. */
  ghost predicate RareShorts(cs: seq<real>, n: nat)
    requires WINDOW <= n <= |cs|
  {
    forall k :: n < k <= |cs| ==>
      cs[k - 1] <= 5_000_000.0 && Count(LastWindow(cs[..k]), Under(100_000.0)) >= 6
  }

  function Under(x: real): real -> bool { v => v < x }

  lemma {:induction false} CountUnder(s: seq<real>, x: real)
    ensures Count(s, Under(x)) + Count(s, AtLeast(x)) == |s|
    decreases |s|
  {
    if s != [] { CountUnder(s[1..], x); }
  }

  /** From ERROR, such measurements use up the hold-off one by one, however many
      of them exceed 5000000 when scaled. */
  lemma RareShortsDoNotRearm(cs: seq<real>, n: nat)
    requires WINDOW <= n <= |cs|
    ensures RareShorts(cs, n) && Run(INITIAL, Samples(cs[..n])).neg == Error ==>
              (Run(INITIAL, Samples(cs)).neg == Error <==> |cs| - n <= Run(INITIAL, Samples(cs[..n])).reduce)
  {
    hide Step, Settled, Count, Cap, Run, Quiet;
    if RareShorts(cs, n) && Run(INITIAL, Samples(cs[..n])).neg == Error {
      var xs := Samples(cs);
      SamplesPrefix(cs, n);
      RunSplit(INITIAL, xs, n);
      InitialSettled();
      RunSettled(INITIAL, xs[..n]);
      forall k | 0 <= k < |xs[n..]|
        ensures Calm(xs[n..][k]) && xs[n..][k].cap < LIMIT3_LOW
      {
        assert xs[n..][k] == xs[n + k];
        CapNeedsSix(cs[..n + k + 1], 100_000);
        CountUnder(LastWindow(cs[..n + k + 1]), 100_000.0);
      }
      QuietAll(xs[n..]);
      CalmRun(Run(INITIAL, xs[..n]), xs[n..]);
    }
  }

  lemma SamplesPrefix(cs: seq<real>, n: nat)
    requires n <= |cs|
    ensures Samples(cs)[..n] == Samples(cs[..n])
  {
    hide Cap;
    forall k | 0 <= k < n ensures Samples(cs)[k] == Samples(cs[..n])[k] { assert cs[..n][..k + 1] == cs[..k + 1]; }
  }

  lemma {:induction false} RunSplit(s: Judge, xs: seq<Sample>, n: nat)
    requires n <= |xs|
    ensures Run(s, xs) == Run(Run(s, xs[..n]), xs[n..])
    decreases |xs|
  {
    hide Step;
    if |xs| == n {
      assert xs[..n] == xs;
    } else {
      var front := xs[..|xs| - 1];
      RunSplit(s, front, n);
      assert front[..n] == xs[..n] && xs[n..][..|xs[n..]| - 1] == front[n..];
    }
  }

  lemma {:induction false} QuietAll(xs: seq<Sample>)
    requires forall k :: 0 <= k < |xs| ==> xs[k].cap < LIMIT3_LOW
    ensures Quiet(xs) == |xs|
    decreases |xs|
  {
    if xs != [] {
      var front := xs[..|xs| - 1];
      assert forall k :: 0 <= k < |front| ==> front[k] == xs[k];
      QuietAll(front);
    }
  }

  /** 5001.0 counts as a short once scaled; it comes eleven times and then five
      times in a lull. */
  function Shorts(n: nat): (cs: seq<real>)
    ensures |cs| == n
    ensures forall k :: 0 <= k < n ==> cs[k] == if k < 11 || 17 <= k < 22 then 5001.0 else 0.0
  {
    seq(n, k => if k < 11 || 17 <= k < 22 then 5001.0 else 0.0)
  }

  lemma CountAtLeastRange(s: seq<real>, p: real -> bool, lo: nat, hi: nat)
    requires lo <= hi <= |s| && forall k :: lo <= k < hi ==> p(s[k])
    ensures Count(s, p) >= hi - lo
    ensures Count(s, p) == Count(s[..lo], p) + (hi - lo) + Count(s[hi..], p)
  {
    CountSplit(s, hi, p);
    CountSplit(s[..hi], lo, p);
    assert s[..hi][..lo] == s[..lo];
    CountAll(s[..hi][lo..], p);
  }

  /** Sixteen measurements in, ERROR is held with the full hold-off. */
  lemma ShortsArm()
    ensures Run(INITIAL, Samples(Shorts(16))).neg == Error && Run(INITIAL, Samples(Shorts(16))).reduce == ERROR_REDUCE
  {
    hide Step, Run, Samples, Count, Cap, Settled, Arms;
    var cs := Shorts(16);
    var front := Shorts(15);
    assert cs == front + [0.0];
    ExtendSamples(front, 0.0);
    RunSnoc(INITIAL, Samples(front), Sample(0.0, Cap(cs)));
    InitialSettled();
    RunSettled(INITIAL, Samples(front));
    assert Cap(cs) > LIMIT3_HIGH by {
      CountAtLeastRange(LastWindow(cs), AtLeast(5000001.0), 0, 6);
      ShortNeedsSix(cs);
    }
    ShortArms(Run(INITIAL, Samples(front)), Sample(0.0, Cap(cs)));
  }

  lemma ShortArms(s: Judge, x: Sample)
    requires Settled(s) && x.cap > LIMIT3_HIGH
    ensures Step(s, x).neg == Error && Step(s, x).reduce == ERROR_REDUCE
  {
  }

  lemma ShortsAreRare(n: nat)
    requires 16 <= n <= 27
    ensures RareShorts(Shorts(n), 16)
  {
    hide Count;
    var cs, p := Shorts(n), Under(100_000.0);
    forall k | 16 < k <= n
      ensures Count(LastWindow(cs[..k]), p) >= 6
    {
      var w := LastWindow(cs[..k]);
      if k <= 22 {
        CountAtLeastRange(w, p, 22 - k, 28 - k);
      } else {
        CountAtLeastRange(w, p, 0, 28 - k);
        CountAtLeastRange(w[28 - k..], p, 5, k - 17);
      }
    }
  }

  /** A measurement of 5001000 after scaling does not re-arm: ERROR is left with
      the eleventh sample after the last filtered short, though five of those
      eleven were such measurements. */
  lemma ScaledShortsDoNotRearm()
    ensures forall k :: 17 <= k < 22 ==> Shorts(27)[k] * 1000.0 > LIMIT3_HIGH as real
    ensures Run(INITIAL, Samples(Shorts(26))).neg == Error && Run(INITIAL, Samples(Shorts(27))).neg != Error
  {
    hide Run, Samples;
    ShortsArm();
    ShortsAreRare(26);
    ShortsAreRare(27);
    assert Shorts(26)[..16] == Shorts(16) && Shorts(27)[..16] == Shorts(16);
    RareShortsDoNotRearm(Shorts(26), 16);
    RareShortsDoNotRearm(Shorts(27), 16);
  }

  /** The last state made known to the main board. */
  function LastReported(cs: seq<real>): PlateState {
    var rs := [Disconnect] + Reports(INITIAL, Samples(cs));
    rs[|rs| - 1]
  }

  /** Six of the last eleven scaled measurements below a limit, six at or above
      another: the filtered value is between the two. */
  lemma CapBetween(cs: seq<real>, lo: nat, hi: nat)
    requires |cs| >= WINDOW && hi < 4294967295
    requires 0 < lo ==> Count(LastWindow(cs), AtLeast(lo as real)) >= 6
    requires 0 < hi && Count(LastWindow(cs), Under(hi as real)) >= 6
    ensures lo <= Cap(cs) < hi
  {
    hide Cap, Count;
    if lo > 0 {
      if lo < 4294967295 { CapNeedsSix(cs, lo); } else { BothHalves(cs, lo, hi); }
    }
    CapNeedsSix(cs, hi);
    CountUnder(LastWindow(cs), hi as real);
  }

  lemma BothHalves(cs: seq<real>, lo: nat, hi: nat)
    requires |cs| >= WINDOW && hi <= lo
    requires Count(LastWindow(cs), AtLeast(lo as real)) >= 6
    ensures Count(LastWindow(cs), Under(hi as real)) < 6
  {
    hide Count, LastWindow;
    CountUnder(LastWindow(cs), hi as real);
    CountImplies(LastWindow(cs), AtLeast(lo as real), AtLeast(hi as real));
  }

  /** The plate comes off: outside ERROR, once six of the last eleven scaled
      measurements are below 15000, the main board has been told DISCONNECT. */
  lemma DisconnectReported(cs: seq<real>)
    requires |cs| >= WINDOW
    ensures Run(INITIAL, Samples(cs[..|cs| - 1])).neg != Error && Count(LastWindow(cs), Under(15000.0)) >= 6 ==>
              Run(INITIAL, Samples(cs)).neg == Disconnect && LastReported(cs) == Disconnect
  {
    hide Step, Settled, Run, Samples, Count, Cap, Reports, LastReported;
    if Run(INITIAL, Samples(cs[..|cs| - 1])).neg != Error && Count(LastWindow(cs), Under(15000.0)) >= 6 {
      CapBetween(cs, 0, 15000);
      AfterLast(cs);
    }
  }

  /** Half on: six from 20000 and six below 50000. */
  lemma HalfReported(cs: seq<real>)
    requires |cs| >= WINDOW
    ensures Run(INITIAL, Samples(cs[..|cs| - 1])).neg != Error
            && Count(LastWindow(cs), AtLeast(20000.0)) >= 6 && Count(LastWindow(cs), Under(50000.0)) >= 6 ==>
              Run(INITIAL, Samples(cs)).neg == ConnectHalf && LastReported(cs) == ConnectHalf
  {
    hide Step, Settled, Run, Samples, Count, Cap, Reports, LastReported;
    if Run(INITIAL, Samples(cs[..|cs| - 1])).neg != Error
       && Count(LastWindow(cs), AtLeast(20000.0)) >= 6 && Count(LastWindow(cs), Under(50000.0)) >= 6 {
      CapBetween(cs, 20000, 50000);
      AfterLast(cs);
    }
  }

  /** Fully on: six from 70000 and six below 5000000. */
  lemma ConnectReported(cs: seq<real>)
    requires |cs| >= WINDOW
    ensures Run(INITIAL, Samples(cs[..|cs| - 1])).neg != Error
            && Count(LastWindow(cs), AtLeast(70000.0)) >= 6 && Count(LastWindow(cs), Under(5000000.0)) >= 6 ==>
              Run(INITIAL, Samples(cs)).neg == ConnectOk && LastReported(cs) == ConnectOk
  {
    hide Step, Settled, Run, Samples, Count, Cap, Reports, LastReported;
    if Run(INITIAL, Samples(cs[..|cs| - 1])).neg != Error
       && Count(LastWindow(cs), AtLeast(70000.0)) >= 6 && Count(LastWindow(cs), Under(5000000.0)) >= 6 {
      CapBetween(cs, 70000, 5000000);
      AfterLast(cs);
    }
  }

  /** The last measurement's step, and that the last report is the state. */
  lemma AfterLast(cs: seq<real>)
    requires cs != [] && Run(INITIAL, Samples(cs[..|cs| - 1])).neg != Error
    ensures LastReported(cs) == Run(INITIAL, Samples(cs)).neg
    ensures var n := Run(INITIAL, Samples(cs)).neg; var cap := Cap(cs);
            && (cap < 15000 ==> n == Disconnect)
            && (20000 <= cap < 50000 ==> n == ConnectHalf)
            && (70000 <= cap < 5000000 ==> n == ConnectOk)
            && (cap > 5000000 ==> n == Error)
  {
    hide Step, Settled, Run, Samples, Cap, Reports;
    var front, c := cs[..|cs| - 1], cs[|cs| - 1];
    assert cs == front + [c];
    ExtendSamples(front, c);
    RunSnoc(INITIAL, Samples(front), Sample(c, Cap(cs)));
    InitialSettled();
    RunSettled(INITIAL, Samples(front));
    RunSettled(INITIAL, Samples(cs));
    NextState(Run(INITIAL, Samples(front)), Sample(c, Cap(cs)));
  }

  // --- The code ---------------------------------------------------------------------------------

  /** lcr_info_judge with its static variables and the filter it feeds. */
  class PlateMonitor {
    var negState: PlateState
    var preNegState: PlateState
    var errorReduce: nat
    var sentState: PlateState          // g_send_info.neg_state
    var sentCap: nat                   // g_send_info.cap
    var reports: seq<PlateState>       // monitor_board_inform_info_send calls
    const filter: Filter
    ghost var measured: seq<real>      // every measurement so far

    ghost predicate Valid()
      reads this, filter, filter.window
    {
      && filter.Valid() && filter.size == WINDOW && filter.history == Scaled(measured)
      && Abs() == Run(INITIAL, Samples(measured))
      && reports == Reports(INITIAL, Samples(measured))
    }

    ghost function Abs(): Judge
      reads this
    {
      Judge(negState, preNegState, errorReduce, sentState)
    }

    constructor ()
      ensures Valid() && measured == [] && fresh(filter) && fresh(filter.window) && fresh(filter.sorted)
    {
      negState, preNegState, errorReduce := Disconnect, Disconnect, 0;
      sentState, sentCap, reports, measured := Disconnect, 0, [], [];
      filter := new Filter(WINDOW);
    }

    /** lcr_info_judge after the filter: the band tests, then the report. */
    method JudgeCap(c: real, cap: nat)
      modifies this`negState, this`preNegState, this`errorReduce, this`sentState, this`sentCap, this`reports
      ensures Abs() == Step(old(Abs()), Sample(c, cap))
      ensures reports == old(reports) + (match Report(old(Abs()), Sample(c, cap)) case None => [] case Some(r) => [r])
      ensures sentCap == cap
    {
      MoveState(c, cap);
      sentCap := cap;
      if preNegState != negState {
        preNegState := negState;
        sentState := negState;
        reports := reports + [negState];
      }
    }

    method MoveState(c: real, cap: nat)
      modifies `negState, `errorReduce
      ensures negState == Step(old(Abs()), Sample(c, cap)).neg
      ensures errorReduce == Step(old(Abs()), Sample(c, cap)).reduce
    {
      if negState == Error && c > LIMIT3_HIGH as real {
        errorReduce := ERROR_REDUCE;
      }
      if cap < LIMIT1_LOW {
        Leave(Disconnect);
      } else if cap < LIMIT1_HIGH {
        if !(preNegState == Disconnect || preNegState == ConnectHalf) {
          Leave(Disconnect);
        }
      } else if cap < LIMIT2_LOW {
        Leave(ConnectHalf);
      } else if cap < LIMIT2_HIGH {
        if !(preNegState == Disconnect || preNegState == ConnectHalf) {
          Leave(ConnectHalf);
        }
      } else if cap < LIMIT3_LOW {
        Leave(ConnectOk);
      } else if cap < LIMIT3_HIGH {
        if !(preNegState == ConnectOk || preNegState == Error) {
          Leave(ConnectOk);
        }
      } else if cap > LIMIT3_HIGH {
        errorReduce := ERROR_REDUCE;
        negState := Error;
      }
    }

    /** The branch body repeated in every band: count down, or change state. */
    method Leave(to: PlateState)
      modifies `negState, `errorReduce
      ensures negState == if old(errorReduce) > 0 then old(negState) else to
      ensures errorReduce == if old(errorReduce) > 0 then old(errorReduce) - 1 else 0
    {
      if errorReduce > 0 {
        errorReduce := errorReduce - 1;
      } else {
        negState := to;
      }
    }

    /** lcr_info_judge. */
    method JudgeSample(c: real)
      requires Valid()
      modifies this, filter, filter.window, filter.sorted
      ensures Valid() && measured == old(measured) + [c]
      ensures sentCap == Cap(measured)
    {
      hide Step, Report, Filtered, Median, Run, Reports, Samples, Scaled, RingOk;
      ghost var cs := measured + [c];
      ExtendSamples(measured, c);
      var median := filter.Handle(c * 1000.0);
      RunSnoc(INITIAL, Samples(measured), Sample(c, Cap(cs)));
      JudgeCap(c, Truncate(median));
      measured := cs;
    }
  }

  lemma ExtendSamples(cs: seq<real>, c: real)
    ensures Scaled(cs + [c]) == Scaled(cs) + [c * 1000.0]
    ensures Samples(cs + [c]) == Samples(cs) + [Sample(c, Cap(cs + [c]))]
    ensures Samples(cs + [c])[..|cs|] == Samples(cs)
  {
    hide Cap;
    var ds := cs + [c];
    assert ds[..|cs| + 1] == ds;
    forall k | 0 <= k < |cs| ensures Samples(ds)[k] == Samples(cs)[k] { assert ds[..k + 1] == cs[..k + 1]; }
  }
}
