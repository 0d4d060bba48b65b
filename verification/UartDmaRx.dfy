/** DMA receive accounting of drivers/drv_usart_v2.c: a circular DMA transfer,
    its half (HT) and complete (TC) interrupts, the UART idle interrupt, and
    dma_recv_isr, which turns the DMA counter into a number of new bytes. */
module UartDmaRx {

  type byte = bv8

  datatype Flag = IdleFlag | HtFlag | TcFlag

  /** n is rx_bufsz; pos is where the DMA writes next, so the DMA counter is
      n - pos; stream is everything received and delivered everything handed on. */
  datatype RawState = State(n: nat, ring: seq<byte>, pos: nat, ht: bool, tc: bool, remaining: nat,
                            stream: seq<byte>, delivered: seq<byte>)

  predicate Shaped(s: RawState) {
    s.n > 0 && |s.ring| == s.n && s.pos < s.n && 0 < s.remaining <= s.n
  }

  type State = s: RawState | Shaped(s) witness State(1, [0], 0, false, false, 1, [], [])

  function Counter(s: State): nat {
    s.n - s.pos
  }

  function Backlog(s: State): int {
    |s.stream| - |s.delivered|
  }

  /** Ring index i places after index q. */
  function Wrap(q: nat, i: nat, n: nat): nat
    requires q < n && i <= n
  {
    if q + i < n then q + i else q + i - n
  }

  /** The next len bytes of the ring after read position q. */
  function Chunk(ring: seq<byte>, q: nat, len: nat): (c: seq<byte>)
    requires q < |ring| && len <= |ring|
    ensures |c| == len && forall i :: 0 <= i < len ==> c[i] == ring[Wrap(q, i, |ring|)]
  {
    seq(len, i requires 0 <= i < len => ring[Wrap(q, i, |ring|)])
  }

  /** A byte arrives: the DMA stores it, moves on, and raises HT at the middle
      and TC on wrapping to the start. */
  function Arrive(s: State, b: byte): State {
    var next := s.pos + 1;
    s.(ring := s.ring[s.pos := b], stream := s.stream + [b],
       pos := if next == s.n then 0 else next,
       ht := s.ht || next == s.n / 2, tc := s.tc || next == s.n)
  }

  /** recv_len as dma_recv_isr computes it. */
  function RecvLen(s: State, flag: Flag): (len: nat)
    ensures len <= s.n
  {
    match flag
    case IdleFlag => if Counter(s) <= s.remaining then s.remaining - Counter(s) else s.n + s.remaining - Counter(s)
    case HtFlag => if Counter(s) < s.remaining then s.remaining - Counter(s) else 0
    case TcFlag => if Counter(s) >= s.remaining then s.n + s.remaining - Counter(s) else 0
  }

  /** dma_recv_isr, with the interrupt flag cleared by its caller. */
  function Isr(s: State, flag: Flag): State {
    var len := RecvLen(s, flag);
    var t := match flag case IdleFlag => s case HtFlag => s.(ht := false) case TcFlag => s.(tc := false);
    if len == 0 then t
    else t.(remaining := Counter(s), delivered := s.delivered + Chunk(s.ring, s.n - s.remaining, len))
  }

  // --- Runs ---------------------------------------------------------------------

  datatype Event = Byte(b: byte) | Irq(flag: Flag)

  /** HT and TC run when pending; they outrank IDLE, of which only this matters,
      that IDLE does not run before a pending TC; a byte may arrive while the backlog is less than the ring. */
  predicate Enabled(s: State, ev: Event) {
    match ev
    case Byte(_) => Backlog(s) < s.n
    case Irq(HtFlag) => s.ht
    case Irq(TcFlag) => s.tc
    case Irq(IdleFlag) => !s.tc
  }

  function Next(s: State, ev: Event): State {
    match ev case Byte(b) => Arrive(s, b) case Irq(flag) => Isr(s, flag)
  }

  /** The remainder of k by n, by repeated subtraction. */
  function Rem(k: nat, n: nat): nat
    requires n > 0
    decreases k
  {
    if k < n then k else Rem(k - n, n)
  }

  lemma {:induction false} RemIsModulo(k: nat, n: nat)
    requires n > 0
    ensures Rem(k, n) == k % n
    decreases k
  {
    if k >= n {
      RemIsModulo(k - n, n);
      ModuloLap(k, n);
    }
  }

  lemma ModuloLap(k: nat, n: nat)
    requires 0 < n <= k
    ensures (k - n) % n == k % n
  {
    var q, r := (k - n) / n, (k - n) % n;
    assert k - n == q * n + r;
    assert k == (q + 1) * n + r;
    QuotientUnique(k, n, q + 1, r);
  }

  lemma QuotientUnique(k: nat, n: nat, q: nat, r: nat)
    requires n > 0 && r < n && k == q * n + r
    ensures k % n == r
  {
    var p := k / n;
    assert k == p * n + k % n;
    if p < q { LapsApart(q - p, n); } else if q < p { LapsApart(p - q, n); }
    assert (p - q) * n == p * n - q * n;
    assert (q - p) * n == q * n - p * n;
  }

  lemma LapsApart(d: nat, n: nat)
    requires d >= 1
    ensures d * n >= n
  {
  }

  lemma {:induction false} RemAdvance(k: nat, i: nat, n: nat)
    requires n > 0 && i <= n
    ensures Rem(k, n) < n && Rem(k + i, n) == Wrap(Rem(k, n), i, n)
    decreases k
  {
    if k >= n {
      RemAdvance(k - n, i, n);
    } else if k + i >= n {
      assert Rem(k + i, n) == Rem(k + i - n, n) == k + i - n;
    }
  }

  /** The backlog is the distance from the read to the write position, one lap
      more exactly when TC is pending; the unreported bytes are all in the ring;
      and what was delivered is the start of the stream. */
  ghost predicate Accounted(s: State) {
    && var q := s.n - s.remaining;
    && q == Rem(|s.delivered|, s.n)
    && (if s.tc then s.pos <= q && Backlog(s) == s.n - q + s.pos else q <= s.pos && Backlog(s) == s.pos - q)
    && 0 <= Backlog(s) <= s.n
    && s.delivered == s.stream[..|s.delivered|]
    && Chunk(s.ring, q, Backlog(s)) == s.stream[|s.delivered|..]
  }

  lemma ChunkExtend(ring: seq<byte>, q: nat, len: nat, b: byte)
    requires q < |ring| && len < |ring|
    ensures Chunk(ring[Wrap(q, len, |ring|) := b], q, len + 1) == Chunk(ring, q, len) + [b]
  {
    forall i | 0 <= i < len
      ensures Wrap(q, i, |ring|) != Wrap(q, len, |ring|)
    {
    }
  }

  /** The write position is the backlog past the read position. */
  lemma WritePosition(s: State)
    requires Accounted(s) && Backlog(s) < s.n
    ensures s.pos == Wrap(s.n - s.remaining, Backlog(s), s.n)
  {
    hide Rem, Chunk;
  }

  lemma ArriveDistance(s: State, b: byte)
    requires Accounted(s) && Backlog(s) < s.n
    ensures var t := Arrive(s, b); var q := s.n - s.remaining;
            if t.tc then t.pos <= q && Backlog(t) == s.n - q + t.pos else q <= t.pos && Backlog(t) == t.pos - q
  {
    hide Rem, Chunk, Wrap;
  }

  lemma ArriveAccounted(s: State, b: byte)
    requires Accounted(s) && Backlog(s) < s.n
    ensures Accounted(Arrive(s, b))
  {
    hide Rem, Chunk, Wrap;
    var t := Arrive(s, b);
    WritePosition(s);
    ArriveDistance(s, b);
    ChunkExtend(s.ring, s.n - s.remaining, Backlog(s), b);
    assert t.stream[|s.delivered|..] == s.stream[|s.delivered|..] + [b];
  }

  /** What a handler reports in terms of the bytes really outstanding, given that
      the books are in order: the backlog, but HT leaves it to a pending TC, IDLE
      before a pending TC misses exactly a full ring, and TC when none is pending
      reports a full ring that is not there. */
  lemma RecvLenIs(s: State, flag: Flag)
    requires Accounted(s)
    ensures RecvLen(s, flag) ==
              match flag
              case IdleFlag => if s.tc && Backlog(s) == s.n then 0 else Backlog(s)
              case HtFlag => if s.tc then 0 else Backlog(s)
              case TcFlag => if s.tc then Backlog(s) else if Backlog(s) == 0 then s.n else 0
  {
  }

  lemma HandlerReports(s: State, flag: Flag)
    requires Accounted(s) && Enabled(s, Irq(flag)) && flag != HtFlag
    ensures RecvLen(s, flag) == Backlog(s)
  {
    RecvLenIs(s, flag);
  }

  lemma EmptyChunk(ring: seq<byte>, q: nat)
    requires q < |ring|
    ensures Chunk(ring, q, 0) == []
  {
  }

  /** dma_recv_isr field by field. */
  lemma IsrFields(s: State, flag: Flag)
    ensures var len := RecvLen(s, flag);
            Isr(s, flag) == State(s.n, s.ring, s.pos, s.ht && flag != HtFlag, s.tc && flag != TcFlag,
                                  if len > 0 then s.n - s.pos else s.remaining,
                                  s.stream, s.delivered + Chunk(s.ring, s.n - s.remaining, len))
  {
    EmptyChunk(s.ring, s.n - s.remaining);
  }

  lemma ChunkIsBacklog(s: State)
    requires Accounted(s)
    ensures s.delivered + Chunk(s.ring, s.n - s.remaining, Backlog(s)) == s.stream
  {
    hide Chunk;
    assert s.stream == s.stream[..|s.delivered|] + s.stream[|s.delivered|..];
  }

  lemma AllReported(s: State)
    requires s.delivered == s.stream && !s.tc && s.pos == s.n - s.remaining == Rem(|s.delivered|, s.n)
    ensures Accounted(s)
  {
    EmptyChunk(s.ring, s.pos);
  }

  lemma ReportAll(s: State, flag: Flag)
    requires Accounted(s) && RecvLen(s, flag) == Backlog(s) && (s.tc ==> flag == TcFlag)
    ensures Accounted(Isr(s, flag)) && Isr(s, flag).delivered == s.stream
  {
    hide Chunk, Rem;
    ChunkIsBacklog(s);
    RemAdvance(|s.delivered|, Backlog(s), s.n);
    assert Wrap(s.n - s.remaining, Backlog(s), s.n) == s.pos;
    AllReported(Isr(s, flag));
  }

  lemma StepAccounted(s: State, ev: Event)
    requires Accounted(s) && Enabled(s, ev)
    ensures Accounted(Next(s, ev))
    ensures ev == Irq(IdleFlag) || ev == Irq(TcFlag) ==> Next(s, ev).delivered == Next(s, ev).stream == s.stream
  {
    match ev
    case Byte(b) => ArriveAccounted(s, b);
    case Irq(flag) =>
      RecvLenIs(s, flag);
      if s.tc ==> flag == TcFlag {
        ReportAll(s, flag);
      }
  }

  /** stm32_configure and stm32_dma_config: an empty ring, nothing received. */
  predicate Initial(s: State) {
    s.pos == 0 && !s.ht && !s.tc && s.remaining == s.n && s.stream == [] && s.delivered == []
  }

  function Run(s: State, evs: seq<Event>): State
    decreases |evs|
  {
    if evs == [] then s else Next(Run(s, evs[..|evs| - 1]), evs[|evs| - 1])
  }

  /** Each event is enabled when its turn comes. */
  predicate Schedule(s: State, evs: seq<Event>)
    decreases |evs|
  {
    evs == [] || (Schedule(s, evs[..|evs| - 1]) && Enabled(Run(s, evs[..|evs| - 1]), evs[|evs| - 1]))
  }

  /** The sum of every recv_len of a run. */
  function Reported(s: State, evs: seq<Event>): nat
    decreases |evs|
  {
    if evs == [] then 0 else
      var front, ev := evs[..|evs| - 1], evs[|evs| - 1];
      Reported(s, front) + (if ev.Irq? then RecvLen(Run(s, front), ev.flag) else 0)
  }

  lemma InitialAccounted(s: State)
    requires Initial(s)
    ensures Accounted(s)
  {
  }

  lemma StepCounts(s: State, ev: Event)
    ensures var t := Next(s, ev);
            t.n == s.n && |t.delivered| == |s.delivered| + (if ev.Irq? then RecvLen(s, ev.flag) else 0)
  {
  }

  /** In every interleaving of arrivals and handlers the sum of all recv_len is
      the number of bytes delivered; they are the beginning of what was received,
      byte for byte; remaining is rx_bufsz less that sum modulo rx_bufsz; and
      after an idle or transfer-complete handler nothing is outstanding. */
  lemma {:induction false} EveryByteOnce(s: State, evs: seq<Event>)
    requires Initial(s) && Schedule(s, evs)
    ensures var t := Run(s, evs);
            && t.n == s.n
            && |t.delivered| == Reported(s, evs) <= |t.stream|
            && t.delivered == t.stream[..Reported(s, evs)]
            && t.remaining == s.n - Reported(s, evs) % s.n
            && (evs != [] && (evs[|evs| - 1] == Irq(IdleFlag) || evs[|evs| - 1] == Irq(TcFlag)) ==> t.delivered == t.stream)
    ensures Accounted(Run(s, evs))
    decreases |evs|
  {
    hide Next, Enabled, RecvLen, Rem, Wrap;
    RemIsModulo(Reported(s, evs), s.n);
    if evs == [] {
      InitialAccounted(s);
    } else {
      var front, ev := evs[..|evs| - 1], evs[|evs| - 1];
      EveryByteOnce(s, front);
      StepAccounted(Run(s, front), ev);
      StepCounts(Run(s, front), ev);
    }
  }

  // --- Why the priorities and the bound are needed -----------------------------------

  /** If IDLE runs while TC is pending, the two together report the true number
      iff a full ring is outstanding; otherwise TC adds a whole ring of bytes
      that never came. */
  lemma IdleBeforeTcDoubleReports(s: State)
    requires Accounted(s) && s.tc
    ensures var sum := RecvLen(s, IdleFlag) + RecvLen(Isr(s, IdleFlag), TcFlag);
            && (sum == Backlog(s) <==> Backlog(s) == s.n)
            && (Backlog(s) < s.n ==> sum == Backlog(s) + s.n)
  {
  }

  /** Such a moment comes: a ring of four, three bytes, HT, one byte. */
  lemma IdleBeforeTcCanHappen(s: State, b: byte)
    requires Initial(s) && s.n == 4
    ensures var evs := [Byte(b), Byte(b), Byte(b), Irq(HtFlag), Byte(b)]; var t := Run(s, evs);
            Schedule(s, evs) && Accounted(t) && t.tc && Backlog(t) == 1
  {
    hide Next, Enabled, Accounted, Run, Schedule, Backlog, Initial;
    var e, h := Byte(b), Irq(HtFlag);
    var evs := [e, e, e, h, e];
    ThreeBytesHtByte(s, b);
    RunNil(s);
    RunSnoc(s, [], e);
    RunSnoc(s, [e], e);
    RunSnoc(s, [e, e], e);
    RunSnoc(s, [e, e, e], h);
    RunSnoc(s, [e, e, e, h], e);
    assert [] + [e] == [e] && [e] + [e] == [e, e] && [e, e] + [e] == [e, e, e];
    assert [e, e, e] + [h] == [e, e, e, h] && [e, e, e, h] + [e] == evs;
    EveryByteOnce(s, evs);
  }

  lemma ThreeBytesHtByte(s: State, b: byte)
    requires Initial(s) && s.n == 4
    ensures var e, h := Byte(b), Irq(HtFlag);
            var s1 := Next(s, e); var s2 := Next(s1, e); var s3 := Next(s2, e); var s4 := Next(s3, h); var t := Next(s4, e);
            && Enabled(s, e) && Enabled(s1, e) && Enabled(s2, e) && Enabled(s3, h) && Enabled(s4, e)
            && t.tc && Backlog(t) == 1
  {
    hide Chunk;
  }

  lemma RunNil(s: State)
    ensures Run(s, []) == s && Schedule(s, [])
  {
  }

  lemma RunSnoc(s: State, evs: seq<Event>, ev: Event)
    ensures Run(s, evs + [ev]) == Next(Run(s, evs), ev)
    ensures Schedule(s, evs + [ev]) <==> Schedule(s, evs) && Enabled(Run(s, evs), ev)
  {
    hide Next, Enabled;
    assert (evs + [ev])[..|evs|] == evs;
  }

  /** With one byte more than the ring holds, an unreported byte is overwritten
      and the books are out by a whole ring: a handler then reports one byte at
      most of the n + 1 outstanding. */
  lemma OverrunNeverReported(s: State, b: byte, flag: Flag)
    requires Accounted(s) && Backlog(s) == s.n
    ensures var t := Arrive(s, b);
            && Backlog(t) == t.n + 1 && RecvLen(t, flag) <= 1
            && Wrap(t.n - t.remaining, 0, t.n) == s.pos && t.ring[s.pos] == b
  {
  }

  // --- The code --------------------------------------------------------------------------

  class UartRx {
    const rxBufsz: nat
    const buffer: array<byte>     // the DMA target, rx_fifo->buffer
    var pos: nat                  // the DMA counter is rxBufsz - pos
    var ht: bool
    var tc: bool
    var remainingCnt: nat         // dma_rx.remaining_cnt
    var delivered: seq<byte>      // the bytes rt_hw_serial_isr has been told of
    ghost var stream: seq<byte>

    ghost predicate Valid()
      reads this, buffer
    {
      rxBufsz > 0 && buffer.Length == rxBufsz && pos < rxBufsz && 0 < remainingCnt <= rxBufsz && Accounted(Abs())
    }

    ghost function Abs(): RawState
      reads this, buffer
    {
      State(rxBufsz, buffer[..], pos, ht, tc, remainingCnt, stream, delivered)
    }

    constructor (bufsz: nat)
      requires bufsz > 0
      ensures Valid() && Initial(Abs()) && rxBufsz == bufsz && fresh(buffer)
    {
      rxBufsz, pos, ht, tc, remainingCnt, delivered, stream := bufsz, 0, false, false, bufsz, [], [];
      buffer := new byte[bufsz];
      new;
      InitialAccounted(Abs());
    }

    /** The DMA stores one byte. */
    method ByteArrives(b: byte)
      requires Valid() && Backlog(Abs()) < rxBufsz
      modifies this, buffer
      ensures Valid() && Abs() == Arrive(old(Abs()), b)
    {
      hide Accounted;
      ArriveAccounted(Abs(), b);
      buffer[pos] := b;
      stream := stream + [b];
      pos := pos + 1;
      if pos == rxBufsz / 2 { ht := true; }
      if pos == rxBufsz {
        pos := 0;
        tc := true;
      }
    }

    /** dma_recv_isr, up to the report: recv_len for the present counter. */
    method NewBytes(flag: Flag) returns (recvLen: nat)
      requires Valid()
      ensures recvLen ==
                match flag
                case IdleFlag => if tc && |stream| - |delivered| == rxBufsz then 0 else |stream| - |delivered|
                case HtFlag => if tc then 0 else |stream| - |delivered|
                case TcFlag => if tc then |stream| - |delivered| else if |stream| == |delivered| then rxBufsz else 0
    {
      hide Chunk, Rem;
      recvLen := 0;
      var counter := rxBufsz - pos;
      match flag {
        case IdleFlag =>
          if counter <= remainingCnt {
            recvLen := remainingCnt - counter;
          } else {
            recvLen := rxBufsz + remainingCnt - counter;
          }
        case HtFlag =>
          if counter < remainingCnt {
            recvLen := remainingCnt - counter;
          }
        case TcFlag =>
          if counter >= remainingCnt {
            recvLen := rxBufsz + remainingCnt - counter;
          }
      }
    }

    /** The fields dma_recv_isr and its caller write. */
    method Update(flag: Flag, recvLen: nat)
      requires Valid() && recvLen == RecvLen(Abs(), flag)
      modifies `remainingCnt, `delivered, `ht, `tc
      ensures Abs() == Isr(old(Abs()), flag)
    {
      hide Accounted, RecvLen, Chunk, Isr;
      IsrFields(Abs(), flag);
      delivered := delivered + Chunk(buffer[..], rxBufsz - remainingCnt, recvLen);
      if recvLen > 0 {
        remainingCnt := rxBufsz - pos;
      }
      ht := ht && flag != HtFlag;
      tc := tc && flag != TcFlag;
    }

    /** dma_recv_isr, called from the handler that cleared the flag. */
    method DmaRecvIsr(flag: Flag) returns (recvLen: nat)
      requires Valid() && Enabled(Abs(), Irq(flag))
      modifies `remainingCnt, `delivered, `ht, `tc
      ensures Valid() && Abs() == Isr(old(Abs()), flag)
      ensures recvLen == RecvLen(old(Abs()), flag)
      ensures flag != HtFlag ==> delivered == stream && recvLen == old(Backlog(Abs()))
    {
      hide Accounted, RecvLen, Chunk, Isr, Enabled;
      StepAccounted(Abs(), Irq(flag));
      if flag != HtFlag { HandlerReports(Abs(), flag); }
      RecvLenIs(Abs(), flag);
      recvLen := NewBytes(flag);
      Update(flag, recvLen);
    }
  }
}
