/** The OTA traffic of the receive thread of applications/can.c: which frames it
    looks at, what it does with a stream of them, and what the frames sent say
    about the session that the board is in. */
module CanRx {
  import opened NorFlash
  import opened Crc16
  import opened Ota

  // --- CAN identifiers -------------------------------------------------------------------------

  datatype CanFrame = CanFrame(id: bv32, data: seq<byte>)

  datatype Route = StartFrame | DataFrame(index: nat) | Other

  /** The OTA branches of the receive thread: source in bits 24 up, frame kind
      in bits 16 to 18, register or block index in the low 16 bits. */
  function Dispatch(id: bv32, startFlag: bool): (r: Route)
    ensures r.DataFrame? ==> startFlag && r.index < 0x1_0000
  {
    if (id >> 24) & 0xFF != 0x04 then Other
    else if (id >> 16) & 0x7 == 0 then (if id & 0xFFFF == 0x5010 then StartFrame else Other)
    else if startFlag && (id >> 16) & 0x7 == 1 then DataFrame(((id & 0xFFFF) as bv16) as nat)
    else Other
  }

  /** Which identifiers mean what, by masks: a start has source 4, kind 0 and
      register 0x5010; a data frame source 4 and kind 1, and is one only once a
      start has been served. */
  predicate StartId(id: bv32) { id & 0xFF07_FFFF == 0x0400_5010 }

  predicate DataId(id: bv32) { id & 0xFF07_0000 == 0x0401_0000 }

  predicate IgnoredId(id: bv32) { !StartId(id) && !DataId(id) }

  lemma StartIdBits(id: bv32)
    ensures StartId(id) <==> (id >> 24) & 0xFF == 4 && (id >> 16) & 0x7 == 0 && id & 0xFFFF == 0x5010
  {
  }

  lemma DataIdBits(id: bv32)
    ensures DataId(id) <==> (id >> 24) & 0xFF == 4 && (id >> 16) & 0x7 == 1
  {
  }

  /** Dispatch in those terms: every other identifier is ignored. */
  lemma DispatchIff(id: bv32, startFlag: bool)
    ensures Dispatch(id, startFlag) == StartFrame <==> StartId(id)
    ensures Dispatch(id, startFlag).DataFrame? <==> startFlag && DataId(id)
    ensures Dispatch(id, startFlag).DataFrame? ==> Dispatch(id, startFlag).index == ((id & 0xFFFF) as bv16) as nat
  {
    StartIdBits(id);
    DataIdBits(id);
    hide StartId, DataId;
  }

  /** The main board's other registers, and any other source, are ignored. */
  lemma OthersIgnored(id: bv32)
    ensures (id >> 24) & 0xFF != 4 ==> IgnoredId(id)
    ensures (id >> 16) & 0x7 == 0 && id & 0xFFFF != 0x5010 ==> IgnoredId(id)
    ensures (id >> 16) & 0x7 > 1 ==> IgnoredId(id)
    ensures IgnoredId(0x0440_FF04) && IgnoredId(0x0440_5000) && IgnoredId(0x0440_5008) && IgnoredId(0x0440_5020)
  {
    StartIdBits(id);
    DataIdBits(id);
  }

  /** CAN_ID_GEN for a block sent by the main board. */
  function BlockId(destination: bv32, index: bv16): bv32 {
    (0x04 << 24) | ((destination & 0x1F) << 19) | (1 << 16) | (index as bv32)
  }

  lemma BlockIdSource(destination: bv32, index: bv16)
    ensures (BlockId(destination, index) >> 24) & 0xFF == 0x04
  {
  }

  lemma BlockIdKind(destination: bv32, index: bv16)
    ensures (BlockId(destination, index) >> 16) & 0x7 == 1
  {
  }

  lemma BlockIdIndex(destination: bv32, index: bv16)
    ensures (BlockId(destination, index) & 0xFFFF) as bv16 == index
  {
  }

  /** Every 16-bit block index survives the trip through the identifier, and
      without a start request no such frame is looked at. */
  lemma BlockIdRoundTrip(destination: bv32, index: bv16)
    ensures Dispatch(BlockId(destination, index), true) == DataFrame(index as nat)
    ensures Dispatch(BlockId(destination, index), false) == Other
  {
    hide BlockId;
    BlockIdSource(destination, index);
    BlockIdKind(destination, index);
    BlockIdIndex(destination, index);
  }

  // --- Frames and events ---------------------------------------------------------------------

  /** A frame, and what the environment does when its turn comes: whether the
      partition is found, whether the flash works throughout, whether the
      supervision timer has fired. */
  datatype Arrival = Arrival(frame: CanFrame, partFound: bool, healthy: bool, expired: bool)

  /** The event is the service of the frame. */
  predicate Serves(s: State, a: Arrival, ev: Event) {
    match Dispatch(a.frame.id, s.startFlag)
    case StartFrame =>
      ev.Start? && ev.data == a.frame.data && ev.partFound == a.partFound && (a.healthy && Erases(s, ev) ==> ev.eraseOk)
    case DataFrame(index) =>
      ev.Data? && ev.frameId == index && ev.block == a.frame.data && ev.healthy == a.healthy
    case Other => false
  }

  /** The events are the services of the frames, in order, none left out but
      those that the receive thread does not look at. */
  predicate Served(s: State, arrivals: seq<Arrival>, evs: seq<Event>)
    decreases |arrivals|
  {
    if arrivals == [] then evs == []
    else
      var n := |arrivals| - 1;
      || (evs != [] && Serves(Run(s, evs[..|evs| - 1]), arrivals[n], evs[|evs| - 1])
          && Served(s, arrivals[..n], evs[..|evs| - 1]))
      || (Dispatch(arrivals[n].frame.id, Run(s, evs).startFlag) == Other && Served(s, arrivals[..n], evs))
  }

  /** The first `served` frames have been served; then the frames had run out,
      the board was down, or the supervision timer fired, as it had not before. */
  predicate Received(s: State, arrivals: seq<Arrival>, evs: seq<Event>, served: nat) {
    && served <= |arrivals|
    && (forall j :: 0 <= j < served ==> !arrivals[j].expired)
    && ((Served(s, arrivals[..served], evs) && (served < |arrivals| ==> !Run(s, evs).live))
        || (served < |arrivals| && arrivals[served].expired && evs != [] && evs[|evs| - 1] == Timeout
            && Served(s, arrivals[..served], evs[..|evs| - 1])))
  }

  lemma ServedNone(s: State, arrivals: seq<Arrival>)
    ensures Served(s, arrivals[..0], [])
  {
  }

  lemma ServedSnoc(s: State, arrivals: seq<Arrival>, evs: seq<Event>, a: Arrival, ev: Event)
    requires Served(s, arrivals, evs) && Serves(Run(s, evs), a, ev)
    ensures Served(s, arrivals + [a], evs + [ev])
  {
    hide Serves, Run;
    assert (arrivals + [a])[..|arrivals|] == arrivals && (evs + [ev])[..|evs|] == evs;
  }

  lemma ServedSkip(s: State, arrivals: seq<Arrival>, evs: seq<Event>, a: Arrival)
    requires Served(s, arrivals, evs) && Dispatch(a.frame.id, Run(s, evs).startFlag) == Other
    ensures Served(s, arrivals + [a], evs)
  {
    hide Serves, Run, Dispatch;
    assert (arrivals + [a])[..|arrivals|] == arrivals;
  }

  lemma DispatchFlag(id: bv32, startFlag: bool)
    ensures Dispatch(id, startFlag).DataFrame? ==> startFlag && Dispatch(id, startFlag).index < 0x1_0000
  {
  }

  // --- The code ----------------------------------------------------------------------------

  /** The OTA branches of can_rx_thread for one frame. */
  method ServeFrame(m: OtaManager, a: Arrival) returns (ghost ev: Event)
    requires m.Valid() && |a.frame.data| == 8 && m.live && m.fileWriteSize <= PART_LEN
    modifies m, m.flash, m.flash.cells
    ensures m.Valid() && m.OthersUntouched() && m.fileWriteSize <= PART_LEN
    ensures if Dispatch(a.frame.id, old(m.otaStartFlag)) == Other then m.Abs() == old(m.Abs()) && m.sent == old(m.sent)
            else Serves(old(m.Abs()), a, ev) && Legal(old(m.Abs()), ev)
                 && m.Abs() == Next(old(m.Abs()), ev).0 && m.sent == old(m.sent) + Next(old(m.Abs()), ev).1
    // a start or data frame is served as what its identifier says, any other changes nothing
    ensures StartId(a.frame.id) ==> ev.Start? && ev.data == a.frame.data
    ensures DataId(a.frame.id) && old(m.otaStartFlag) ==>
              ev.Data? && ev.frameId == ((a.frame.id & 0xFFFF) as bv16) as nat && ev.block == a.frame.data
    ensures IgnoredId(a.frame.id) || (DataId(a.frame.id) && !old(m.otaStartFlag)) ==>
              m.Abs() == old(m.Abs()) && m.sent == old(m.sent)
  {
    hide Legal, Next, Dispatch, Erases, StartId, DataId;
    DispatchIff(a.frame.id, m.otaStartFlag);
    NotBoth(a.frame.id);
    ev := Timeout;
    match Dispatch(a.frame.id, m.otaStartFlag)
    case StartFrame =>
      ev := m.StartRequest(a.frame.data, a.partFound, a.healthy);
    case DataFrame(index) =>
      DispatchFlag(a.frame.id, m.otaStartFlag);
      ev := m.DataRequest(index, a.frame.data, a.healthy);
    case Other =>
  }

  /** The receive loop of can_rx_thread on OTA traffic, until the frames run
      out, the supervision timer fires or the board goes down. */
  method ReceiveLoop(m: OtaManager, arrivals: seq<Arrival>) returns (ghost evs: seq<Event>, ghost served: nat)
    requires m.Valid() && Boot(m.Abs()) && m.sent == []
    requires forall k :: 0 <= k < |arrivals| ==> |arrivals[k].frame.data| == 8
    modifies m, m.flash, m.flash.cells
    ensures m.Valid() && m.OthersUntouched()
    ensures LegalRun(old(m.Abs()), evs) && m.Abs() == Run(old(m.Abs()), evs) && m.sent == Replies(old(m.Abs()), evs)
    // the events are the services of the frames received
    ensures Received(old(m.Abs()), arrivals, evs, served)
  {
    hide Legal, Next, Boot, Consistent, Acked, Stale, Served, Serves, LegalRun, Run, Replies;
    evs, served := [], 0;
    ghost var start := m.Abs();
    assert m.fileWriteSize == 0 && !m.otaStartFlag by { BootSize(start); }
    RunNone(start);
    ServedNone(start, arrivals);
    for k := 0 to |arrivals|
      invariant m.Valid() && m.OthersUntouched()
      invariant LegalRun(start, evs) && m.Abs() == Run(start, evs) && m.sent == Replies(start, evs)
      invariant m.fileWriteSize <= PART_LEN
      invariant served == k && Served(start, arrivals[..k], evs)
      invariant forall j :: 0 <= j < k ==> !arrivals[j].expired
    {
      var a := arrivals[k];
      if !m.live {
        return;
      }
      if a.expired {
        TimeoutStep(m.Abs());
        m.live := false;
        evs := RunSnoc(start, evs, Timeout);
        return;
      }
      ghost var before := evs;
      var looked := Dispatch(a.frame.id, m.otaStartFlag) != Other;
      ghost var ev := ServeFrame(m, a);
      assert arrivals[..k + 1] == arrivals[..k] + [a];
      if looked {
        evs := RunSnoc(start, evs, ev);
        ServedSnoc(start, arrivals[..k], before, a, ev);
      } else {
        ServedSkip(start, arrivals[..k], before, a);
      }
      served := k + 1;
    }
    assert arrivals[..|arrivals|] == arrivals;
  }

  /** can_rx_thread on OTA traffic, from boot.  Without a start frame it leaves the
      board as it found it. */
  method ReceiveAll(m: OtaManager, arrivals: seq<Arrival>) returns (ghost evs: seq<Event>, ghost served: nat)
    requires m.Valid() && Boot(m.Abs()) && m.sent == []
    requires forall k :: 0 <= k < |arrivals| ==> |arrivals[k].frame.data| == 8
    modifies m, m.flash, m.flash.cells
    ensures m.Valid() && m.OthersUntouched()
    ensures LegalRun(old(m.Abs()), evs) && m.Abs() == Run(old(m.Abs()), evs) && m.sent == Replies(old(m.Abs()), evs)
    // the events are the services of the frames received
    ensures Received(old(m.Abs()), arrivals, evs, served)
    ensures (forall k :: 0 <= k < |arrivals| ==> !StartId(arrivals[k].frame.id)) ==>
              m.sent == [] && m.Abs().(live := true) == old(m.Abs())
  {
    hide Boot, LegalRun, Run, Replies, Received, StartId;
    ghost var start := m.Abs();
    evs, served := ReceiveLoop(m, arrivals);
    OnlyIgnored(start, arrivals, evs, served);
  }

  lemma NotBoth(id: bv32)
    ensures !(StartId(id) && DataId(id))
  {
  }

  // --- Frames that make no difference ------------------------------------------------------------

  /** The frames without those the receive thread never looks at. */
  function Heard(arrivals: seq<Arrival>): seq<Arrival>
    decreases |arrivals|
  {
    if arrivals == [] then []
    else
      var n := |arrivals| - 1;
      if IgnoredId(arrivals[n].frame.id) then Heard(arrivals[..n]) else Heard(arrivals[..n]) + [arrivals[n]]
  }

  /** Heartbeats and every other ignored frame, wherever they come, lead to the
      very same events as if they had not been sent. */
  lemma {:induction false} IgnoredMakeNoDifference(s: State, arrivals: seq<Arrival>, evs: seq<Event>)
    ensures Served(s, arrivals, evs) <==> Served(s, Heard(arrivals), evs)
    decreases |arrivals|
  {
    hide Dispatch, Run, StartId, DataId;
    if arrivals != [] {
      var n := |arrivals| - 1;
      var front, a := arrivals[..n], arrivals[n];
      IgnoredMakeNoDifference(s, front, evs);
      if evs != [] { IgnoredMakeNoDifference(s, front, evs[..|evs| - 1]); }
      DispatchIff(a.frame.id, Run(s, evs).startFlag);
      if evs != [] { DispatchIff(a.frame.id, Run(s, evs[..|evs| - 1]).startFlag); }
      if !IgnoredId(a.frame.id) { assert (Heard(front) + [a])[..|Heard(front)|] == Heard(front); }
    }
  }

  /** Without a start frame nothing is served from boot. */
  lemma {:induction false} NoStartNoEvents(s: State, arrivals: seq<Arrival>, evs: seq<Event>)
    requires !s.startFlag && Served(s, arrivals, evs)
    requires forall k :: 0 <= k < |arrivals| ==> !StartId(arrivals[k].frame.id)
    ensures evs == []
    decreases |arrivals|
  {
    hide Dispatch, Next, StartId, DataId;
    if arrivals != [] {
      var n := |arrivals| - 1;
      var front := arrivals[..n];
      assert forall k :: 0 <= k < n ==> front[k] == arrivals[k];
      if evs != [] && Serves(Run(s, evs[..|evs| - 1]), arrivals[n], evs[|evs| - 1]) && Served(s, front, evs[..|evs| - 1]) {
        NoStartNoEvents(s, front, evs[..|evs| - 1]);
        DispatchIff(arrivals[n].frame.id, s.startFlag);
      } else {
        NoStartNoEvents(s, front, evs);
      }
    }
  }

  lemma OnlyIgnored(s: State, arrivals: seq<Arrival>, evs: seq<Event>, served: nat)
    requires Boot(s) && Received(s, arrivals, evs, served)
    ensures (forall k :: 0 <= k < |arrivals| ==> !StartId(arrivals[k].frame.id)) ==>
              Replies(s, evs) == [] && Run(s, evs).(live := true) == s
  {
    hide Served, StartId;
    if forall k :: 0 <= k < |arrivals| ==> !StartId(arrivals[k].frame.id) {
      var done := arrivals[..served];
      assert forall k :: 0 <= k < served ==> done[k] == arrivals[k];
      if Served(s, done, evs) {
        NoStartNoEvents(s, done, evs);
      } else {
        NoStartNoEvents(s, done, evs[..|evs| - 1]);
        assert evs == [Timeout] && [Timeout][..0] == [];
      }
      QuietTimeout(s, evs);
    }
  }

  // --- What the frames decide ------------------------------------------------------------------

  predicate IsStart(a: Arrival) { Dispatch(a.frame.id, false) == StartFrame }

  /** A data frame with index k carries block k of the image. */
  predicate CarriesImage(a: Arrival, image: seq<byte>) {
    var route := Dispatch(a.frame.id, true);
    route.DataFrame? ==>
      8 * route.index + 8 <= |image| && a.frame.data == image[8 * route.index..8 * route.index + 8]
  }

  lemma DispatchCases(id: bv32)
    ensures Dispatch(id, false) == if Dispatch(id, true).DataFrame? then Other else Dispatch(id, true)
  {
  }

  lemma ServesHonest(s: State, a: Arrival, ev: Event, image: seq<byte>)
    requires Serves(s, a, ev) && CarriesImage(a, image) && !IsStart(a)
    ensures ev.Data? && Carries(image, ev) && s.startFlag
  {
    hide Dispatch;
    DispatchCases(a.frame.id);
  }

  /** From frames that carry the image come events that do, and none before a start. */
  lemma {:induction false} ServedHonest(s: State, arrivals: seq<Arrival>, evs: seq<Event>, image: seq<byte>)
    requires Served(s, arrivals, evs)
    requires forall k :: 0 <= k < |arrivals| ==> CarriesImage(arrivals[k], image) && !IsStart(arrivals[k])
    ensures OneSession(evs) && forall k :: 0 <= k < |evs| ==> Carries(image, evs[k])
    ensures !s.startFlag ==> evs == []
    decreases |arrivals|
  {
    hide Serves, Dispatch, CarriesImage, IsStart, Carries, Next;
    if arrivals != [] {
      var n := |arrivals| - 1;
      var front := arrivals[..n];
      assert forall k :: 0 <= k < n ==> front[k] == arrivals[k];
      if evs != [] && Serves(Run(s, evs[..|evs| - 1]), arrivals[n], evs[|evs| - 1]) && Served(s, front, evs[..|evs| - 1]) {
        var before := evs[..|evs| - 1];
        ServedHonest(s, front, before, image);
        ServesHonest(Run(s, before), arrivals[n], evs[|evs| - 1], image);
        assert forall k :: 0 <= k < |before| ==> before[k] == evs[k];
      } else {
        ServedHonest(s, front, evs, image);
      }
    }
  }

  lemma LegalRunPart(s: State, evs: seq<Event>)
    requires LegalRun(s, evs)
    ensures |Run(s, evs).part| == PART_LEN
  {
    hide Next, Legal;
    if evs != [] {
      LegalRunLast(s, evs);
      NextPart(Run(s, evs[..|evs| - 1]), evs[|evs| - 1]);
    }
  }

  lemma NextPart(s: State, ev: Event)
    requires |s.part| == PART_LEN
    ensures |Next(s, ev).0.part| == PART_LEN
  {
    hide Crc, TotalSize, U16;
  }

  lemma LegalRunLast(s: State, evs: seq<Event>)
    requires LegalRun(s, evs) && evs != []
    ensures var u := Run(s, evs[..|evs| - 1]);
            |u.part| == PART_LEN && Run(s, evs) == Next(u, evs[|evs| - 1]).0
  {
    hide Next, Touched, AllProgrammable, Blank;
  }

  /** A run taken apart. */
  lemma {:induction false} SplitRun(s: State, evs: seq<Event>, m: nat)
    requires LegalRun(s, evs) && m <= |evs|
    ensures var t := Run(s, evs[..m]);
            && LegalRun(s, evs[..m]) && LegalRun(t, evs[m..]) && Run(s, evs) == Run(t, evs[m..])
            && Replies(s, evs) == Replies(s, evs[..m]) + Replies(t, evs[m..])
    decreases |evs|
  {
    hide Legal, Next;
    if m == |evs| {
      assert evs[..m] == evs;
      LegalRunPart(s, evs);
    } else {
      var front := evs[..|evs| - 1];
      SplitRun(s, front, m);
      assert front[..m] == evs[..m] && evs[m..][..|evs[m..]| - 1] == front[m..];
    }
  }

  lemma {:induction false} ServedSplit(s: State, arrivals: seq<Arrival>, evs: seq<Event>, n: nat) returns (m: nat)
    requires Served(s, arrivals, evs) && LegalRun(s, evs) && n <= |arrivals|
    ensures m <= |evs| && Served(s, arrivals[..n], evs[..m])
    ensures Served(Run(s, evs[..m]), arrivals[n..], evs[m..])
    decreases |arrivals|
  {
    hide Serves, Dispatch, Next, Legal, Replies;
    if n == |arrivals| {
      m := |evs|;
      assert arrivals[..n] == arrivals && evs[..m] == evs;
    } else {
      var a, front := arrivals[|arrivals| - 1], arrivals[..|arrivals| - 1];
      assert front[..n] == arrivals[..n] && arrivals[n..] == front[n..] + [a];
      if evs != [] && Serves(Run(s, evs[..|evs| - 1]), a, evs[|evs| - 1]) && Served(s, front, evs[..|evs| - 1]) {
        var before, ev := evs[..|evs| - 1], evs[|evs| - 1];
        m := ServedSplit(s, front, before, n);
        SplitRun(s, before, m);
        assert before[..m] == evs[..m] && evs[m..] == before[m..] + [ev];
        ServedSnoc(Run(s, evs[..m]), front[n..], before[m..], a, ev);
      } else {
        m := ServedSplit(s, front, evs, n);
        SplitRun(s, evs, m);
        ServedSkip(Run(s, evs[..m]), front[n..], evs[m..], a);
      }
    }
  }

  lemma ServedOne(s: State, a: Arrival, evs: seq<Event>)
    requires Served(s, [a], evs) && Dispatch(a.frame.id, s.startFlag) != Other
    ensures |evs| == 1 && Serves(s, a, evs[0])
  {
    hide Dispatch, Serves, Next;
    assert [a][..0] == [];
    if evs != [] { assert evs == evs[..|evs| - 1] + [evs[|evs| - 1]]; }
  }

  /** One start among the frames, announcing the image; all data frames carry it. */
  predicate Announces(arrivals: seq<Arrival>, p: nat, version: bv16, total: nat, image: seq<byte>)
    requires total < WORD_LIMIT
  {
    && p < |arrivals| && IsStart(arrivals[p])
    && arrivals[p].frame.data == StartFrameBytes(version, Crc(CRC_START, image), total)
    && |image| == 8 * Needed(total)
    && forall k :: 0 <= k < |arrivals| && k != p ==> CarriesImage(arrivals[k], image) && !IsStart(arrivals[k])
  }

  /** The services of the frames from the start on: the start's, then the rest. */
  lemma ServedFromStart(s: State, arrivals: seq<Arrival>, evs: seq<Event>, p: nat, image: seq<byte>)
    requires !s.startFlag && LegalRun(s, evs) && Served(s, arrivals, evs)
    requires p < |arrivals| && IsStart(arrivals[p])
    requires forall k :: 0 <= k < |arrivals| && k != p ==> CarriesImage(arrivals[k], image) && !IsStart(arrivals[k])
    ensures evs != [] && Serves(s, arrivals[p], evs[0]) && evs[0].Start?
    ensures OneSession(evs[1..]) && forall k :: 0 <= k < |evs[1..]| ==> Carries(image, evs[1..][k])
    ensures Served(Run(s, [evs[0]]), arrivals[p + 1..], evs[1..])
  {
    hide Serves, Dispatch, CarriesImage, Carries, Next, Legal, LegalRun, Replies;
    assert forall k :: 0 <= k < p ==> arrivals[..p][k] == arrivals[k];
    var m := ServedSplit(s, arrivals, evs, p);
    ServedHonest(s, arrivals[..p], evs[..m], image);
    assert evs[..0] == [] && evs[0..] == evs;
    assert Run(s, []) == s;
    var rest := arrivals[p..];
    var l := ServedSplit(s, rest, evs, 1);
    assert rest[..1] == [arrivals[p]] && rest[1..] == arrivals[p + 1..];
    DispatchCases(arrivals[p].frame.id);
    ServedOne(s, arrivals[p], evs[..l]);
    StartServes(s, arrivals[p], evs[0]);
    assert evs[..1] == [evs[0]];
    var tail := arrivals[p + 1..];
    forall k | 0 <= k < |tail|
      ensures CarriesImage(tail[k], image) && !IsStart(tail[k])
    {
      assert tail[k] == arrivals[p + 1 + k];
    }
    ServedHonest(Run(s, [evs[0]]), tail, evs[1..], image);
  }

  lemma StartServes(s: State, a: Arrival, ev: Event)
    requires IsStart(a) && Serves(s, a, ev)
    ensures ev.Start? && ev.data == a.frame.data && ev.partFound == a.partFound
    ensures a.healthy && Erases(s, ev) ==> ev.eraseOk
  {
    hide Dispatch, Erases;
    DispatchCases(a.frame.id);
  }

  /** The same with a supervision timeout at the end, if it fired. */
  lemma ReceivedFromStart(s: State, arrivals: seq<Arrival>, evs: seq<Event>, served: nat, p: nat,
                          version: bv16, total: nat, image: seq<byte>)
    requires Boot(s) && LegalRun(s, evs) && Received(s, arrivals, evs, served)
    requires total < WORD_LIMIT && Announces(arrivals, p, version, total, image)
    ensures served <= p ==> Replies(s, evs) == []
    ensures served > p ==>
              && evs != [] && Serves(s, arrivals[p], evs[0]) && evs[0].Start? && Legal(s, evs[0])
              && OneSession(evs[1..]) && (forall k :: 0 <= k < |evs[1..]| ==> Carries(image, evs[1..][k]))
              && LegalRun(Next(s, evs[0]).0, evs[1..]) && Run(s, evs) == Run(Next(s, evs[0]).0, evs[1..])
              && Replies(s, evs) == Next(s, evs[0]).1 + Replies(Next(s, evs[0]).0, evs[1..])
    ensures served > p && Served(s, arrivals[..served], evs) ==>
              Served(Next(s, evs[0]).0, arrivals[p + 1..served], evs[1..])
  {
    hide Serves, Dispatch, CarriesImage, IsStart, Carries, Next, Legal, LegalRun, Run, Replies, Served;
    var done := arrivals[..served];
    assert !s.startFlag by { BootSize(s); }
    assert forall k :: 0 <= k < served ==> done[k] == arrivals[k];
    var core := if Served(s, done, evs) then evs else evs[..|evs| - 1];
    assert LegalRun(s, core) by { if core != evs { SplitRun(s, evs, |core|); } }
    if served <= p {
      ServedHonest(s, done, core, image);
      QuietTimeout(s, evs);
    } else {
      ServedFromStart(s, done, core, p, image);
      assert done[p + 1..] == arrivals[p + 1..served];
      HonestTail(core, evs, image);
      FirstEvent(s, evs);
    }
  }

  lemma QuietTimeout(s: State, evs: seq<Event>)
    requires evs == [] || evs == [Timeout]
    ensures Replies(s, evs) == []
  {
    assert [Timeout][..0] == [];
  }

  lemma HonestTail(core: seq<Event>, evs: seq<Event>, image: seq<byte>)
    requires core != [] && (evs == core || evs == core + [Timeout])
    requires OneSession(core[1..]) && forall k :: 0 <= k < |core[1..]| ==> Carries(image, core[1..][k])
    ensures evs[0] == core[0]
    ensures OneSession(evs[1..]) && forall k :: 0 <= k < |evs[1..]| ==> Carries(image, evs[1..][k])
  {
    if evs != core { assert evs[1..] == core[1..] + [Timeout]; }
  }

  lemma FirstEvent(s: State, evs: seq<Event>)
    requires LegalRun(s, evs) && evs != []
    ensures Legal(s, evs[0]) && LegalRun(Next(s, evs[0]).0, evs[1..])
    ensures Run(s, [evs[0]]) == Next(s, evs[0]).0 && Run(s, evs) == Run(Next(s, evs[0]).0, evs[1..])
    ensures Replies(s, evs) == Next(s, evs[0]).1 + Replies(Next(s, evs[0]).0, evs[1..])
  {
    hide Legal, Next;
    SplitRun(s, evs, 1);
    assert evs[..1] == [evs[0]] && [evs[0]][..0] == [];
  }

  /** What the receive loop did with frames of which one announces an image and
      the others, in whatever number and order, carry it: if the start was
      answered 1, no failure is ever reported, and success is reported only with
      the image in the flash. */
  lemma HonestFrames(s: State, arrivals: seq<Arrival>, evs: seq<Event>, served: nat, p: nat,
                     version: bv16, total: nat, image: seq<byte>)
    requires Boot(s) && LegalRun(s, evs) && Received(s, arrivals, evs, served)
    requires total < WORD_LIMIT && Announces(arrivals, p, version, total, image)
    ensures var rs := Replies(s, evs);
            rs != [] && rs[0] == StartReply(true) ==>
              && EndReply(false) !in rs
              && (EndReply(true) in rs ==>
                    !Run(s, evs).live && |Run(s, evs).part| >= |image| && Run(s, evs).part[..|image|] == image)
  {
    hide Serves, Dispatch, CarriesImage, IsStart, Carries, Legal, LegalRun, Run, Replies, Served, Crc, Accepted,
         Received, OneSession, Next, StartFrameBytes, Acked;
    ReceivedFromStart(s, arrivals, evs, served, p, version, total, image);
    if served > p {
      var ev, rest := evs[0], evs[1..];
      var t := Next(s, ev).0;
      StartServes(s, arrivals[p], ev);
      BootLive(s);
      AcceptedIffAnsweredOne(s, ev);
      AnnouncementStored(s, version, Crc(CRC_START, image), total, ev);
      if Next(s, ev).1 == [StartReply(true)] {
        HonestSession(t, rest, image);
      }
    }
  }

  lemma BootLive(s: State)
    requires Boot(s)
    ensures s.live && !s.startFlag
  {
  }

  lemma {:induction false} StartFlagStays(s: State, evs: seq<Event>)
    requires s.startFlag
    ensures Run(s, evs).startFlag
    decreases |evs|
  {
    if evs != [] {
      StartFlagStays(s, evs[..|evs| - 1]);
      StartFlagStep(Run(s, evs[..|evs| - 1]), evs[|evs| - 1]);
    }
  }

  lemma StartFlagStep(s: State, ev: Event)
    requires s.startFlag
    ensures Next(s, ev).0.startFlag
  {
    hide Crc, TotalSize, U16;
  }

  /** The frames carry blocks 0, 1, ... of the image, in order, on working hardware. */
  predicate SentInOrder(arrivals: seq<Arrival>, image: seq<byte>) {
    forall k :: 0 <= k < |arrivals| ==>
      && Dispatch(arrivals[k].frame.id, true) == DataFrame(k) && arrivals[k].healthy
      && 8 * k + 8 <= |image| && arrivals[k].frame.data == image[8 * k..8 * k + 8]
  }

  lemma ServedLast(s: State, arrivals: seq<Arrival>, evs: seq<Event>)
    requires s.startFlag && Served(s, arrivals, evs) && arrivals != []
    requires Dispatch(arrivals[|arrivals| - 1].frame.id, true) != Other
    ensures evs != [] && Served(s, arrivals[..|arrivals| - 1], evs[..|evs| - 1])
    ensures Run(s, evs[..|evs| - 1]).startFlag
    ensures Serves(Run(s, evs[..|evs| - 1]), arrivals[|arrivals| - 1], evs[|evs| - 1])
  {
    hide Dispatch, Run, Serves;
    StartFlagStays(s, evs);
    if evs != [] { StartFlagStays(s, evs[..|evs| - 1]); }
  }

  lemma {:induction false} ServedInTurn(s: State, arrivals: seq<Arrival>, evs: seq<Event>, image: seq<byte>)
    requires s.startFlag && Served(s, arrivals, evs) && SentInOrder(arrivals, image)
    ensures |evs| == |arrivals| && InTurn(evs, 0, image)
    decreases |arrivals|
  {
    hide Dispatch, Run, InTurn, SentInOrder;
    if arrivals == [] {
      InTurnNone(0, image);
    } else {
      hide Served;
      var n := |arrivals| - 1;
      SentPrefix(arrivals, n, image);
      SentLast(arrivals, image);
      ServedLast(s, arrivals, evs);
      var before, ev := evs[..|evs| - 1], evs[|evs| - 1];
      ServedInTurn(s, arrivals[..n], before, image);
      InTurnSnoc(before, ev, 0, image);
      assert evs == before + [ev];
    }
  }

  lemma SentLast(arrivals: seq<Arrival>, image: seq<byte>)
    requires SentInOrder(arrivals, image) && arrivals != []
    ensures var n := |arrivals| - 1;
            && Dispatch(arrivals[n].frame.id, true) == DataFrame(n) && arrivals[n].healthy
            && 8 * n + 8 <= |image| && arrivals[n].frame.data == image[8 * n..8 * n + 8]
  {
    hide Dispatch;
  }

  /** The code's own way through a clean update: frames before the start are
      ignored; the start and then every block of an image that fits, in order,
      on working hardware before the supervision timer, end in a board that has
      reported success and goes down with the image in its flash. */
  lemma CleanUpdate(s: State, arrivals: seq<Arrival>, evs: seq<Event>, served: nat, p: nat,
                    version: bv16, total: nat, image: seq<byte>)
    requires Boot(s) && LegalRun(s, evs) && Received(s, arrivals, evs, served)
    requires total < DEVICE_OTA_ROM_SIZE && Announces(arrivals, p, version, total, image) && |image| <= PART_LEN
    requires forall k :: 0 <= k < |arrivals| ==> !arrivals[k].expired
    requires arrivals[p].partFound && arrivals[p].healthy
    requires |arrivals| == p + 1 + Needed(total) && SentInOrder(arrivals[p + 1..], image)
    ensures served == |arrivals|
    ensures EndReply(true) in Replies(s, evs) && EndReply(false) !in Replies(s, evs)
    ensures !Run(s, evs).live && |Run(s, evs).part| >= |image| && Run(s, evs).part[..|image|] == image
  {
    hide Serves, Dispatch, CarriesImage, IsStart, Carries, Legal, LegalRun, Run, Replies, Served, Crc, Accepted,
         OneSession, Next, StartFrameBytes, Acked, Needed, SentInOrder, InTurn, TotalSize;
    ReceivedFromStart(s, arrivals, evs, served, p, version, total, image);
    assert Served(s, arrivals[..served], evs);
    BootLive(s);
    if served <= p {
      NothingServed(s, arrivals, evs, served, p, image);
    } else {
      var ev, rest := evs[0], evs[1..];
      var t := Next(s, ev).0;
      StartServes(s, arrivals[p], ev);
      TotalSizeSent(version, Crc(CRC_START, image), total);
      ErasesStart(s, ev);
      AcceptedIffAnsweredOne(s, ev);
      AnnouncementStored(s, version, Crc(CRC_START, image), total, ev);
      SentPrefix(arrivals[p + 1..], served - p - 1, image);
      assert arrivals[p + 1..][..served - p - 1] == arrivals[p + 1..served];
      AcceptedUp(t);
      ServedInTurn(t, arrivals[p + 1..served], rest, image);
      FromTheFirst(t, rest, image);
      HonestSession(t, rest, image);
    }
  }

  /** ResumeRun from the start of the session. */
  lemma FromTheFirst(t: State, rest: seq<Event>, image: seq<byte>)
    requires Accepted(t) && LegalRun(t, rest) && InTurn(rest, 0, image)
    requires |image| == 8 * Needed(t.total) <= PART_LEN
    ensures |Acked(t, rest)| == |rest|
    ensures |rest| < Needed(t.total) ==> Run(t, rest).live
  {
    hide LegalRun, Needed, InTurn, Acked, Run, Accepted, Carries;
    assert [] + rest == rest;
    AcceptedUp(t);
    NothingYetAcked(t);
    ResumeRun(t, [], rest, image);
  }

  lemma NothingYetAcked(t: State)
    ensures Run(t, []) == t && Acked(t, []) == []
  {
  }

  lemma AcceptedUp(t: State)
    requires Accepted(t)
    ensures t.startFlag && t.live
  {
  }

  lemma ErasesStart(s: State, ev: Event)
    requires s.live && ev.Start? && ev.partFound && TotalSize(ev.data) < DEVICE_OTA_ROM_SIZE
    ensures Erases(s, ev)
  {
  }

  lemma SentPrefix(arrivals: seq<Arrival>, n: nat, image: seq<byte>)
    requires SentInOrder(arrivals, image) && n <= |arrivals|
    ensures SentInOrder(arrivals[..n], image)
  {
    hide Dispatch;
  }

  lemma NothingServed(s: State, arrivals: seq<Arrival>, evs: seq<Event>, served: nat, p: nat, image: seq<byte>)
    requires !s.startFlag && served <= p < |arrivals| && Served(s, arrivals[..served], evs)
    requires forall k :: 0 <= k < |arrivals| && k != p ==> CarriesImage(arrivals[k], image) && !IsStart(arrivals[k])
    ensures evs == [] && Run(s, evs) == s
  {
    hide CarriesImage, IsStart, Served;
    assert forall k :: 0 <= k < served ==> arrivals[..served][k] == arrivals[k];
    ServedHonest(s, arrivals[..served], evs, image);
  }

  const OTA_ASK_ID: bv32 := (0x04 << 24) | 0x5010

  lemma AskIsStart()
    ensures forall a: Arrival :: a.frame.id == OTA_ASK_ID ==> IsStart(a)
  {
  }

  /** ids holds the numbers 0, 1, ... in 16 bits. */
  ghost predicate Counts(ids: seq<bv16>) {
    forall k :: 0 <= k < |ids| ==> ids[k] as nat == k
  }

  lemma CountsAt(ids: seq<bv16>, k: nat)
    requires Counts(ids) && k < |ids|
    ensures ids[k] as nat == k
  {
  }

  function BlockFrame(id: bv16, data: seq<byte>): Arrival {
    Arrival(CanFrame(BlockId(0, id), data), true, true, false)
  }

  function AskFrame(version: bv16, total: nat, image: seq<byte>): Arrival
    requires total < WORD_LIMIT
  {
    Arrival(CanFrame(OTA_ASK_ID, StartFrameBytes(version, Crc(CRC_START, image), total)), true, true, false)
  }

  /** The data frames of an update on a quiet bus and working hardware. */
  function BlockFrames(image: seq<byte>, ids: seq<bv16>): (arrivals: seq<Arrival>)
    requires |image| == 8 * |ids|
    ensures |arrivals| == |ids|
    ensures forall k :: 0 <= k < |ids| ==> arrivals[k] == BlockFrame(ids[k], image[8 * k..8 * k + 8])
  {
    seq(|ids|, k requires 0 <= k < |ids| => BlockFrame(ids[k], image[8 * k..8 * k + 8]))
  }

  lemma BlockArrival(id: bv16, k: nat, data: seq<byte>, image: seq<byte>)
    requires id as nat == k && 8 * k + 8 <= |image| && data == image[8 * k..8 * k + 8]
    ensures var a := BlockFrame(id, data);
            && Dispatch(a.frame.id, true) == DataFrame(k) && CarriesImage(a, image) && !IsStart(a)
            && a.frame.data == data && a.partFound && a.healthy && !a.expired
  {
    hide BlockId, Dispatch;
    BlockIdRoundTrip(0, id);
  }

  /** Frames as Announces, SentInOrder and ReceiveAll ask for. */
  predicate Clean(a: Arrival) {
    |a.frame.data| == 8 && a.partFound && a.healthy && !a.expired
  }

  lemma BlockFramesSent(image: seq<byte>, ids: seq<bv16>)
    requires |image| == 8 * |ids| && Counts(ids)
    ensures var arrivals := BlockFrames(image, ids);
            && SentInOrder(arrivals, image)
            && forall k :: 0 <= k < |arrivals| ==>
                 CarriesImage(arrivals[k], image) && !IsStart(arrivals[k]) && Clean(arrivals[k])
  {
    hide Dispatch, CarriesImage, IsStart, Counts, BlockFrame, BlockFrames;
    var arrivals := BlockFrames(image, ids);
    forall k | 0 <= k < |ids|
      ensures CarriesImage(arrivals[k], image) && !IsStart(arrivals[k]) && Clean(arrivals[k])
      ensures Dispatch(arrivals[k].frame.id, true) == DataFrame(k)
      ensures 8 * k + 8 <= |image| && arrivals[k].frame.data == image[8 * k..8 * k + 8]
    {
      CountsAt(ids, k);
      BlockArrival(ids[k], k, image[8 * k..8 * k + 8], image);
    }
  }

  lemma UpdateFramesAnnounce(version: bv16, total: nat, image: seq<byte>, ids: seq<bv16>)
    requires total < DEVICE_OTA_ROM_SIZE && |image| == 8 * |ids| && |ids| == Needed(total) && Counts(ids)
    ensures var arrivals := [AskFrame(version, total, image)] + BlockFrames(image, ids);
            && Announces(arrivals, 0, version, total, image) && SentInOrder(arrivals[1..], image)
            && forall k :: 0 <= k < |arrivals| ==> Clean(arrivals[k])
  {
    hide SentInOrder, StartFrameBytes, Crc, CarriesImage, IsStart, Needed, BlockFrames, Counts;
    var ask, blocks := AskFrame(version, total, image), BlockFrames(image, ids);
    var arrivals := [ask] + blocks;
    AskIsStart();
    BlockFramesSent(image, ids);
    assert arrivals[1..] == blocks;
    forall j | 0 <= j < |arrivals| && j != 0
      ensures CarriesImage(arrivals[j], image) && !IsStart(arrivals[j]) && Clean(arrivals[j])
    {
      assert arrivals[j] == blocks[j - 1];
    }
  }

  /** The whole of it on the code: a board fresh from boot that receives these
      frames ends with the image in its download partition, its other partitions
      as they were, and success reported. */
  method InstallImage(m: OtaManager, version: bv16, total: nat, image: seq<byte>, ids: seq<bv16>)
    requires m.Valid() && Boot(m.Abs()) && m.sent == []
    requires total < DEVICE_OTA_ROM_SIZE && |image| == 8 * Needed(total) <= PART_LEN
    requires |ids| == Needed(total) && Counts(ids)
    modifies m, m.flash, m.flash.cells
    ensures m.Valid() && m.OthersUntouched() && !m.live
    ensures m.Abs().part[..|image|] == image
    ensures EndReply(true) in m.sent && EndReply(false) !in m.sent
  {
    hide AskFrame, BlockFrames, Announces, SentInOrder, Boot, Received, LegalRun, Run, Replies, Needed;
    ghost var start := m.Abs();
    UpdateFramesAnnounce(version, total, image, ids);
    var arrivals := [AskFrame(version, total, image)] + BlockFrames(image, ids);
    ghost var evs, served := ReceiveAll(m, arrivals);
    CleanUpdate(start, arrivals, evs, served, 0, version, total, image);
  }
}
