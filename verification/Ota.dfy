/** The OTA download session of applications/ota_handle.c, as driven by the
    receive thread of applications/can.c.

    An Event carries the choices of the environment: which frame arrived and
    what the flash hardware did.  Legal says which choices the flash driver
    allows; Next is then a function, and the class below refines it. */
module Ota {
  import opened NorFlash
  import opened Crc16
  import opened CrcPeriod
  import opened Chains

  const DEVICE_OTA_ROM_SIZE: nat := 512 * 1024
  const PART_LEN: nat := 3 * 128 * 1024   // the download partition
  const CRC_START: bv16 := 0xFFFF

  datatype Reply =
    | StartReply(otaContinue: bool)
    | BlockReply(ok: bool, frameId: nat)
    | EndReply(ok: bool)

  /** g_ota_manage, ota_start_flag, and the bytes of the download partition. */
  datatype State = State(
    part: seq<byte>,
    startFlag: bool,      // ota_start_flag
    otaOn: bool,          // ota_on
    found: bool,          // dl_part is not NULL
    version: bv16,        // new_version
    crc16: bv16,          // file_crc16
    total: nat,           // file_total_size
    writeSize: nat,       // file_write_size
    crcCur: bv16,         // file_crc_cur
    live: bool)           // false after a CPU reset, a timeout or a failed assert

  datatype RawEvent =
    | Start(data: seq<byte>, partFound: bool, eraseOk: bool, after: seq<byte>)
    | Data(frameId: nat, block: seq<byte>, healthy: bool, writeOk: bool, after: seq<byte>)
    | Timeout

  function U16(hi: byte, lo: byte): bv16 { Join(hi, lo) }

  /** Big-endian 32-bit size in bytes 4 to 7 of a start request. */
  function TotalSize(data: seq<byte>): nat
    requires |data| == 8
  {
    data[4] as nat * 0x100_0000 + data[5] as nat * 0x1_0000 + data[6] as nat * 0x100 + data[7] as nat
  }

  /** Frame ids are 16 bits wide and the receive thread always passes 8 bytes. */
  predicate WellFormed(ev: RawEvent) {
    match ev
    case Start(data, _, _, after) => |data| == 8 && |after| == PART_LEN
    case Data(frameId, block, _, _, after) => frameId < 0x1_0000 && |block| == 8 && |after| == PART_LEN
    case Timeout => true
  }

  type Event = ev: RawEvent | WellFormed(ev) witness Timeout

  predicate Erases(s: State, ev: Event) {
    ev.Start? && s.live && TotalSize(ev.data) < DEVICE_OTA_ROM_SIZE && ev.partFound
  }

  /** The frame is the next expected one, so the block is written. */
  predicate Writes(s: State, ev: Event) {
    ev.Data? && s.live && s.startFlag && s.found && s.writeSize / 8 == ev.frameId
  }

  ghost predicate Blank(part: seq<byte>) {
    forall a :: 0 <= a < |part| ==> part[a] == ERASED
  }

  /** What the flash driver allows (proved of it in NorFlash). */
  ghost predicate Legal(s: State, ev: Event) {
    && |s.part| == PART_LEN
    && (Erases(s, ev) && ev.eraseOk ==> Blank(ev.after))
    && (Writes(s, ev) && s.writeSize + 8 > PART_LEN ==> !ev.writeOk && ev.after == s.part)
    && (Writes(s, ev) && s.writeSize + 8 <= PART_LEN ==>
          && Touched(s.part, ev.after, s.writeSize, ev.block)
          && (ev.writeOk ==> ev.after[s.writeSize..s.writeSize + 8] == ev.block)
          && (ev.healthy && AllProgrammable(s.part, s.writeSize, ev.block) ==> ev.writeOk))
  }

  function NextStart(s: State, ev: Event): (State, seq<Reply>)
    requires ev.Start?
  {
    var total := TotalSize(ev.data);
    var t := s.(startFlag := true, version := U16(ev.data[0], ev.data[1]), crc16 := U16(ev.data[2], ev.data[3]),
                total := total, writeSize := 0, crcCur := CRC_START);
    if total >= DEVICE_OTA_ROM_SIZE then (t, [StartReply(false)])
    else if !ev.partFound then (t.(found := false), [StartReply(false)])
    else if !ev.eraseOk then (t.(found := true, part := ev.after), [StartReply(false)])
    else (t.(found := true, part := ev.after, otaOn := true), [StartReply(true)])
  }

  function NextData(s: State, ev: Event): (State, seq<Reply>)
    requires ev.Data?
  {
    if s.writeSize / 8 != ev.frameId then (s, [BlockReply(false, ev.frameId)])
    else if !s.found then (s.(live := false), [])   // the assert of fal_partition_write hangs
    else if !ev.writeOk then (s.(part := ev.after), [BlockReply(false, ev.frameId)])
    else Acknowledge(s.(part := ev.after), ev.frameId, ev.block)
  }

  /** After a successful write: count, fold the CRC, reply, and judge. */
  function Acknowledge(s: State, frameId: nat, block: seq<byte>): (State, seq<Reply>) {
    var size := s.writeSize + 8;
    var crc := Crc(s.crcCur, block);
    var t := s.(writeSize := size, crcCur := crc);
    if size < s.total then (t, [BlockReply(true, frameId)])
    else if crc != s.crc16 then (t, [BlockReply(true, frameId), EndReply(false)])
    else (t.(otaOn := false, live := false), [BlockReply(true, frameId), EndReply(true)])
  }

  function Next(s: State, ev: Event): (State, seq<Reply>) {
    if !s.live then (s, [])
    else match ev
      case Start(_, _, _, _) => NextStart(s, ev)
      case Data(_, _, _, _, _) => if s.startFlag then NextData(s, ev) else (s, [])
      case Timeout => (s.(live := false), [])
  }

  // --- Runs ----------------------------------------------------------------------

  ghost predicate LegalRun(s: State, evs: seq<Event>)
    decreases |evs|
  {
    if evs == [] then |s.part| == PART_LEN
    else
      var front := evs[..|evs| - 1];
      LegalRun(s, front) && Legal(Run(s, front), evs[|evs| - 1])
  }

  function Run(s: State, evs: seq<Event>): State
    decreases |evs|
  {
    if evs == [] then s else Next(Run(s, evs[..|evs| - 1]), evs[|evs| - 1]).0
  }

  /** The replies to the last event of a run. */
  function LastReplies(s: State, evs: seq<Event>): seq<Reply> {
    if evs == [] then [] else Next(Run(s, evs[..|evs| - 1]), evs[|evs| - 1]).1
  }

  function Replies(s: State, evs: seq<Event>): seq<Reply>
    decreases |evs|
  {
    if evs == [] then [] else Replies(s, evs[..|evs| - 1]) + LastReplies(s, evs)
  }

  predicate HasAck(rs: seq<Reply>) { exists r :: r in rs && r.BlockReply? && r.ok }

  predicate HasEnd(rs: seq<Reply>) { exists r :: r in rs && r.EndReply? }

  /** The blocks acknowledged with 1 since the last start request was served. */
  function Acked(s: State, evs: seq<Event>): seq<seq<byte>>
    decreases |evs|
  {
    if evs == [] then [] else
      var front, ev := evs[..|evs| - 1], evs[|evs| - 1];
      if ev.Start? && Run(s, front).live then []
      else if ev.Data? && HasAck(LastReplies(s, evs)) then Acked(s, front) + [ev.block]
      else Acked(s, front)
  }

  // --- One step ------------------------------------------------------------------

  /** Counters, flash prefix and CRC describe exactly the acknowledged blocks. */
  ghost predicate Consistent(s: State, acked: seq<seq<byte>>) {
    && |s.part| == PART_LEN
    && s.writeSize == 8 * |acked| <= PART_LEN
    && s.part[..s.writeSize] == Flatten(acked)
    && s.crcCur == Crc(CRC_START, Flatten(acked))
  }

  lemma CrcOfNothing(init: bv16)
    ensures Crc(init, []) == init
  {
    SwapSwap(init);
  }

  lemma BlockAppended(s: State, after: seq<byte>, block: seq<byte>, acked: seq<seq<byte>>)
    requires Consistent(s, acked) && |block| == 8 && s.writeSize + 8 <= PART_LEN
    requires |after| == PART_LEN && after[..s.writeSize] == s.part[..s.writeSize]
    requires after[s.writeSize..s.writeSize + 8] == block
    ensures |after| == PART_LEN && s.writeSize + 8 == 8 * |acked + [block]| <= PART_LEN
    ensures after[..s.writeSize + 8] == Flatten(acked + [block])
    ensures Crc(s.crcCur, block) == Crc(CRC_START, Flatten(acked + [block]))
  {
    hide Crc;
    var w := s.writeSize;
    assert after[..w + 8] == after[..w] + after[w..w + 8];
    FlattenSnoc(acked, block);
    CrcConcat(CRC_START, Flatten(acked), block);
  }

  /** An acknowledged data frame was the next expected one, and a frame that is
      not acknowledged moves neither the counter, the CRC nor the flash prefix. */
  lemma DataStep(s: State, ev: Event, acked: seq<seq<byte>>)
    requires Legal(s, ev) && ev.Data? && s.live && s.startFlag && Consistent(s, acked)
    ensures var (t, rs) := Next(s, ev);
            if HasAck(rs) then ev.frameId == |acked| && Consistent(t, acked + [ev.block])
            else Consistent(t, acked)
  {
    hide Crc, Touched, AllProgrammable, Flatten, NextStart;
    if s.writeSize / 8 != ev.frameId || !s.found || !ev.writeOk {
      if Writes(s, ev) && s.writeSize + 8 <= PART_LEN { TouchedKeepsPrefix(s.part, ev.after, s.writeSize, ev.block); }
    } else {
      assert Writes(s, ev);
      assert BlockReply(true, ev.frameId) in Next(s, ev).1;
      TouchedKeepsPrefix(s.part, ev.after, s.writeSize, ev.block);
      BlockAppended(s, ev.after, ev.block, acked);
    }
  }

  lemma TouchedKeepsPrefix(was: seq<byte>, now: seq<byte>, at: nat, data: seq<byte>)
    requires Touched(was, now, at, data)
    ensures |now| == |was| && now[..at] == was[..at]
  {
  }

  /** A start request, accepted or not, begins an empty session. */
  lemma StartStep(s: State, ev: Event)
    requires Legal(s, ev) && ev.Start? && s.live
    ensures var t := Next(s, ev).0; t.startFlag && Consistent(t, []) && t.crcCur == 0xFFFF
  {
    hide Crc, Touched, TotalSize, U16;
    CrcOfNothing(CRC_START);
    assert Next(s, ev) == NextStart(s, ev);
  }

  /** g_ota_manage is zeroed at boot and no start request has been served. */
  predicate Boot(s: State) {
    |s.part| == PART_LEN && !s.startFlag && !s.found && !s.otaOn && s.live && s.writeSize == 0 && s.crcCur == 0
  }

  // --- Main results ------------------------------------------------------------------

  /** In every run since boot - frames lost, repeated, reordered or stray, writes
      and erases failing part-way, sessions restarted - the flash prefix is the
      acknowledged blocks in order, and the counters are its size and CRC. */
  lemma {:induction false} PrefixInvariant(s: State, evs: seq<Event>)
    requires Boot(s) && LegalRun(s, evs)
    ensures var t := Run(s, evs);
            |t.part| == PART_LEN && (t.startFlag ==> Consistent(t, Acked(s, evs)))
    decreases |evs|
  {
    hide Consistent, Crc, Touched, HasAck, Boot;
    if evs == [] {
      assert |s.part| == PART_LEN && !s.startFlag by { BootPart(s); }
    } else {
      var front, ev := evs[..|evs| - 1], evs[|evs| - 1];
      PrefixInvariant(s, front);
      var u := Run(s, front);
      assert Run(s, evs) == Next(u, ev).0 && LastReplies(s, evs) == Next(u, ev).1;
      if u.live && ev.Start? {
        StartStep(u, ev);
        ConsistentPart(Next(u, ev).0, []);
      } else if u.live && ev.Data? && u.startFlag {
        DataStep(u, ev, Acked(s, front));
        ConsistentPart(Next(u, ev).0, Acked(s, evs));
      } else {
        NoReplyNoAck();
        if u.startFlag { ConsistentFields(u, Next(u, ev).0, Acked(s, front)); }
      }
    }
  }

  lemma ConsistentFields(s: State, t: State, acked: seq<seq<byte>>)
    requires Consistent(s, acked)
    requires t.part == s.part && t.writeSize == s.writeSize && t.crcCur == s.crcCur
    ensures Consistent(t, acked)
  {
  }

  lemma BootPart(s: State)
    requires Boot(s)
    ensures |s.part| == PART_LEN && !s.startFlag
  {
  }

  lemma ConsistentPart(s: State, acked: seq<seq<byte>>)
    requires Consistent(s, acked)
    ensures |s.part| == PART_LEN
  {
  }

  lemma NoReplyNoAck()
    ensures !HasAck([])
  {
  }

  // --- Stale frames ------------------------------------------------------------------

  /** A data frame other than the expected one. */
  predicate Stale(s: State, ev: Event) {
    ev.Data? && s.startFlag && s.writeSize / 8 != ev.frameId
  }

  /** The run with every frame that was stale on arrival taken out. */
  function Fresh(s: State, evs: seq<Event>): seq<Event>
    decreases |evs|
  {
    if evs == [] then [] else
      var front, ev := evs[..|evs| - 1], evs[|evs| - 1];
      if Stale(Run(s, front), ev) then Fresh(s, front) else Fresh(s, front) + [ev]
  }

  lemma StaleStep(s: State, ev: Event)
    requires Stale(s, ev)
    ensures Next(s, ev) == (s, if s.live then [BlockReply(false, ev.frameId)] else [])
    ensures !HasAck(Next(s, ev).1)
  {
    hide Crc, NextStart;
  }

  /** Duplicates and out-of-order frames change nothing: the run without them
      ends in the same state with the same blocks acknowledged, and while the
      device is up each of them is answered 0. */
  lemma {:induction false} StaleFramesChangeNothing(s: State, evs: seq<Event>)
    ensures Run(s, Fresh(s, evs)) == Run(s, evs)
    ensures Acked(s, Fresh(s, evs)) == Acked(s, evs)
    ensures evs != [] && Run(s, evs[..|evs| - 1]).live && Stale(Run(s, evs[..|evs| - 1]), evs[|evs| - 1]) ==>
              LastReplies(s, evs) == [BlockReply(false, evs[|evs| - 1].frameId)]
    decreases |evs|
  {
    hide Next, HasAck;
    if evs != [] {
      var front, ev := evs[..|evs| - 1], evs[|evs| - 1];
      StaleFramesChangeNothing(s, front);
      if Stale(Run(s, front), ev) {
        StaleStep(Run(s, front), ev);
      } else {
        assert Fresh(s, evs)[..|Fresh(s, evs)| - 1] == Fresh(s, front);
      }
    }
  }

  // --- Every frame is answered ------------------------------------------------------------

  /** With the board up, a start served and a partition found, a data frame gets
      exactly one block reply, first and with the frame's own id: 1 if it was
      acknowledged, which only then may be followed by a verdict, else 0 alone. */
  lemma FrameAnswered(s: State, ev: Event)
    requires ev.Data? && s.live && s.startFlag && s.found
    ensures var rs := Next(s, ev).1;
            && rs != [] && rs[0] == BlockReply(HasAck(rs), ev.frameId)
            && |rs| <= 2 && (forall k :: 0 < k < |rs| ==> rs[k].EndReply?)
            && (!HasAck(rs) ==> rs == [BlockReply(false, ev.frameId)])
            && (HasAck(rs) <==> ev.frameId == s.writeSize / 8 && ev.writeOk)
  {
    hide Crc, NextStart;
    var rs := Next(s, ev).1;
    if ev.frameId == s.writeSize / 8 && ev.writeOk { assert rs[0] in rs; }
  }

  /** So over a whole run: each data frame served on a found partition is answered
      once, in its turn. */
  lemma {:induction false} EveryFrameAnswered(s: State, evs: seq<Event>, k: nat)
    requires k < |evs| && evs[k].Data?
    requires var u := Run(s, evs[..k]); u.live && u.startFlag && u.found
    ensures var before, rs := Replies(s, evs[..k]), Next(Run(s, evs[..k]), evs[k]).1;
            && before + rs <= Replies(s, evs)
            && rs != [] && rs[0] == BlockReply(HasAck(rs), evs[k].frameId)
            && (HasAck(rs) || rs == [BlockReply(false, evs[k].frameId)])
            && forall i :: 0 < i < |rs| ==> rs[i].EndReply?
    decreases |evs|
  {
    hide Next, HasAck;
    FrameAnswered(Run(s, evs[..k]), evs[k]);
    if k == |evs| - 1 {
      assert evs[..|evs| - 1] == evs[..k];
    } else {
      var front := evs[..|evs| - 1];
      assert front[..k] == evs[..k];
      EveryFrameAnswered(s, front, k);
    }
  }

  // --- Retry ---------------------------------------------------------------------------

  /** The state just after an accepted start request. */
  ghost predicate Accepted(s: State) {
    && |s.part| == PART_LEN && Blank(s.part)
    && s.startFlag && s.found && s.otaOn && s.live
    && s.total < DEVICE_OTA_ROM_SIZE
    && s.writeSize == 0 && s.crcCur == CRC_START
  }

  /** What Accepted stands for: the state a start answered with 1 leads to. */
  lemma AcceptedIffAnsweredOne(s: State, ev: Event)
    requires Legal(s, ev) && ev.Start? && s.live
    ensures Next(s, ev).1 == [StartReply(true)] ==> Accepted(Next(s, ev).0)
    ensures Next(s, ev).1 == [StartReply(true)] || Next(s, ev).1 == [StartReply(false)]
    ensures Next(s, ev).1 == [StartReply(true)] <==>
              TotalSize(ev.data) < 524288 && ev.partFound && ev.eraseOk
  {
  }

  /** ota_on is set by an accepted start, cleared by the success reply, and by
      nothing else. */
  lemma OtaOnStep(s: State, ev: Event)
    ensures var (t, rs) := Next(s, ev);
            t.otaOn == if StartReply(true) in rs then true else if EndReply(true) in rs then false else s.otaOn
  {
    hide Crc, TotalSize, U16;
  }

  /** Data frames and timeouts only: one session, no new start request. */
  predicate OneSession(evs: seq<Event>) {
    forall k :: 0 <= k < |evs| ==> !evs[k].Start?
  }

  /** The sender's frame k always carries block k of the image. */
  predicate Carries(image: seq<byte>, ev: Event) {
    ev.Data? ==> 8 * ev.frameId + 8 <= |image| && ev.block == image[8 * ev.frameId..8 * ev.frameId + 8]
  }

  /** The flash holds a prefix of the image, and every later cell still has all
      the 1-bits its image byte needs. */
  ghost predicate Ready(s: State, image: seq<byte>) {
    && |s.part| == PART_LEN
    && s.writeSize % 8 == 0 && s.writeSize <= |image| && s.writeSize <= PART_LEN
    && s.part[..s.writeSize] == image[..s.writeSize]
    && (forall a :: s.writeSize <= a < PART_LEN && a < |image| ==> Programmable(s.part[a], image[a]))
  }

  lemma PartialWriteStaysProgrammable(was: byte, d: byte, now: byte)
    requires Programmable(was, d) && Between(was, d, now)
    ensures Programmable(now, d)
  {
  }

  lemma ErasedProgrammable(d: byte)
    ensures Programmable(ERASED, d)
  {
  }

  lemma AcceptedIsReady(s: State, image: seq<byte>)
    requires Accepted(s)
    ensures Ready(s, image)
  {
    hide Programmable;
    forall a | 0 <= a < PART_LEN && a < |image|
      ensures Programmable(s.part[a], image[a])
    {
      ErasedProgrammable(image[a]);
    }
  }

  lemma ReadyAfterWrite(s: State, after: seq<byte>, image: seq<byte>)
    requires Ready(s, image) && s.writeSize + 8 <= PART_LEN && s.writeSize + 8 <= |image|
    requires Touched(s.part, after, s.writeSize, image[s.writeSize..s.writeSize + 8])
    ensures forall a :: s.writeSize <= a < PART_LEN && a < |image| ==> Programmable(after[a], image[a])
    ensures after[..s.writeSize] == image[..s.writeSize]
    ensures AllProgrammable(s.part, s.writeSize, image[s.writeSize..s.writeSize + 8])
  {
    hide Programmable, Between;
    var w := s.writeSize;
    TouchedKeepsPrefix(s.part, after, w, image[w..w + 8]);
    forall a | w <= a < PART_LEN && a < |image|
      ensures Programmable(after[a], image[a])
    {
      if a < w + 8 {
        assert Between(s.part[a], image[w..w + 8][a - w], after[a]);
        PartialWriteStaysProgrammable(s.part[a], image[a], after[a]);
      }
    }
  }

  /** What one event other than a start does to the flash and the counter. */
  lemma PartAndSize(s: State, ev: Event)
    requires Legal(s, ev) && !ev.Start?
    ensures var t := Next(s, ev).0;
            && t.part == (if Writes(s, ev) then ev.after else s.part)
            && t.writeSize == (if Writes(s, ev) && ev.writeOk then s.writeSize + 8 else s.writeSize)
  {
    hide Crc, Touched, AllProgrammable, NextStart, Blank;
  }

  lemma ReadyStep(s: State, ev: Event, image: seq<byte>)
    requires Legal(s, ev) && !ev.Start? && Carries(image, ev) && Ready(s, image)
    ensures Ready(Next(s, ev).0, image)
  {
    hide Touched, AllProgrammable, Programmable, Next, Blank;
    PartAndSize(s, ev);
    var w := s.writeSize;
    if Writes(s, ev) && w + 8 <= PART_LEN {
      assert ev.block == image[w..w + 8];
      ReadyAfterWrite(s, ev.after, image);
      if ev.writeOk {
        assert ev.after[..w + 8] == ev.after[..w] + ev.after[w..w + 8];
        assert image[..w + 8] == image[..w] + image[w..w + 8];
      }
    }
  }

  lemma {:induction false} ReadyRun(s: State, evs: seq<Event>, image: seq<byte>)
    requires Accepted(s) && LegalRun(s, evs) && OneSession(evs)
    requires forall k :: 0 <= k < |evs| ==> Carries(image, evs[k])
    ensures Ready(Run(s, evs), image)
    decreases |evs|
  {
    hide Ready, Accepted, Legal, Next, Carries;
    if evs == [] {
      AcceptedIsReady(s, image);
    } else {
      var front, ev := evs[..|evs| - 1], evs[|evs| - 1];
      assert forall k :: 0 <= k < |front| ==> front[k] == evs[k];
      ReadyRun(s, front, image);
      ReadyStep(Run(s, front), ev, image);
    }
  }

  /** Whatever was lost, repeated, reordered or half-written since an accepted
      start, the flash holds a prefix of the image, and resending the expected
      block on working hardware succeeds while it fits the partition. */
  lemma RetrySucceeds(s: State, evs: seq<Event>, image: seq<byte>, ev: Event)
    requires Accepted(s) && LegalRun(s, evs) && OneSession(evs)
    requires forall k :: 0 <= k < |evs| ==> Carries(image, evs[k])
    ensures var t := Run(s, evs);
            && t.writeSize <= |image| && t.writeSize <= |t.part|
            && t.part[..t.writeSize] == image[..t.writeSize]
            && (Legal(t, ev) && Writes(t, ev) && Carries(image, ev) && ev.healthy ==>
                  (HasAck(Next(t, ev).1) <==> t.writeSize + 8 <= PART_LEN))
  {
    ReadyRun(s, evs, image);
    var t := Run(s, evs);
    if Legal(t, ev) && Writes(t, ev) && Carries(image, ev) && ev.healthy {
      RetryStep(t, ev, image);
    }
  }

  lemma RetryStep(t: State, ev: Event, image: seq<byte>)
    requires Ready(t, image) && Legal(t, ev) && Writes(t, ev) && Carries(image, ev) && ev.healthy
    ensures HasAck(Next(t, ev).1) <==> t.writeSize + 8 <= PART_LEN
  {
    hide Crc, Touched, AllProgrammable, Programmable;
    if t.writeSize + 8 <= PART_LEN {
      assert ev.block == image[t.writeSize..t.writeSize + 8];
      ReadyAfterWrite(t, ev.after, image);
      assert BlockReply(true, ev.frameId) in Next(t, ev).1;
    }
  }

  // --- The verdict -----------------------------------------------------------------------

  /** The number of blocks whose acknowledgement brings the first verdict. */
  function Needed(total: nat): nat {
    if total == 0 then 1 else (total + 7) / 8
  }

  /** Within one session the announced size and CRC do not change, and the
      session has the counters of the acknowledged blocks. */
  lemma {:induction false} SessionInvariant(s: State, evs: seq<Event>)
    requires Accepted(s) && LegalRun(s, evs) && OneSession(evs)
    ensures var t := Run(s, evs);
            && Consistent(t, Acked(s, evs))
            && t.startFlag && t.found && t.total == s.total && t.crc16 == s.crc16
    decreases |evs|
  {
    hide Consistent, Crc, HasAck, Accepted, Legal, Next;
    if evs == [] {
      AcceptedConsistent(s);
    } else {
      var front, ev := evs[..|evs| - 1], evs[|evs| - 1];
      assert forall k :: 0 <= k < |front| ==> front[k] == evs[k];
      SessionInvariant(s, front);
      SessionFields(Run(s, front), ev);
      SessionStep(Run(s, front), ev, Acked(s, front));
    }
  }

  lemma SessionFields(u: State, ev: Event)
    requires !ev.Start?
    ensures var t := Next(u, ev).0;
            t.startFlag == u.startFlag && t.found == u.found && t.total == u.total && t.crc16 == u.crc16
  {
    hide Crc, NextStart;
  }

  lemma SessionStep(u: State, ev: Event, acked: seq<seq<byte>>)
    requires Legal(u, ev) && !ev.Start? && u.startFlag && Consistent(u, acked)
    ensures var (t, rs) := Next(u, ev);
            Consistent(t, if ev.Data? && HasAck(rs) then acked + [ev.block] else acked)
  {
    hide Consistent, Crc, HasAck, Legal, NextStart, NextData;
    if u.live && ev.Data? {
      DataStep(u, ev, acked);
    } else {
      NoReplyNoAck();
      ConsistentFields(u, Next(u, ev).0, acked);
    }
  }

  lemma AcceptedConsistent(s: State)
    requires Accepted(s)
    ensures Consistent(s, []) && s.startFlag && s.found && |s.part| == PART_LEN
  {
    hide Crc;
    CrcOfNothing(CRC_START);
  }

  /** One data frame: an acknowledgement says which frame it was, and it carries
      a verdict exactly when enough bytes are in. */
  lemma VerdictStep(s: State, ev: Event, acked: seq<seq<byte>>)
    requires Legal(s, ev) && !ev.Start? && s.startFlag && s.found && Consistent(s, acked)
    ensures var rs := Next(s, ev).1;
            if ev.Data? && HasAck(rs) then
              var now := acked + [ev.block];
              && ev.frameId == |acked|
              && rs == [BlockReply(true, |acked|)]
                       + (if 8 * |now| < s.total then [] else [EndReply(Crc(CRC_START, Flatten(now)) == s.crc16)])
              && (HasEnd(rs) <==> 8 * |now| >= s.total)
              && (Next(s, ev).0.live <==> EndReply(true) !in rs)
            else !HasAck(rs) && !HasEnd(rs)
  {
    hide Crc, Touched, Flatten;
    if s.live && ev.Data? && Writes(s, ev) && ev.writeOk {
      BlockAppended(s, ev.after, ev.block, acked) by { TouchedKeepsPrefix(s.part, ev.after, s.writeSize, ev.block); }
      var rs := Next(s, ev).1;
      assert rs[0] == BlockReply(true, ev.frameId) && HasAck(rs);
      if 8 * |acked + [ev.block]| >= s.total {
        assert rs[1] in rs && HasEnd(rs);
      }
    }
  }

  lemma HasEndConcat(a: seq<Reply>, b: seq<Reply>)
    ensures HasEnd(a + b) <==> HasEnd(a) || HasEnd(b)
  {
    if HasEnd(a) { var r :| r in a && r.EndReply?; assert r in a + b; }
    if HasEnd(b) { var r :| r in b && r.EndReply?; assert r in a + b; }
  }

  /** The first end reply of a session is sent exactly with the acknowledgement
      of block max(1, ceil(total/8)), and no 16-bit frame id repeats before it.
      Every acknowledgement from there on carries a verdict, which says whether
      the CRC of everything acknowledged so far is the announced one. */
  lemma {:induction false} FirstVerdict(s: State, evs: seq<Event>)
    requires Accepted(s) && LegalRun(s, evs) && OneSession(evs)
    ensures Needed(s.total) <= 0x1_0000
    ensures HasEnd(Replies(s, evs)) <==> |Acked(s, evs)| >= Needed(s.total)
    ensures evs != [] && HasAck(LastReplies(s, evs)) ==>
              && evs[|evs| - 1].Data? && evs[|evs| - 1].frameId == |Acked(s, evs)| - 1
              && LastReplies(s, evs) ==
                   [BlockReply(true, |Acked(s, evs)| - 1)]
                   + (if |Acked(s, evs)| < Needed(s.total) then []
                      else [EndReply(Crc(CRC_START, Flatten(Acked(s, evs))) == s.crc16)])
    decreases |evs|
  {
    hide Consistent, Crc, Touched, HasAck, HasEnd, Accepted, Legal, Next, Flatten;
    assert s.total < DEVICE_OTA_ROM_SIZE by { AcceptedTotal(s); }
    if evs == [] {
      NoReplyNoEnd();
    } else {
      var front, ev := evs[..|evs| - 1], evs[|evs| - 1];
      assert forall k :: 0 <= k < |front| ==> front[k] == evs[k];
      FirstVerdict(s, front);
      SessionInvariant(s, front);
      VerdictStep(Run(s, front), ev, Acked(s, front));
      HasEndConcat(Replies(s, front), LastReplies(s, evs));
    }
  }

  lemma AcceptedTotal(s: State)
    requires Accepted(s)
    ensures s.total < DEVICE_OTA_ROM_SIZE
  {
  }

  lemma NoReplyNoEnd()
    ensures !HasEnd([])
  {
  }

  /** The image arrived changed, in a burst of at most 16 bits, in an odd number
      of bits, or in two bits that are not a multiple of 32767 apart. */
  ghost predicate Corrupted(got: seq<byte>, image: seq<byte>) {
    && |got| == |image| && got != image
    && ((exists i: nat :: BitsAgreeOutside(got, image, i))
        || Distance(Bits(got), Bits(image)) % 2 == 1
        || exists i: nat, j: nat :: DifferInTwo(got, image, i, j) && (j - i) % PERIOD != 0)
  }

  ghost predicate BitsAgreeOutside(got: seq<byte>, image: seq<byte>, i: nat)
    requires |got| == |image|
  {
    forall j :: 0 <= j < 8 * |image| && !(i <= j < i + 16) ==> Bits(got)[j] == Bits(image)[j]
  }

  lemma CorruptedCrc(got: seq<byte>, image: seq<byte>)
    requires Corrupted(got, image)
    ensures Crc(CRC_START, got) != Crc(CRC_START, image)
  {
    hide Bits, Distance, Crc, DifferInTwo;
    if Distance(Bits(got), Bits(image)) % 2 == 1 {
      OddErrorsDetected(CRC_START, got, image);
    } else if i: nat :| BitsAgreeOutside(got, image, i) {
      BurstDetected(CRC_START, got, image, i);
    } else {
      var i: nat, j: nat :| DifferInTwo(got, image, i, j) && (j - i) % PERIOD != 0;
      TwoBitErrors(CRC_START, got, image, i, j);
    }
  }

  /** A session whose image was so corrupted on the way is not declared good by
      its first verdict. */
  lemma CorruptImageRejected(s: State, evs: seq<Event>, image: seq<byte>)
    requires Accepted(s) && LegalRun(s, evs) && OneSession(evs) && evs != []
    ensures HasAck(LastReplies(s, evs)) && |Acked(s, evs)| == Needed(s.total)
            && s.crc16 == Crc(CRC_START, image) && Corrupted(Flatten(Acked(s, evs)), image) ==>
              LastReplies(s, evs) == [BlockReply(true, Needed(s.total) - 1), EndReply(false)]
  {
    hide Corrupted, Crc, Flatten, Run, Acked, LastReplies, LegalRun, Accepted;
    FirstVerdict(s, evs);
    if Corrupted(Flatten(Acked(s, evs)), image) { CorruptedCrc(Flatten(Acked(s, evs)), image); }
  }

  /** With a sender whose frame k always carries block k of the announced image,
      and whatever is lost, repeated, reordered or half-written: the only verdict
      ever sent is success, it is sent iff every block has been acknowledged,
      and then the board is down with the image in its flash. */
  lemma {:induction false} HonestSession(s: State, evs: seq<Event>, image: seq<byte>)
    requires Accepted(s) && LegalRun(s, evs) && OneSession(evs)
    requires forall k :: 0 <= k < |evs| ==> Carries(image, evs[k])
    requires |image| == 8 * Needed(s.total) && s.crc16 == Crc(CRC_START, image)
    ensures EndReply(false) !in Replies(s, evs)
    ensures EndReply(true) in Replies(s, evs) <==> |Acked(s, evs)| == Needed(s.total)
    ensures |Acked(s, evs)| <= Needed(s.total)
    ensures |Acked(s, evs)| == Needed(s.total) ==>
              !Run(s, evs).live && |Run(s, evs).part| >= |image| && Run(s, evs).part[..|image|] == image
    decreases |evs|
  {
    hide Consistent, Crc, HasAck, Accepted, Legal, Next, Flatten, Ready, Carries;
    if evs != [] {
      var front, ev := evs[..|evs| - 1], evs[|evs| - 1];
      assert forall k :: 0 <= k < |front| ==> front[k] == evs[k];
      HonestSession(s, front, image);
      SessionInvariant(s, front);
      ReadyRun(s, evs, image);
      SessionInvariant(s, evs);
      HonestAck(Run(s, evs), Acked(s, evs), image);
      HonestStep(Run(s, front), ev, Acked(s, front), image);
      DownAfterSuccess(Run(s, front), ev);
    }
  }

  /** The acknowledged blocks are a prefix of the image. */
  lemma HonestAck(t: State, acked: seq<seq<byte>>, image: seq<byte>)
    requires Ready(t, image) && Consistent(t, acked)
    ensures 8 * |acked| <= |image| && Flatten(acked) == image[..8 * |acked|]
    ensures 8 * |acked| == |image| ==> |t.part| >= |image| && t.part[..|image|] == image && Flatten(acked) == image
  {
    hide Flatten, Crc, Programmable;
    assert image[..|image|] == image;
  }

  lemma HonestStep(u: State, ev: Event, acked: seq<seq<byte>>, image: seq<byte>)
    requires Legal(u, ev) && !ev.Start? && u.startFlag && u.found && Consistent(u, acked)
    requires u.crc16 == Crc(CRC_START, image) && |image| == 8 * Needed(u.total)
    requires ev.Data? && HasAck(Next(u, ev).1) ==>
               |acked| < Needed(u.total) && Flatten(acked + [ev.block]) == image[..8 * |acked| + 8]
    ensures EndReply(false) !in Next(u, ev).1
    ensures EndReply(true) in Next(u, ev).1 <==>
              ev.Data? && HasAck(Next(u, ev).1) && |acked| + 1 == Needed(u.total)
    ensures EndReply(true) in Next(u, ev).1 ==> !Next(u, ev).0.live
  {
    hide Crc, Flatten, Legal, Consistent, HasAck, Next;
    VerdictStep(u, ev, acked);
    DownAfterSuccess(u, ev);
    assert image[..|image|] == image;
  }

  lemma DownAfterSuccess(s: State, ev: Event)
    ensures EndReply(true) in Next(s, ev).1 ==> !Next(s, ev).0.live
    ensures !s.live ==> Next(s, ev) == (s, [])
  {
    hide Crc, TotalSize, U16;
  }

  lemma ConsistentLength(s: State, acked: seq<seq<byte>>)
    requires Consistent(s, acked)
    ensures |Flatten(acked)| == 8 * |acked| <= PART_LEN
  {
  }

  // --- Resuming a session --------------------------------------------------------------------

  /** Blocks a, a + 1, ... of the image, in order and on working hardware. */
  predicate InTurn(evs: seq<Event>, a: nat, image: seq<byte>) {
    forall j :: 0 <= j < |evs| ==> IsBlock(evs[j], a + j, image) && evs[j].healthy
  }

  predicate IsBlock(ev: Event, k: nat, image: seq<byte>) {
    ev.Data? && ev.frameId == k && 8 * k + 8 <= |image| && ev.block == image[8 * k..8 * k + 8]
  }

  lemma ResumeStep(u: State, ev: Event, image: seq<byte>, k: nat)
    requires Ready(u, image) && Legal(u, ev) && u.live && u.startFlag && u.found && u.writeSize == 8 * k
    requires IsBlock(ev, k, image) && ev.healthy && 8 * k + 8 <= PART_LEN
    ensures HasAck(Next(u, ev).1)
    ensures 8 * k + 8 < u.total ==> Next(u, ev).0.live
  {
    hide Crc, Ready, HasAck, Touched, AllProgrammable, NextStart, Blank;
    RetryStep(u, ev, image);
    NoReplyNoAck();
  }

  lemma InTurnHonest(evs: seq<Event>, more: seq<Event>, a: nat, image: seq<byte>)
    requires OneSession(evs) && forall k :: 0 <= k < |evs| ==> Carries(image, evs[k])
    requires InTurn(more, a, image)
    ensures OneSession(evs + more) && forall k :: 0 <= k < |evs + more| ==> Carries(image, (evs + more)[k])
  {
    hide Carries;
    var all := evs + more;
    forall k | 0 <= k < |all|
      ensures Carries(image, all[k]) && !all[k].Start?
    {
      if k < |evs| {
        assert all[k] == evs[k];
      } else {
        assert all[k] == more[k - |evs|];
        assert IsBlock(more[k - |evs|], a + (k - |evs|), image);
        BlockCarries(all[k], a + (k - |evs|), image);
      }
    }
  }

  /** After any honest, lossy, half-written beginning: the remaining blocks are
      all acknowledged, whatever else the flash driver does that it may. */
  lemma {:induction false} ResumeRun(s: State, evs: seq<Event>, more: seq<Event>, image: seq<byte>)
    requires Accepted(s) && LegalRun(s, evs + more) && OneSession(evs) && Run(s, evs).live
    requires forall k :: 0 <= k < |evs| ==> Carries(image, evs[k])
    requires |image| == 8 * Needed(s.total) <= PART_LEN
    requires InTurn(more, |Acked(s, evs)|, image)
    ensures |Acked(s, evs + more)| == |Acked(s, evs)| + |more|
    ensures |Acked(s, evs + more)| < Needed(s.total) ==> Run(s, evs + more).live
    ensures more != [] ==> HasAck(LastReplies(s, evs + more))
    decreases |more|
  {
    hide Accepted, Consistent, Legal, Next, HasAck, Crc, Ready, Carries, Needed, OneSession;
    if more == [] {
      assert evs + more == evs;
    } else {
      var n := |more| - 1;
      var front, ev, all := more[..n], more[n], evs + more;
      var k := |Acked(s, evs)| + n;
      assert all[..|all| - 1] == evs + front && all[|all| - 1] == ev;
      assert IsBlock(ev, k, image) && ev.healthy;
      ResumeRun(s, evs, front, image);
      InTurnHonest(evs, front, |Acked(s, evs)|, image);
      NextInTurn(s, evs + front, ev, image, k);
    }
  }

  lemma NextInTurn(s: State, evs: seq<Event>, ev: Event, image: seq<byte>, k: nat)
    requires Accepted(s) && LegalRun(s, evs) && OneSession(evs) && Legal(Run(s, evs), ev)
    requires forall j :: 0 <= j < |evs| ==> Carries(image, evs[j])
    requires |image| == 8 * Needed(s.total) <= PART_LEN && |Acked(s, evs)| == k
    requires k < Needed(s.total) ==> Run(s, evs).live
    requires IsBlock(ev, k, image) && ev.healthy
    ensures HasAck(Next(Run(s, evs), ev).1) && !ev.Start?
    ensures k + 1 < Needed(s.total) ==> Next(Run(s, evs), ev).0.live
  {
    hide Accepted, Consistent, Legal, Next, HasAck, Crc, Ready, Carries, Needed, Acked, Run, LegalRun;
    var u := Run(s, evs);
    SessionInvariant(s, evs);
    ReadyRun(s, evs, image);
    ConsistentSize(u, Acked(s, evs));
    NeededBlocks(s.total, k);
    ResumeStep(u, ev, image, k);
  }

  lemma ConsistentSize(s: State, acked: seq<seq<byte>>)
    requires Consistent(s, acked)
    ensures s.writeSize == 8 * |acked|
  {
  }

  lemma NeededBlocks(total: nat, k: nat)
    ensures k + 1 < Needed(total) ==> 8 * k + 8 < total
  {
  }

  lemma BlockCarries(ev: Event, k: nat, image: seq<byte>)
    requires IsBlock(ev, k, image)
    ensures Carries(image, ev)
  {
  }

  /** Resuming: after an honest session that is not yet judged, whatever was
      lost, repeated, reordered or half-written in it, the remaining blocks sent
      in order on working hardware end in success with the image in the flash. */
  lemma ResumeSucceeds(s: State, evs: seq<Event>, more: seq<Event>, image: seq<byte>)
    requires Accepted(s) && LegalRun(s, evs + more) && OneSession(evs) && Run(s, evs).live
    requires forall k :: 0 <= k < |evs| ==> Carries(image, evs[k])
    requires |image| == 8 * Needed(s.total) <= PART_LEN && s.crc16 == Crc(CRC_START, image)
    requires InTurn(more, |Acked(s, evs)|, image) && |Acked(s, evs)| + |more| == Needed(s.total)
    ensures LastReplies(s, evs + more) == [BlockReply(true, Needed(s.total) - 1), EndReply(true)]
    ensures var t := Run(s, evs + more); |t.part| >= |image| && t.part[..|image|] == image
  {
    hide Accepted, Crc, HasAck, Carries, Needed, InTurn, Run, Acked, LastReplies, Replies, Flatten, HasEnd;
    ResumeRun(s, evs, more, image);
    InTurnHonest(evs, more, |Acked(s, evs)|, image);
    LegalPrefix(s, evs, more);
    HonestSession(s, evs, image);
    HonestSession(s, evs + more, image);
    FirstVerdict(s, evs + more);
    SessionInvariant(s, evs + more);
    ReadyRun(s, evs + more, image);
    HonestAck(Run(s, evs + more), Acked(s, evs + more), image);
  }

  lemma {:induction false} LegalPrefix(s: State, evs: seq<Event>, more: seq<Event>)
    requires LegalRun(s, evs + more)
    ensures LegalRun(s, evs)
    decreases |more|
  {
    hide Legal, Run;
    if more == [] {
      assert evs + more == evs;
    } else {
      assert (evs + more)[..|evs + more| - 1] == evs + more[..|more| - 1];
      LegalPrefix(s, evs, more[..|more| - 1]);
    }
  }

  /** And it can be resumed: working hardware offers such a continuation. */
  lemma {:induction false} ResumePossible(s: State, evs: seq<Event>, image: seq<byte>, n: nat) returns (more: seq<Event>)
    requires Accepted(s) && LegalRun(s, evs) && OneSession(evs) && Run(s, evs).live
    requires forall k :: 0 <= k < |evs| ==> Carries(image, evs[k])
    requires |image| == 8 * Needed(s.total) <= PART_LEN && |Acked(s, evs)| + n <= Needed(s.total)
    ensures |more| == n && InTurn(more, |Acked(s, evs)|, image) && LegalRun(s, evs + more)
    decreases n
  {
    hide Accepted, Legal, Needed, Acked, Run, LegalRun, InTurn, OneSession, Carries;
    more := [];
    if n == 0 {
      assert evs + more == evs;
      InTurnNone(|Acked(s, evs)|, image);
    } else {
      var front := ResumePossible(s, evs, image, n - 1);
      ResumeRun(s, evs, front, image);
      InTurnHonest(evs, front, |Acked(s, evs)|, image);
      var ev := ResumeNext(s, evs + front, image, |Acked(s, evs)| + n - 1);
      more := front + [ev];
      InTurnSnoc(front, ev, |Acked(s, evs)|, image);
      assert evs + more == (evs + front) + [ev];
      LegalSnoc(s, evs + front, ev);
    }
  }

  lemma InTurnNone(a: nat, image: seq<byte>)
    ensures InTurn([], a, image)
  {
  }

  lemma InTurnSnoc(front: seq<Event>, ev: Event, a: nat, image: seq<byte>)
    requires InTurn(front, a, image) && IsBlock(ev, a + |front|, image) && ev.healthy
    ensures InTurn(front + [ev], a, image)
  {
    hide IsBlock;
  }

  lemma LegalSnoc(s: State, evs: seq<Event>, ev: Event)
    requires LegalRun(s, evs) && Legal(Run(s, evs), ev)
    ensures LegalRun(s, evs + [ev])
  {
    hide Legal, Run;
    assert (evs + [ev])[..|evs|] == evs;
  }

  lemma ResumeNext(s: State, evs: seq<Event>, image: seq<byte>, k: nat) returns (ev: Event)
    requires Accepted(s) && LegalRun(s, evs) && OneSession(evs) && Run(s, evs).live
    requires forall j :: 0 <= j < |evs| ==> Carries(image, evs[j])
    requires |image| == 8 * Needed(s.total) <= PART_LEN && |Acked(s, evs)| == k < Needed(s.total)
    ensures IsBlock(ev, k, image) && ev.healthy && Legal(Run(s, evs), ev)
  {
    hide Accepted, Consistent, Legal, Ready, Carries, Needed, Acked, Run, LegalRun, IsBlock;
    SessionInvariant(s, evs);
    ReadyRun(s, evs, image);
    ConsistentSize(Run(s, evs), Acked(s, evs));
    ev := NextBlock(Run(s, evs), image, k);
  }

  lemma NextBlock(u: State, image: seq<byte>, k: nat) returns (ev: Event)
    requires Ready(u, image) && u.live && u.startFlag && u.found && u.writeSize == 8 * k
    requires 8 * k + 8 <= |image| <= PART_LEN
    ensures IsBlock(ev, k, image) && ev.healthy && Legal(u, ev)
  {
    hide Between, Programmable, Blank, AllProgrammable;
    var w, block := 8 * k, image[8 * k..8 * k + 8];
    var after := u.part[..w] + block + u.part[w + 8..];
    forall a | w <= a < w + 8
      ensures Between(u.part[a], block[a - w], after[a])
    {
      ProgramProgrammable(u.part[a], image[a]);
    }
    assert after[w..w + 8] == block && Touched(u.part, after, w, block);
    ev := Data(k, block, true, true, after);
  }

  lemma ProgramProgrammable(was: byte, d: byte)
    requires Programmable(was, d)
    ensures Between(was, d, d)
  {
  }

  // --- Data frames after a refused start ---------------------------------------------------

  /** A refused start still opens an empty session, on whatever partition is at
      hand: one that was found before if the size was refused, and one found now
      if the erase failed. */
  lemma RefusedStart(s: State, ev: Event)
    requires Legal(s, ev) && ev.Start? && s.live && Next(s, ev).1 == [StartReply(false)]
    ensures var t := Next(s, ev).0;
            && t.live && t.startFlag && t.writeSize == 0
            && (t.found <==> if TotalSize(ev.data) >= 524288 then s.found else ev.partFound)
            && (t.part != s.part ==> TotalSize(ev.data) < 524288 && ev.partFound && !ev.eraseOk)
            && t.otaOn == s.otaOn
  {
  }

  /** What becomes of the expected block on working hardware, in any session,
      refused or already judged: with no partition the board goes down without a
      reply; with one the block is taken iff it fits and the bytes in its place
      can still be programmed to it. */
  lemma ExpectedBlockTakenIff(t: State, data: Event)
    requires t.live && t.startFlag && data.Data? && data.frameId == t.writeSize / 8
    requires data.healthy && Legal(t, data)
    ensures var (u, rs) := Next(t, data);
            && (HasAck(rs) <==> t.found && t.writeSize + 8 <= 393216 && AllProgrammable(t.part, t.writeSize, data.block))
            && (rs == [] <==> !t.found)
            && (!t.found ==> !u.live)
  {
    hide Crc, Touched, AllProgrammable, NextStart, Blank;
    assert Writes(t, data) <==> t.found;
    if t.found && data.writeOk {
      assert BlockReply(true, data.frameId) in Next(t, data).1;
      StoredWasProgrammable(t.part, data.after, t.writeSize, data.block);
    }
  }

  lemma BlockZeroAfterRefusal(s: State, ev: Event, data: Event)
    requires Legal(s, ev) && ev.Start? && s.live && Next(s, ev).1 == [StartReply(false)]
    requires data.Data? && data.frameId == 0 && data.healthy && Legal(Next(s, ev).0, data)
    ensures var t := Next(s, ev).0; var (u, rs) := Next(t, data);
            && (HasAck(rs) <==> t.found && AllProgrammable(t.part, 0, data.block))
            && (rs == [] <==> !t.found)
            && (!t.found ==> !u.live)
  {
    hide Next, Legal, AllProgrammable, HasAck;
    RefusedStart(s, ev);
    ExpectedBlockTakenIff(Next(s, ev).0, data);
  }

  lemma StoredWasProgrammable(was: seq<byte>, now: seq<byte>, at: nat, data: seq<byte>)
    requires Touched(was, now, at, data) && now[at..at + |data|] == data
    ensures AllProgrammable(was, at, data)
  {
    hide Between, Programmable;
    forall a | at <= a < at + |data|
      ensures Programmable(was[a], data[a - at])
    {
      assert now[a] == now[at..at + |data|][a - at];
      AgreedCell(was[a], data[a - at], now[a]);
    }
  }

  /** From boot, a start refused for its size followed by block 0 takes the board
      down; 512 KiB is such a size. */
  lemma OversizedStartThenBlockZero(s: State, block: seq<byte>, healthy: bool)
    requires Boot(s) && |block| == 8
    ensures var evs := [Start(StartFrameBytes(0, 0, 512 * 1024), true, true, s.part), Data(0, block, healthy, true, s.part)];
            LegalRun(s, evs) && Replies(s, evs) == [StartReply(false)] && !Run(s, evs).live
  {
    hide Crc, Touched, AllProgrammable, TotalSize, StartFrameBytes, LegalRun, Run, Replies, Blank;
    TotalSizeSent(0, 0, 512 * 1024);
    var ev: Event := Start(StartFrameBytes(0, 0, 512 * 1024), true, true, s.part);
    var data: Event := Data(0, block, healthy, true, s.part);
    var t := Next(s, ev).0;
    assert Next(s, ev).1 == [StartReply(false)] && !t.found && t.startFlag && t.live && t.writeSize == 0;
    RunNone(s);
    var one := RunSnoc(s, [], ev);
    var two := RunSnoc(s, one, data);
    assert one == [ev] && two == [ev, data];
  }

  lemma RunNone(s: State)
    requires |s.part| == PART_LEN
    ensures LegalRun(s, []) && Run(s, []) == s && Replies(s, []) == []
  {
  }

  // --- Which sessions can be completed -----------------------------------------------------

  /** The sender's first k blocks, in order, over working hardware. */
  function InOrder(part: seq<byte>, image: seq<byte>, k: nat): (evs: seq<Event>)
    requires |part| == PART_LEN && 8 * k <= |image| && 8 * k <= PART_LEN
    ensures |evs| == k && forall j :: 0 <= j < k ==> evs[j].Data? && Carries(image, evs[j])
    decreases k
  {
    if k == 0 then [] else
      InOrder(part, image, k - 1)
      + [Data(k - 1, image[8 * k - 8..8 * k], true, true, image[..8 * k] + part[8 * k..])]
  }

  /** Where the flash and the counter stand after k blocks sent in order. */
  predicate InOrderState(s: State, t: State, image: seq<byte>, k: nat) {
    && 8 * k <= |image| && 8 * k <= PART_LEN == |s.part|
    && t.part == image[..8 * k] + s.part[8 * k..] && t.writeSize == 8 * k
    && (k < Needed(s.total) ==> t.live)
  }

  lemma InOrderStep(s: State, u: State, image: seq<byte>, k: nat)
    requires Accepted(s) && 0 < k <= Needed(s.total) && 8 * k <= |image| && 8 * k <= PART_LEN
    requires InOrderState(s, u, image, k - 1) && u.startFlag && u.found && u.total == s.total
    ensures var ev := InOrder(s.part, image, k)[k - 1];
            Legal(u, ev) && InOrderState(s, Next(u, ev).0, image, k) && HasAck(Next(u, ev).1)
            && ev.block == image[8 * k - 8..8 * k]
  {
    hide Crc, Touched, AllProgrammable, Accepted, NextStart, Blank, InOrder, Legal;
    var ev := InOrderEvent(s, image, k);
    InOrderLegal(s, u, image, k, ev);
    assert BlockReply(true, k - 1) in Next(u, ev).1;
  }

  lemma InOrderEvent(s: State, image: seq<byte>, k: nat) returns (ev: Event)
    requires |s.part| == PART_LEN && 0 < k && 8 * k <= |image| && 8 * k <= PART_LEN
    ensures ev == InOrder(s.part, image, k)[k - 1]
    ensures ev == Data(k - 1, image[8 * k - 8..8 * k], true, true, image[..8 * k] + s.part[8 * k..])
  {
    ev := InOrder(s.part, image, k)[k - 1];
  }

  lemma InOrderLegal(s: State, u: State, image: seq<byte>, k: nat, ev: Event)
    requires Accepted(s) && 0 < k <= Needed(s.total) && 8 * k <= |image| && 8 * k <= PART_LEN
    requires InOrderState(s, u, image, k - 1) && u.startFlag && u.found
    requires ev == Data(k - 1, image[8 * k - 8..8 * k], true, true, image[..8 * k] + s.part[8 * k..])
    ensures Legal(u, ev) && Writes(u, ev) && Next(u, ev) == Acknowledge(u.(part := ev.after), k - 1, ev.block)
  {
    hide Crc, Touched, AllProgrammable, NextStart, Blank, Acknowledge;
    AcceptedFields(s);
    InOrderWrite(s.part, image, k);
  }

  lemma {:induction false} InOrderRun(s: State, image: seq<byte>, k: nat)
    requires Accepted(s) && 8 * k <= |image| && 8 * k <= PART_LEN && k <= Needed(s.total)
    ensures var evs := InOrder(s.part, image, k);
            LegalRun(s, evs) && InOrderState(s, Run(s, evs), image, k)
    ensures k > 0 ==> HasAck(LastReplies(s, InOrder(s.part, image, k)))
    decreases k
  {
    hide Accepted, Consistent, Legal, Next, HasAck, InOrderState, Carries, Acked, Flatten, Needed;
    assert |s.part| == PART_LEN by { AcceptedFields(s); }
    if k == 0 {
      InOrderStart(s, image);
    } else {
      InOrderRun(s, image, k - 1);
      var front := InOrder(s.part, image, k - 1);
      assert InOrder(s.part, image, k)[..k - 1] == front;
      SessionInvariant(s, front);
      InOrderStep(s, Run(s, front), image, k);
    }
  }

  lemma {:induction false} InOrderAcked(s: State, image: seq<byte>, k: nat)
    requires Accepted(s) && 8 * k <= |image| && 8 * k <= PART_LEN && k <= Needed(s.total)
    ensures var evs := InOrder(s.part, image, k);
            |Acked(s, evs)| == k && Flatten(Acked(s, evs)) == image[..8 * k]
    decreases k
  {
    hide Accepted, Legal, Next, HasAck, Carries, Flatten, Needed, LastReplies, Run, LegalRun, InOrderState;
    assert |s.part| == PART_LEN by { AcceptedFields(s); }
    if k == 0 {
      InOrderStart(s, image);
    } else {
      InOrderAcked(s, image, k - 1);
      InOrderRun(s, image, k);
      var front := InOrder(s.part, image, k - 1);
      var ev := InOrder(s.part, image, k)[k - 1];
      assert InOrder(s.part, image, k)[..k - 1] == front;
      FlattenSnoc(Acked(s, front), ev.block);
      assert image[..8 * k] == image[..8 * k - 8] + ev.block;
    }
  }

  lemma InOrderStart(s: State, image: seq<byte>)
    requires Accepted(s)
    ensures InOrderState(s, s, image, 0) && |s.part| == PART_LEN && Flatten([]) == image[..0]
  {
    assert image[..0] + s.part[0..] == s.part;
  }

  lemma AcceptedFields(s: State)
    requires Accepted(s)
    ensures |s.part| == PART_LEN && s.writeSize == 0 && s.live && Blank(s.part)
  {
  }

  lemma ProgramErased(d: byte)
    ensures Between(ERASED, d, d)
  {
  }

  lemma InOrderWrite(part: seq<byte>, image: seq<byte>, k: nat)
    requires |part| == PART_LEN && 0 < k && 8 * k <= |image| && 8 * k <= PART_LEN
    requires Blank(part)
    ensures var was := image[..8 * k - 8] + part[8 * k - 8..]; var now := image[..8 * k] + part[8 * k..];
            && Touched(was, now, 8 * k - 8, image[8 * k - 8..8 * k])
            && now[8 * k - 8..8 * k] == image[8 * k - 8..8 * k]
  {
    hide Between;
    var was := image[..8 * k - 8] + part[8 * k - 8..];
    var now := image[..8 * k] + part[8 * k..];
    forall a | 8 * k - 8 <= a < 8 * k
      ensures Between(was[a], image[8 * k - 8..8 * k][a - (8 * k - 8)], now[a])
    {
      ProgramErased(image[a]);
    }
  }

  /** The start check admits announced sizes below 512 KiB, but the partition has
      384 KiB: an accepted session can reach a verdict iff its size fits. */
  lemma CompletableIffFits(s: State)
    requires Accepted(s)
    ensures (exists evs :: LegalRun(s, evs) && OneSession(evs) && HasEnd(Replies(s, evs))) <==> s.total <= 393216
  {
    hide HasEnd, Run, Acked, Consistent, Legal, LegalRun, Replies, InOrder;
    if evs :| LegalRun(s, evs) && OneSession(evs) && HasEnd(Replies(s, evs)) {
      FirstVerdict(s, evs);
      SessionInvariant(s, evs);
      ConsistentLength(Run(s, evs), Acked(s, evs));
    }
    if s.total <= PART_LEN {
      var n := Needed(s.total);
      var image: seq<byte> := seq(8 * n, _ => 0);
      InOrderRun(s, image, n);
      InOrderAcked(s, image, n);
      FirstVerdict(s, InOrder(s.part, image, n));
    }
  }

  /** The false claim made concrete: 400000 bytes are accepted but never finish. */
  lemma AcceptedButTooLarge(s: State, evs: seq<Event>)
    requires Accepted(s) && s.total == 400000 && LegalRun(s, evs) && OneSession(evs)
    ensures !HasEnd(Replies(s, evs))
  {
    CompletableIffFits(s);
  }

  /** An image that fits, sent in order with its CRC announced, ends with the
      success reply and stands in the flash. */
  lemma IntactImageInstalled(s: State, image: seq<byte>)
    requires Accepted(s) && |image| == 8 * Needed(s.total) <= PART_LEN && s.crc16 == Crc(CRC_START, image)
    ensures var n := Needed(s.total); var evs := InOrder(s.part, image, n);
            && LegalRun(s, evs) && OneSession(evs)
            && LastReplies(s, evs) == [BlockReply(true, n - 1), EndReply(true)]
            && Run(s, evs).part == image + s.part[|image|..]
  {
    hide HasEnd, Run, Acked, Consistent, Legal, LegalRun, Replies, LastReplies, Flatten, Crc;
    var n := Needed(s.total);
    InOrderRun(s, image, n);
    InOrderAcked(s, image, n);
    FirstVerdict(s, InOrder(s.part, image, n));
    assert image[..8 * n] == image;
  }

  // --- From the start request on ------------------------------------------------------------------

  lemma ByteIncrement(b: bv8)
    requires b as nat < 255
    ensures (b + 1) as nat == b as nat + 1
  {
    assert b != 255;
  }

  /** A byte from its value. */
  function Byte(n: nat): (b: bv8)
    requires n < 0x100
    ensures b as nat == n
    decreases n
  {
    if n == 0 then 0
    else
      var c := Byte(n - 1);
      ByteIncrement(c);
      c + 1
  }

  /** The eight bytes the main board sends to announce an update. */
  function StartFrameBytes(version: bv16, crc: bv16, total: nat): (data: seq<byte>)
    requires total < WORD_LIMIT
    ensures |data| == 8
  {
    [Hi(version), Lo(version), Hi(crc), Lo(crc),
     Byte(total / 0x100_0000), Byte(total / 0x1_0000 % 0x100), Byte(total / 0x100 % 0x100), Byte(total % 0x100)]
  }

  lemma BigEndian(n: nat)
    ensures n / 0x100_0000 * 0x100_0000 + n / 0x1_0000 % 0x100 * 0x1_0000 + n / 0x100 % 0x100 * 0x100 + n % 0x100 == n
  {
    var a, b := n / 0x100, n / 0x1_0000;
    assert n == a * 0x100 + n % 0x100;
    assert a == b * 0x100 + a % 0x100;
    assert b == n / 0x100_0000 * 0x100 + b % 0x100;
  }

  lemma TotalSizeSent(version: bv16, crc: bv16, total: nat)
    requires total < WORD_LIMIT
    ensures TotalSize(StartFrameBytes(version, crc, total)) == total
  {
    hide Byte, Hi, Lo;
    BigEndian(total);
  }

  lemma HeaderSent(version: bv16, crc: bv16, total: nat)
    requires total < WORD_LIMIT
    ensures var data := StartFrameBytes(version, crc, total);
            U16(data[0], data[1]) == version && U16(data[2], data[3]) == crc
  {
    hide Byte, Hi, Lo, Join;
    SwapSwap(version);
    SwapSwap(crc);
  }

  /** What is announced is what the session works with. */
  lemma AnnouncementStored(s: State, version: bv16, crc: bv16, total: nat, ev: Event)
    requires s.live && total < WORD_LIMIT && ev.Start? && ev.data == StartFrameBytes(version, crc, total)
    ensures var t := Next(s, ev).0; t.version == version && t.crc16 == crc && t.total == total
  {
    hide TotalSize, U16, StartFrameBytes;
    HeaderSent(version, crc, total);
    TotalSizeSent(version, crc, total);
  }

  /** The layout of a start frame: version, CRC and size, high bytes first. */
  lemma StartFrameLayout(s: State, ev: Event)
    requires s.live && ev.Start? && ev.data == [0x12, 0x34, 0x56, 0x78, 0x00, 0x05, 0xAB, 0xCD]
    ensures var t := Next(s, ev).0; t.version == 0x1234 && t.crc16 == 0x5678 && t.total == 0x5ABCD
  {
    assert (0x05 as bv8) as nat == 5 && (0xAB as bv8) as nat == 171 && (0xCD as bv8) as nat == 205;
  }

  /** The whole update: announced with its size and CRC, erased, and sent in
      order, an image that fits is installed and reported good. */
  lemma UpdateSucceeds(s: State, version: bv16, total: nat, image: seq<byte>, ev: Event)
    requires s.live && Legal(s, ev) && ev.Start? && ev.partFound && ev.eraseOk
    requires total < DEVICE_OTA_ROM_SIZE && |image| == 8 * Needed(total) <= PART_LEN
    requires ev.data == StartFrameBytes(version, Crc(CRC_START, image), total)
    ensures var t := Next(s, ev).0; var evs := InOrder(t.part, image, Needed(total));
            && Next(s, ev).1 == [StartReply(true)]
            && LegalRun(t, evs) && LastReplies(t, evs) == [BlockReply(true, Needed(total) - 1), EndReply(true)]
            && Run(t, evs).part == image + t.part[|image|..]
  {
    hide Crc, LegalRun, Run, LastReplies, InOrder;
    AnnouncementStored(s, version, Crc(CRC_START, image), total, ev);
    AcceptedIffAnsweredOne(s, ev);
    IntactImageInstalled(Next(s, ev).0, image);
  }

  // --- The code --------------------------------------------------------------------------------

  /** g_ota_manage with the flash below it and the reply queue above it. */
  class OtaManager {
    var otaOn: bool
    var newVersion: bv16
    var fileCrc16: bv16
    var fileTotalSize: nat
    var fileWriteSize: nat
    var fileCrcCur: bv16
    var dlPart: bool           // dl_part: NULL or the download partition
    var otaStartFlag: bool
    var live: bool             // cleared by rt_hw_cpu_reset and by a failed assert
    var sent: seq<Reply>       // replies handed to can_tx_mq, oldest first
    const flash: Flash

    ghost predicate Valid()
      reads this, flash
    {
      flash.Valid()
    }

    ghost function Abs(): (s: State)
      requires Valid()
      reads this, flash, flash.cells
      ensures |s.part| == PART_LEN
    {
      State(flash.cells[PartLo()..PartHi()], otaStartFlag, otaOn, dlPart, newVersion, fileCrc16,
            fileTotalSize, fileWriteSize, fileCrcCur, live)
    }

    /** Nothing outside the download partition has changed. */
    twostate predicate OthersUntouched()
      requires old(Valid()) && Valid()
      reads this, flash, flash.cells
    {
      forall a :: 0 <= a < ROM_SIZE && !(PartLo() <= a < PartHi()) ==> flash.cells[a] == old(flash.cells[a])
    }

    constructor ()
      ensures Valid() && Boot(Abs()) && sent == []
    {
      otaOn, newVersion, fileCrc16, fileTotalSize := false, 0, 0, 0;
      fileWriteSize, fileCrcCur, dlPart, otaStartFlag, live, sent := 0, 0, false, false, true, [];
      flash := new Flash();
    }

    /** fal_partition_erase_all on the download partition. */
    method ErasePart(healthy: bool) returns (ok: bool)
      requires Valid()
      modifies flash, flash.cells
      ensures Valid() && OthersUntouched() && (healthy ==> ok)
      ensures ok ==> Blank(Abs().part)
    {
      var deviceFound: bool := *;
      var r := PartitionEraseAll(flash, DOWNLOAD, deviceFound || healthy, healthy);
      ok := r >= 0;
    }

    /** fal_partition_write of one block at file_write_size. */
    method WritePart(recData: seq<byte>, healthy: bool) returns (ok: bool)
      requires Valid() && |recData| == 8 && fileWriteSize <= PART_LEN
      modifies flash, flash.cells
      ensures Valid() && OthersUntouched()
      ensures fileWriteSize + 8 > PART_LEN ==> !ok && Abs().part == old(Abs().part)
      ensures fileWriteSize + 8 <= PART_LEN ==>
                && Touched(old(Abs().part), Abs().part, fileWriteSize, recData)
                && (ok ==> Abs().part[fileWriteSize..fileWriteSize + 8] == recData)
                && (healthy && AllProgrammable(old(Abs().part), fileWriteSize, recData) ==> ok)
    {
      hide Touched, AllProgrammable;
      ghost var was := flash.cells[..];
      var deviceFound: bool := *;
      deviceFound := deviceFound || healthy;
      var r := PartitionWrite(flash, DOWNLOAD, fileWriteSize, recData, deviceFound, healthy);
      ok := r >= 0;
      if fileWriteSize + 8 <= PART_LEN {
        if !deviceFound { UntouchedIsTouched(was, PartLo() + fileWriteSize, recData); }
        TouchedInPartition(was, flash.cells[..], fileWriteSize, recData);
      }
      assert was[PartLo()..PartHi()] == old(Abs().part);
      assert flash.cells[..][PartLo()..PartHi()] == Abs().part;
    }

    /** The partition lookup and erase of a start request. */
    method PreparePartition(partFound: bool, healthy: bool) returns (ok: bool)
      requires Valid()
      modifies `dlPart, `otaOn, flash, flash.cells
      ensures Valid() && OthersUntouched()
      ensures dlPart == partFound && otaOn == (ok || old(otaOn))
      ensures !partFound ==> !ok && Abs().part == old(Abs().part)
      ensures ok ==> Blank(Abs().part)
      ensures partFound && healthy ==> ok
    {
      hide Blank;
      ok := false;
      dlPart := partFound;
      if dlPart {
        ok := ErasePart(healthy);
        if ok { otaOn := true; }
      }
    }

    /** mainboard_ota_start_request, with the flag the receive thread sets after it. */
    method StartRequest(recData: seq<byte>, partFound: bool, healthy: bool) returns (ghost ev: Event)
      requires Valid() && |recData| == 8 && live
      modifies this, flash, flash.cells
      ensures Valid() && OthersUntouched()
      ensures ev.Start? && ev.data == recData && ev.partFound == partFound && Legal(old(Abs()), ev)
      ensures Abs() == Next(old(Abs()), ev).0 && sent == old(sent) + Next(old(Abs()), ev).1
      ensures healthy && Erases(old(Abs()), ev) ==> ev.eraseOk
      ensures fileWriteSize == 0
    {
      hide Crc, TotalSize, U16, Blank, Touched, NextData;
      newVersion := U16(recData[0], recData[1]);
      fileCrc16 := U16(recData[2], recData[3]);
      fileTotalSize := TotalSize(recData);
      fileWriteSize := 0;
      fileCrcCur := CRC_START;
      var otaContinue := false;
      if fileTotalSize < DEVICE_OTA_ROM_SIZE {
        otaContinue := PreparePartition(partFound, healthy);
      }
      sent := sent + [StartReply(otaContinue)];
      otaStartFlag := true;
      ev := Start(recData, partFound, otaContinue, Abs().part);
    }

    /** mainboard_ota_data_request; the caller always passes a length of 8. */
    method DataRequest(frameId: nat, recData: seq<byte>, healthy: bool) returns (ghost ev: Event)
      requires Valid() && |recData| == 8 && frameId < 0x1_0000 && live && otaStartFlag
      requires fileWriteSize <= PART_LEN
      modifies this, flash, flash.cells
      ensures Valid() && OthersUntouched()
      ensures ev.Data? && ev.frameId == frameId && ev.block == recData && ev.healthy == healthy
      ensures Legal(old(Abs()), ev)
      ensures Abs() == Next(old(Abs()), ev).0 && sent == old(sent) + Next(old(Abs()), ev).1
      ensures fileWriteSize <= PART_LEN
    {
      hide Crc, Touched, AllProgrammable, NextStart, Blank, TotalSize, Acknowledge;
      ghost var writeOk := false;
      if fileWriteSize / 8 == frameId {
        if !dlPart {
          live := false;    // assert(part) loops for ever
        } else {
          var ok := WritePart(recData, healthy);
          writeOk := ok;
          if !ok {
            sent := sent + [BlockReply(false, frameId)];
          } else {
            AcknowledgeBlock(frameId, recData);
          }
        }
      } else {
        sent := sent + [BlockReply(false, frameId)];
      }
      ev := Data(frameId, recData, healthy, writeOk, Abs().part);
    }

    /** The part of mainboard_ota_data_request that follows a good write. */
    method AcknowledgeBlock(frameId: nat, recData: seq<byte>)
      requires Valid() && |recData| == 8
      modifies this
      ensures Valid() && fileWriteSize == old(fileWriteSize) + 8
      ensures Abs() == Acknowledge(old(Abs()), frameId, recData).0
      ensures sent == old(sent) + Acknowledge(old(Abs()), frameId, recData).1
    {
      hide Crc;
      fileWriteSize := fileWriteSize + 8;
      fileCrcCur := ModbusRtuCrc16Frame(recData, 8, fileCrcCur);
      assert recData[..8] == recData;
      sent := sent + [BlockReply(true, frameId)];
      if fileWriteSize >= fileTotalSize {
        if fileCrcCur == fileCrc16 {
          sent := sent + [EndReply(true)];
          otaOn := false;
          live := false;   // rt_hw_cpu_reset
        } else {
          sent := sent + [EndReply(false)];
        }
      }
    }
  }

  lemma BootSize(s: State)
    requires Boot(s)
    ensures s.writeSize == 0 && !s.startFlag
  {
  }

  lemma TimeoutStep(s: State)
    requires |s.part| == PART_LEN
    ensures Legal(s, Timeout) && Next(s, Timeout) == (s.(live := false), [])
  {
  }

  lemma RunSnoc(s: State, evs: seq<Event>, ev: Event) returns (r: seq<Event>)
    requires LegalRun(s, evs) && Legal(Run(s, evs), ev)
    ensures r == evs + [ev] && LegalRun(s, r) && Run(s, r) == Next(Run(s, evs), ev).0
    ensures Replies(s, r) == Replies(s, evs) + Next(Run(s, evs), ev).1
  {
    hide Legal, Next;
    r := evs + [ev];
    assert r[..|evs|] == evs;
  }

  lemma UntouchedIsTouched(was: seq<byte>, at: nat, data: seq<byte>)
    requires at + |data| <= |was|
    ensures Touched(was, was, at, data)
  {
    hide Between;
    forall a | at <= a < at + |data|
      ensures Between(was[a], data[a - at], was[a])
    {
      BetweenLaws(was[a], data[a - at], 0);
    }
  }

  function PartLo(): nat { DOWNLOAD.Base() - ROM_START }
  function PartHi(): nat { PartLo() + PART_LEN }

  /** A write seen on the whole flash and seen on the partition. */
  lemma TouchedInPartition(was: seq<byte>, now: seq<byte>, at: nat, data: seq<byte>)
    requires |was| == ROM_SIZE && at + |data| <= PART_LEN
    requires Touched(was, now, PartLo() + at, data)
    ensures Touched(was[PartLo()..PartHi()], now[PartLo()..PartHi()], at, data)
    ensures now[PartLo() + at..PartLo() + at + |data|] == now[PartLo()..PartHi()][at..at + |data|]
    ensures AllProgrammable(was, PartLo() + at, data) <==> AllProgrammable(was[PartLo()..PartHi()], at, data)
    ensures forall a :: 0 <= a < ROM_SIZE && !(PartLo() <= a < PartHi()) ==> now[a] == was[a]
  {
    hide Between, Programmable;
    var lo := PartLo();
    forall a | at <= a < at + |data|
      ensures Between(was[lo..PartHi()][a], data[a - at], now[lo..PartHi()][a])
    {
      assert Between(was[lo + a], data[lo + a - (lo + at)], now[lo + a]);
    }
    if AllProgrammable(was, lo + at, data) {
      forall a | at <= a < at + |data|
        ensures Programmable(was[lo..PartHi()][a], data[a - at])
      {
        assert Programmable(was[lo + a], data[lo + a - (lo + at)]);
      }
    }
    if AllProgrammable(was[lo..PartHi()], at, data) {
      forall a | lo + at <= a < lo + at + |data|
        ensures Programmable(was[a], data[a - (lo + at)])
      {
        assert Programmable(was[lo..PartHi()][a - lo], data[a - lo - at]);
      }
    }
  }
}
