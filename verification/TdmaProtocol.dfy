/** What the TDMA runtime guarantees over whole runs: time transfer, follower silence, slots serviced once. */
module TdmaProtocol {
  import opened Words
  import opened NavTypes
  import opened Tdma
  import opened RadioFrame
  import opened Telemetry
  import opened TdmaRuntime

  // ---- time transfer ----------------------------------------------------

  /** The authority's clock at the sending of a heartbeat, held at the last millisecond of the announced slot. */
  function AnnouncedTime(a: Action, txNow: uint32): uint32 {
    if Since(txNow, a.slotStartMs) < NAV_TDMA_FIXED_SLOT_MS then txNow
    else Wrap32(a.slotStartMs + NAV_TDMA_FIXED_SLOT_MS - 1)
  }

  lemma AnnouncedElapsed(a: Action, txNow: uint32, elapsed: nat)
    requires elapsed == if Since(txNow, a.slotStartMs) < NAV_TDMA_FIXED_SLOT_MS
                        then Since(txNow, a.slotStartMs) else NAV_TDMA_FIXED_SLOT_MS - 1
    ensures Wrap32(a.slotStartMs + elapsed) == AnnouncedTime(a, txNow)
  {
    if Since(txNow, a.slotStartMs) < NAV_TDMA_FIXED_SLOT_MS {
      WrapAbsorbs(txNow - a.slotStartMs, a.slotStartMs);
    }
  }

  lemma HeartbeatArrives(h: Heartbeat, seqNo: uint16)
    ensures DecodeFrame(FrameBytes(HeartbeatFrame(h, seqNo))) == Success(HeartbeatFrame(h, seqNo))
    ensures DecodeHeartbeat(HeartbeatFrame(h, seqNo)) == Success(h)
  {
    DecodeInvertsEncode(HeartbeatFrame(h, seqNo));
    HeartbeatRoundTrip(h, seqNo);
  }

  /** The action stands for absolute slot `absolute` of the four-node field plan. */
  predicate Announces(a: Action, absolute: uint32) {
    && a.slotIndex == Mod(absolute, 10) && a.frameIndex == Div(absolute, 10)
    && a.slotStartMs == absolute * NAV_TDMA_FIXED_SLOT_MS
  }

  lemma TenSlots()
    ensures SlotsPerFrame(NAV_MAX_NODES) == 10
  {
  }

  lemma ActionAnnounces(decided: uint32)
    ensures Announces(ActionAt(FieldSchedule(NAV_TDMA_AUTHORITY_ID), decided),
                      AbsoluteSlot(FieldSchedule(NAV_TDMA_AUTHORITY_ID), decided))
  {
    TenSlots();
    ActionParts(FieldSchedule(NAV_TDMA_AUTHORITY_ID), decided);
  }

  lemma SlotRecomposed(absolute: uint32)
    ensures Mod(absolute, 10) < 10 && Wrap32(Div(absolute, 10) * 10 + Mod(absolute, 10)) == absolute
  {
  }

  lemma TimeOfAnnouncement(a: Action, txNow: uint32, absolute: uint32, elapsed: nat)
    requires a.slotStartMs == absolute * NAV_TDMA_FIXED_SLOT_MS
    requires elapsed == if Since(txNow, a.slotStartMs) < NAV_TDMA_FIXED_SLOT_MS
                        then Since(txNow, a.slotStartMs) else NAV_TDMA_FIXED_SLOT_MS - 1
    ensures Wrap32(absolute * NAV_TDMA_FIXED_SLOT_MS + elapsed + HEARTBEAT_RX_COMPENSATION_MS)
         == Wrap32(AnnouncedTime(a, txNow) + HEARTBEAT_RX_COMPENSATION_MS)
  {
    AnnouncedElapsed(a, txNow, elapsed);
    WrapAbsorbs(a.slotStartMs + elapsed, HEARTBEAT_RX_COMPENSATION_MS);
  }

  /** The heartbeat for any slot, sent at any time, is valid and stands for the announced time plus the
      reception compensation. */
  lemma AnnouncementIsValid(authority: Runtime, t: Schedule, a: Action, absolute: uint32, txNow: uint32)
    requires authority.localNodeId == NAV_TDMA_AUTHORITY_ID && FixedPlanValid(t) && Announces(a, absolute)
    ensures var timing := TimingOf(HeartbeatFor(authority, a, txNow));
      && HeartbeatValid(t, timing)
      && AuthorityTime(t, timing) == Wrap32(AnnouncedTime(a, txNow) + HEARTBEAT_RX_COMPENSATION_MS)
  {
    var h := HeartbeatFor(authority, a, txNow);
    SlotRecomposed(absolute);
    TenSlots();
    assert h.slotIndex == a.slotIndex && h.frameIndex == a.frameIndex;
    TimeOfAnnouncement(a, txNow, absolute, h.slotElapsedMs);
  }

  /** Built, encoded, framed, decoded and validated, the heartbeat always arrives and carries the authority's time. */
  lemma HeartbeatCarriesTime(
    authority: Runtime, t: Schedule, a: Action, absolute: uint32, txNow: uint32, seqNo: uint16)
    requires authority.localNodeId == NAV_TDMA_AUTHORITY_ID && FixedPlanValid(t) && Announces(a, absolute)
    ensures var received := DecodeFrame(FrameBytes(HeartbeatFrame(HeartbeatFor(authority, a, txNow), seqNo)));
      && received.Success?
      && AcceptedHeartbeat(t, received.value).Some?
      && AuthorityTime(t, AcceptedHeartbeat(t, received.value).value)
         == Wrap32(AnnouncedTime(a, txNow) + HEARTBEAT_RX_COMPENSATION_MS)
  {
    HeartbeatArrives(HeartbeatFor(authority, a, txNow), seqNo);
    AnnouncementIsValid(authority, t, a, absolute, txNow);
  }

  /** A follower's runtime once aligned, at `rxNow`, with authority time `announced`. */
  function Aligned(follower: Runtime, announced: uint32, rxNow: uint32): Runtime {
    follower.(epochLocalMs := Wrap32(rxNow - announced), lastHeartbeatMs := rxNow, synced := true)
  }

  lemma AcceptanceAligns(follower: Runtime, f: Frame, announced: uint32, rxNow: uint32)
    requires follower.localNodeId != NAV_TDMA_AUTHORITY_ID && AcceptedHeartbeat(follower.schedule, f).Some?
    requires AuthorityTime(follower.schedule, AcceptedHeartbeat(follower.schedule, f).value) == announced
    ensures OnHeartbeat(follower, f, rxNow) == Aligned(follower, announced, rxNow)
  {
  }

  lemma AnnouncementAligns(
    authority: Runtime, follower: Runtime, a: Action, absolute: uint32, txNow: uint32, seqNo: uint16, rxNow: uint32)
    requires authority.localNodeId == NAV_TDMA_AUTHORITY_ID && Announces(a, absolute)
    requires follower.localNodeId != NAV_TDMA_AUTHORITY_ID && Configured(follower)
    ensures var received := DecodeFrame(FrameBytes(HeartbeatFrame(HeartbeatFor(authority, a, txNow), seqNo)));
      && received.Success?
      && OnHeartbeat(follower, received.value, rxNow)
         == Aligned(follower, Wrap32(AnnouncedTime(a, txNow) + HEARTBEAT_RX_COMPENSATION_MS), rxNow)
  {
    HeartbeatCarriesTime(authority, follower.schedule, a, absolute, txNow, seqNo);
    AcceptanceAligns(follower, DecodeFrame(FrameBytes(HeartbeatFrame(HeartbeatFor(authority, a, txNow), seqNo))).value,
                     Wrap32(AnnouncedTime(a, txNow) + HEARTBEAT_RX_COMPENSATION_MS), rxNow);
  }

  lemma AlignedClock(
    follower: Runtime, sent: int, delay: int, later: int, authorityOffset: int, followerOffset: int)
    requires follower.localNodeId != NAV_TDMA_AUTHORITY_ID
    ensures
      var announced := Wrap32(Wrap32(sent + authorityOffset) + HEARTBEAT_RX_COMPENSATION_MS);
      AlignedNow(Aligned(follower, announced, Wrap32(sent + delay + followerOffset)), Wrap32(later + followerOffset))
      == Wrap32(Wrap32(later + authorityOffset) + HEARTBEAT_RX_COMPENSATION_MS - delay)
  {
    ClockAlgebra(sent, delay, later, authorityOffset, followerOffset);
  }

  /** End to end: while the announcement was not capped, the follower's aligned clock is the authority's clock plus
      100 ms minus the delivery delay, at every later moment, whatever the two clocks' offsets. */
  lemma FollowerClockError(
    authority: Runtime, follower: Runtime, decided: uint32, seqNo: uint16,
    sent: int, delay: int, later: int, authorityOffset: int, followerOffset: int)
    requires authority.localNodeId == NAV_TDMA_AUTHORITY_ID
    requires follower.localNodeId != NAV_TDMA_AUTHORITY_ID && Configured(follower)
    requires Since(Wrap32(sent + authorityOffset),
                   ActionAt(FieldSchedule(NAV_TDMA_AUTHORITY_ID), decided).slotStartMs) < NAV_TDMA_FIXED_SLOT_MS
    ensures
      var a := ActionAt(FieldSchedule(NAV_TDMA_AUTHORITY_ID), decided);
      var received := DecodeFrame(
        FrameBytes(HeartbeatFrame(HeartbeatFor(authority, a, Wrap32(sent + authorityOffset)), seqNo)));
      && received.Success?
      && var synced := OnHeartbeat(follower, received.value, Wrap32(sent + delay + followerOffset));
         && synced.synced
         && AlignedNow(synced, Wrap32(later + followerOffset))
            == Wrap32(Wrap32(later + authorityOffset) + HEARTBEAT_RX_COMPENSATION_MS - delay)
  {
    var a := ActionAt(FieldSchedule(NAV_TDMA_AUTHORITY_ID), decided);
    ActionAnnounces(decided);
    AnnouncementAligns(authority, follower, a, AbsoluteSlot(FieldSchedule(NAV_TDMA_AUTHORITY_ID), decided),
                       Wrap32(sent + authorityOffset), seqNo, Wrap32(sent + delay + followerOffset));
    AlignedClock(follower, sent, delay, later, authorityOffset, followerOffset);
  }

  lemma ClockAlgebra(sent: int, delay: int, later: int, authorityOffset: int, followerOffset: int)
    ensures
      var announced := Wrap32(Wrap32(sent + authorityOffset) + HEARTBEAT_RX_COMPENSATION_MS);
      var epoch := Wrap32(Wrap32(sent + delay + followerOffset) - announced);
      Wrap32(Wrap32(later + followerOffset) - epoch)
      == Wrap32(Wrap32(later + authorityOffset) + HEARTBEAT_RX_COMPENSATION_MS - delay)
  {
    var rx := sent + delay + followerOffset;
    var announced := sent + authorityOffset + HEARTBEAT_RX_COMPENSATION_MS;
    WrapAbsorbs(sent + authorityOffset, HEARTBEAT_RX_COMPENSATION_MS);
    DifferenceOfWrapped(rx, announced);
    DifferenceOfWrapped(later + followerOffset, rx - announced);
    WrapAbsorbs(later + authorityOffset, HEARTBEAT_RX_COMPENSATION_MS - delay);
  }

  lemma DifferenceOfWrapped(x: int, y: int)
    ensures Wrap32(Wrap32(x) - Wrap32(y)) == Wrap32(x - y)
  {
    WrapAbsorbs(x, 0 - Wrap32(y) as int);
    WrapAbsorbs(y, x);
  }

  // ---- runs -------------------------------------------------------------

  /** What happens to a node's runtime, stamped with true time. */
  datatype Op =
    | NodeReset(at: nat, nodeId: uint8)
    | FrameHeard(at: nat, frame: Frame)
    | Serviced(at: nat)

  predicate InOrder(ops: seq<Op>) {
    forall i, j :: 0 <= i <= j < |ops| ==> ops[i].at <= ops[j].at
  }

  function Apply(rt: Runtime, op: Op): (r: Runtime)
    requires Configured(rt)
    ensures Configured(r)
  {
    match op
    case NodeReset(_, nodeId) => ResetFor(nodeId)
    case FrameHeard(at, f) => OnHeartbeat(rt, f, Wrap32(at))
    case Serviced(at) => AfterService(rt, Wrap32(at))
  }

  function Run(first: uint8, ops: seq<Op>): (rt: Runtime)
    ensures Configured(rt)
  {
    if ops == [] then ResetFor(first) else Apply(Run(first, ops[..|ops| - 1]), ops[|ops| - 1])
  }

  /** The frame is a heartbeat that validates against the field plan; which node asks does not matter. */
  predicate ValidBeat(f: Frame) {
    AcceptedHeartbeat(FieldSchedule(NAV_TDMA_AUTHORITY_ID), f).Some?
  }

  /** The last validated heartbeat since the node was last given its id. */
  function LastSync(ops: seq<Op>): (r: Option<nat>)
    ensures r.Some? ==> r.value < |ops| && ops[r.value].FrameHeard? && ValidBeat(ops[r.value].frame)
    ensures forall i :: (if r.Some? then r.value else |ops|) < i < |ops| ==> !ops[i].NodeReset?
  {
    if ops == [] then None
    else
      var k := |ops| - 1;
      if ops[k].NodeReset? then None
      else if ops[k].FrameHeard? && ValidBeat(ops[k].frame) then Some(k)
      else LastSync(ops[..k])
  }

  lemma BeatAccepted(rt: Runtime, f: Frame)
    requires Configured(rt)
    ensures AcceptedHeartbeat(rt.schedule, f).Some? <==> ValidBeat(f)
  {
  }

  /** A follower's sync state is exactly its last validated heartbeat. */
  lemma {:induction false} SyncTracked(first: uint8, ops: seq<Op>)
    ensures var rt := Run(first, ops);
      rt.localNodeId != NAV_TDMA_AUTHORITY_ID ==>
        && (rt.synced <==> LastSync(ops).Some?)
        && (rt.synced ==> rt.lastHeartbeatMs == Wrap32(ops[LastSync(ops).value].at))
  {
    if ops != [] {
      var k := |ops| - 1;
      SyncTracked(first, ops[..k]);
      if ops[k].FrameHeard? {
        BeatAccepted(Run(first, ops[..k]), ops[k].frame);
      }
    }
  }

  /** A follower has timing exactly while its last validated heartbeat looks at most 15 s old on the wrapping clock. */
  lemma TimingIsRecentSync(first: uint8, ops: seq<Op>, now: nat)
    requires Run(first, ops).localNodeId != NAV_TDMA_AUTHORITY_ID
    requires LastSync(ops).Some? ==> ops[LastSync(ops).value].at <= now
    ensures HasAuthorityTiming(Run(first, ops), Wrap32(now))
       <==> LastSync(ops).Some? && Wrap32(now - ops[LastSync(ops).value].at) <= NAV_TDMA_AUTHORITY_TIMEOUT_MS
    ensures LastSync(ops).Some? && now < ops[LastSync(ops).value].at + TWO_32 ==>
      Wrap32(now - ops[LastSync(ops).value].at) == now - ops[LastSync(ops).value].at
  {
    SyncTracked(first, ops);
    if LastSync(ops).Some? {
      WrappedAge(now, ops[LastSync(ops).value].at);
    }
  }

  lemma WrappedAge(now: nat, past: nat)
    requires past <= now
    ensures Since(Wrap32(now), Wrap32(past)) == Wrap32(now - past)
    ensures now < past + TWO_32 ==> Wrap32(now - past) == now - past
  {
    DifferenceOfWrapped(now, past);
  }

  /** A node that is not the authority starts a beacon or either side of a ranging exchange only while a validated
      heartbeat, heard since it was last given its id, looks at most 15 s old: it is, unless 2^32 ms have passed. */
  lemma FollowersStaySilent(first: uint8, ops: seq<Op>, now: nat)
    requires Run(first, ops).localNodeId != NAV_TDMA_AUTHORITY_ID
    requires LastSync(ops).Some? ==> ops[LastSync(ops).value].at <= now
    requires Starts(Decide(Run(first, ops), Wrap32(now)))
    ensures exists j ::
      && 0 <= j < |ops| && ops[j].FrameHeard? && ValidBeat(ops[j].frame) && ops[j].at <= now
      && Wrap32(now - ops[j].at) <= NAV_TDMA_AUTHORITY_TIMEOUT_MS
      && (now < ops[j].at + TWO_32 ==> now - ops[j].at <= NAV_TDMA_AUTHORITY_TIMEOUT_MS)
      && forall i :: j < i < |ops| ==> !ops[i].NodeReset?
  {
    TimingIsRecentSync(first, ops, now);
    var j := LastSync(ops).value;
    assert ops[j].FrameHeard? && ValidBeat(ops[j].frame);
  }

  /** A follower that took one heartbeat and heard nothing since has timing again 2^32 ms later. */
  lemma TimingRevives(nodeId: uint8, f: Frame, at: nat)
    requires nodeId != NAV_TDMA_AUTHORITY_ID && ValidBeat(f)
    ensures HasAuthorityTiming(Run(nodeId, [FrameHeard(at, f)]), Wrap32(at + TWO_32))
    ensures !HasAuthorityTiming(Run(nodeId, [FrameHeard(at, f)]), Wrap32(at + TWO_32 - 1))
  {
    var ops := [FrameHeard(at, f)];
    assert ops[..0] == [] && Run(nodeId, ops) == OnHeartbeat(ResetFor(nodeId), f, Wrap32(at));
    assert LastSync(ops) == Some(0);
    BeatAccepted(ResetFor(nodeId), f);
    TimingIsRecentSync(nodeId, ops, at + TWO_32);
    TimingIsRecentSync(nodeId, ops, at + TWO_32 - 1);
  }

  // ---- the authority's slots --------------------------------------------

  /** The absolute slots serviced since the node was last given its id, in order. */
  function ServicedSlots(first: uint8, ops: seq<Op>): seq<uint32> {
    if ops == [] then []
    else
      var k := |ops| - 1;
      RecordAfter(Run(first, ops[..k]), ServicedSlots(first, ops[..k]), ops[k])
  }

  predicate StrictlyIncreasing(s: seq<uint32>) {
    forall i, j :: 0 <= i < j < |s| ==> s[i] < s[j]
  }

  lemma SlotsAdvance(t: Schedule, earlier: uint32, later: uint32)
    requires Runnable(t) && t.slotMs == NAV_TDMA_FIXED_SLOT_MS && earlier <= later
    ensures AbsoluteSlot(t, earlier) <= AbsoluteSlot(t, later) < NO_SLOT
  {
  }

  /** The authority's slot record: strictly increasing, ending in the last serviced slot, which has begun. */
  predicate SlotsInOrder(rt: Runtime, slots: seq<uint32>, now: uint32)
    requires Configured(rt)
  {
    && StrictlyIncreasing(slots)
    && rt.lastSlot == (if slots == [] then NO_SLOT else slots[|slots| - 1])
    && (slots != [] ==> slots[|slots| - 1] <= AbsoluteSlot(rt.schedule, now))
  }

  lemma ServiceKeepsOrder(rt: Runtime, slots: seq<uint32>, earlier: uint32, now: uint32)
    requires Configured(rt) && rt.localNodeId == NAV_TDMA_AUTHORITY_ID
    requires SlotsInOrder(rt, slots, earlier) && earlier <= now
    ensures SlotsInOrder(rt, slots, now)
    ensures SlotsInOrder(AfterService(rt, now),
                         if Services(Decide(rt, now)) then slots + [SlotNow(rt, now)] else slots, now)
  {
    SlotsAdvance(rt.schedule, earlier, now);
  }

  function RecordAfter(rt: Runtime, slots: seq<uint32>, op: Op): seq<uint32>
    requires Configured(rt)
  {
    if op.NodeReset? then []
    else if op.Serviced? && Services(Decide(rt, Wrap32(op.at))) then slots + [SlotNow(rt, Wrap32(op.at))]
    else slots
  }

  lemma OrderLater(rt: Runtime, slots: seq<uint32>, earlier: uint32, now: uint32)
    requires Configured(rt) && SlotsInOrder(rt, slots, earlier) && earlier <= now
    ensures SlotsInOrder(rt, slots, now)
  {
    SlotsAdvance(rt.schedule, earlier, now);
  }

  lemma HearingKeepsOrder(rt: Runtime, slots: seq<uint32>, earlier: uint32, op: Op)
    requires Configured(rt) && op.FrameHeard? && rt.localNodeId == NAV_TDMA_AUTHORITY_ID
    requires earlier <= op.at < TWO_32 && SlotsInOrder(rt, slots, earlier)
    ensures SlotsInOrder(Apply(rt, op), RecordAfter(rt, slots, op), op.at)
  {
    OrderLater(rt, slots, earlier, op.at);
  }

  lemma ServiceRecorded(rt: Runtime, slots: seq<uint32>, op: Op)
    requires Configured(rt) && op.Serviced? && op.at < TWO_32
    ensures Apply(rt, op) == AfterService(rt, op.at)
    ensures RecordAfter(rt, slots, op) == if Services(Decide(rt, op.at)) then slots + [SlotNow(rt, op.at)] else slots
  {
    assert Wrap32(op.at) == op.at;
  }

  lemma OpKeepsOrder(rt: Runtime, slots: seq<uint32>, earlier: uint32, op: Op)
    requires Configured(rt) && !op.NodeReset? && rt.localNodeId == NAV_TDMA_AUTHORITY_ID
    requires earlier <= op.at < TWO_32 && SlotsInOrder(rt, slots, earlier)
    ensures SlotsInOrder(Apply(rt, op), RecordAfter(rt, slots, op), op.at)
  {
    if op.FrameHeard? {
      HearingKeepsOrder(rt, slots, earlier, op);
    } else {
      ServiceKeepsOrder(rt, slots, earlier, op.at);
      ServiceRecorded(rt, slots, op);
    }
  }

  lemma NodeUnchanged(rt: Runtime, op: Op)
    requires Configured(rt) && !op.NodeReset?
    ensures Apply(rt, op).localNodeId == rt.localNodeId
  {
  }

  /** On a clock that does not wrap, the authority services strictly increasing absolute slots, each at most once. */
  lemma {:induction false} AuthorityServicesSlotsOnce(first: uint8, ops: seq<Op>)
    requires InOrder(ops) && (ops != [] ==> ops[|ops| - 1].at < TWO_32)
    requires Run(first, ops).localNodeId == NAV_TDMA_AUTHORITY_ID
    ensures SlotsInOrder(Run(first, ops), ServicedSlots(first, ops), if ops == [] then 0 else ops[|ops| - 1].at)
  {
    if ops != [] {
      var k := |ops| - 1;
      var rt := Run(first, ops[..k]);
      if ops[k].NodeReset? {
        assert ServicedSlots(first, ops) == [] && Run(first, ops).lastSlot == NO_SLOT;
      } else {
        NodeUnchanged(rt, ops[k]);
        AuthorityServicesSlotsOnce(first, ops[..k]);
        OpKeepsOrder(rt, ServicedSlots(first, ops[..k]), if k == 0 then 0 else ops[k - 1].at, ops[k]);
      }
    }
  }
}
