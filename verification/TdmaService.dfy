/** What nodes do in their slots: every due slot is served by the part the schedule gives its node. */
module TdmaService {
  import opened Words
  import opened NavTypes
  import opened Tdma
  import opened TdmaAgreement
  import opened TdmaTiming
  import opened TdmaRuntime
  import opened Telemetry
  import opened TdmaProtocol
  import opened TdmaExchange

  /** The node has timing and has not yet taken the slot it finds itself in. */
  predicate Due(rt: Runtime, now: uint32)
    requires Configured(rt)
  {
    HasAuthorityTiming(rt, now) && rt.lastSlot != SlotNow(rt, now)
  }

  /** How far into its slot the node is. */
  function OffsetNow(rt: Runtime, now: uint32): nat {
    Mod(AlignedNow(rt, now), NAV_TDMA_FIXED_SLOT_MS)
  }

  /** The part a node plays in a slot, from the slot's members alone: beacons start up to 400 ms into the slot, ranging up
      to 50 ms. */
  ghost predicate PlaysItsPart(id: uint8, members: seq<uint8>, slot: nat, offset: nat, d: Decision)
    requires Roster(members) && slot < SlotsPerFrame(|members|)
  {
    if slot < |members| then
      if members[slot] != id then d.ListenOnly? else if offset <= 400 then d.SendBeacon? else d.Late?
    else
      var (lo, hi) := Endpoints(members, slot);
      if id == lo then (if offset <= 50 then d.RangeAsMaster? && d.action.peerId == hi else d.Late?)
      else if id == hi then d.RangeAsSlave? && d.action.peerId == lo
      else d.ListenOnly?
  }

  lemma ActionPlaysItsPart(members: seq<uint8>, id: uint8, now: uint32)
    requires Roster(members) && id in members
    ensures PlaysItsPart(id, members, SlotAt(members, NAV_TDMA_FIXED_SLOT_MS, now), Mod(now, NAV_TDMA_FIXED_SLOT_MS),
                         DecisionFor(id, ActionOf(members, id, NAV_TDMA_FIXED_SLOT_MS, now)))
  {
    RemainingInSlot(Schedule(members, id, NAV_TDMA_FIXED_SLOT_MS), now);
    if SlotAt(members, NAV_TDMA_FIXED_SLOT_MS, now) < |members| {
      BeaconSlot(members, NAV_TDMA_FIXED_SLOT_MS, now);
    } else {
      RangingSlot(members, NAV_TDMA_FIXED_SLOT_MS, now);
    }
  }

  lemma DueDecision(rt: Runtime, now: uint32)
    requires Configured(rt) && Due(rt, now)
    ensures Decide(rt, now) == DecisionFor(rt.localNodeId, ActionAt(rt.schedule, AlignedNow(rt, now)))
  {
  }

  /** A node serves every due slot with the part it has in it; a slot that is not due it leaves alone. */
  lemma SlotIsServed(rt: Runtime, now: uint32)
    requires Configured(rt) && rt.localNodeId < NAV_MAX_NODES
    ensures Roster(rt.schedule.members)
    ensures if Due(rt, now) then
        PlaysItsPart(rt.localNodeId, rt.schedule.members,
                     SlotAt(rt.schedule.members, NAV_TDMA_FIXED_SLOT_MS, AlignedNow(rt, now)), OffsetNow(rt, now),
                     Decide(rt, now))
      else !Services(Decide(rt, now))
  {
    FieldRoster(rt);
    if Due(rt, now) {
      DueDecision(rt, now);
      ActionPlaysItsPart(rt.schedule.members, rt.localNodeId, AlignedNow(rt, now));
    }
  }

  /** A member due at the start of its own beacon slot sends its beacon. */
  lemma BeaconIsSent(rt: Runtime, now: uint32) returns (slot: nat)
    requires Configured(rt) && rt.localNodeId < NAV_MAX_NODES
    ensures Roster(rt.schedule.members) && slot < |rt.schedule.members| && rt.schedule.members[slot] == rt.localNodeId
    ensures Due(rt, now) && SlotAt(rt.schedule.members, NAV_TDMA_FIXED_SLOT_MS, AlignedNow(rt, now)) == slot
            && OffsetNow(rt, now) == 0 ==>
      Decide(rt, now).SendBeacon?
  {
    SlotIsServed(rt, now);
    FieldRoster(rt);
    slot := MemberOwnsOneSlot(rt.schedule.members, rt.localNodeId);
  }

  /** In the slot of a pair, its lower member due within 50 ms ranges the other, which answers whenever it is due. */
  lemma PairRanges(x: Runtime, y: Runtime, xNow: uint32, yNow: uint32) returns (slot: nat)
    requires Configured(x) && Configured(y) && x.localNodeId < y.localNodeId < NAV_MAX_NODES
    ensures Roster(FIELD_MEMBERS) && |FIELD_MEMBERS| <= slot < SlotsPerFrame(|FIELD_MEMBERS|)
    ensures Due(x, xNow) && SlotAt(FIELD_MEMBERS, NAV_TDMA_FIXED_SLOT_MS, AlignedNow(x, xNow)) == slot
            && OffsetNow(x, xNow) <= 50 ==>
      Decide(x, xNow).RangeAsMaster? && Decide(x, xNow).action.peerId == y.localNodeId
    ensures Due(y, yNow) && SlotAt(FIELD_MEMBERS, NAV_TDMA_FIXED_SLOT_MS, AlignedNow(y, yNow)) == slot ==>
      Decide(y, yNow).RangeAsSlave? && Decide(y, yNow).action.peerId == x.localNodeId
  {
    SlotIsServed(x, xNow);
    SlotIsServed(y, yNow);
    FieldRoster(x);
    FieldRoster(y);
    slot := PairOwnsOneSlot(FIELD_MEMBERS, x.localNodeId, y.localNodeId);
  }

  /** The answer to an exchange: during it the asked peer, if its slot is due, serves the master as slave. */
  lemma AskedPeerAnswers(master: Node, node: Node, authorityOffset: int, t: int, later: int)
    requires Follows(master, authorityOffset) && Follows(node, authorityOffset)
    requires -RANGING_START_GUARD_MS <= ErrorOf(node) - ErrorOf(master) <= 69
    requires StartsExchange(master, authorityOffset, t)
    requires During(master, node, authorityOffset, t, later)
    requires var mine := Decide(RuntimeOf(master), Wrap32(t + master.offset)).action;
      RuntimeOf(node).localNodeId == mine.peerId && Due(RuntimeOf(node), Wrap32(later + node.offset))
    ensures var mine, d := Decide(RuntimeOf(master), Wrap32(t + master.offset)).action,
                           Decide(RuntimeOf(node), Wrap32(later + node.offset));
      && d.RangeAsSlave? && d.action.fromId == RuntimeOf(master).localNodeId
      && d.action.slotIndex == mine.slotIndex && d.action.frameIndex == mine.frameIndex
  {
    ExchangeUndisturbed(master, node, authorityOffset, t, later);
    AskedAnswers(RuntimeOf(master), Wrap32(t + master.offset), RuntimeOf(node), Wrap32(later + node.offset));
  }

  lemma AskedAnswers(m: Runtime, decidedAt: uint32, n: Runtime, at: uint32)
    requires Configured(m) && Configured(n) && m.localNodeId < NAV_MAX_NODES && n.localNodeId < NAV_MAX_NODES
    requires Decide(m, decidedAt).RangeAsMaster? && Undisturbed(m, decidedAt, n, at)
    requires n.localNodeId == Decide(m, decidedAt).action.peerId && Due(n, at)
    ensures var mine, d := Decide(m, decidedAt).action, Decide(n, at);
      && d.RangeAsSlave? && d.action.fromId == m.localNodeId
      && d.action.slotIndex == mine.slotIndex && d.action.frameIndex == mine.frameIndex
  {
    DecisionFollowsAction(m, decidedAt);
    SlotIsServed(m, decidedAt);
    DueDecision(n, at);
    DecisionFollowsAction(n, at);
  }

  // ---- heartbeats -------------------------------------------------------

  /** A node on the field plan takes a heartbeat frame if and only if it is the authority's, for one of the ten slots of
      the plan, and sent within that slot. */
  lemma BeatTakenExactly(rt: Runtime, h: Heartbeat, seqNo: uint16)
    requires Configured(rt)
    ensures AcceptedHeartbeat(rt.schedule, HeartbeatFrame(h, seqNo)).Some?
      <==> h.nodeId == 0 && h.slotMs == 500 && h.slotIndex < 10 && h.slotElapsedMs < 500
  {
    HeartbeatRoundTrip(h, seqNo);
    TenSlots();
  }

  /** The authority's heartbeat says who sends it, its uptime, the slot it is for, and how far into it it was sent. */
  lemma HeartbeatSays(rt: Runtime, a: Action, txNow: uint32)
    requires rt.localNodeId == NAV_TDMA_AUTHORITY_ID && a.slotIndex < 0x100
    ensures var h := HeartbeatFor(rt, a, txNow);
      && h.nodeId == 0 && h.uptimeMs == txNow && h.statusFlags == 0 && h.frameIndex == a.frameIndex
      && h.slotIndex == a.slotIndex && h.slotMs == 500
      && (Wrap32(txNow - a.slotStartMs) < 500 ==> h.slotElapsedMs == Wrap32(txNow - a.slotStartMs))
      && (Wrap32(txNow - a.slotStartMs) >= 500 ==> h.slotElapsedMs == 499)
  {
  }

  /** The local time a slot starts at is the one whose aligned time is the slot's start. */
  lemma LocalStartIsAligned(rt: Runtime, a: Action)
    ensures AlignedNow(rt, LocalSlotStart(rt, a)) == a.slotStartMs
  {
    if rt.localNodeId != NAV_TDMA_AUTHORITY_ID {
      WrapAbsorbs(rt.epochLocalMs + a.slotStartMs, -(rt.epochLocalMs as int));
    }
  }
}
