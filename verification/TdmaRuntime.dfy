/** The TDMA runtime of a node: its clock alignment, the heartbeats that set it, and the slots it services. */
module TdmaRuntime {
  import opened Words
  import opened NavTypes
  import opened Tdma
  import opened RadioFrame
  import opened Telemetry

  const HEARTBEAT_RX_COMPENSATION_MS := 100
  const NO_SLOT: uint32 := 0xFFFF_FFFF

  /** A node's runtime as a value. */
  datatype Runtime = Runtime(
    schedule: Schedule,
    localNodeId: uint8,
    epochLocalMs: uint32,
    lastHeartbeatMs: uint32,
    lastSlot: uint32,
    txFrameSeq: uint16,
    synced: bool)

  const FIELD_MEMBERS: seq<uint8> := [0, 1, 2, 3]

  function FieldSchedule(nodeId: uint8): (t: Schedule)
    ensures Runnable(t)
  {
    Schedule(FIELD_MEMBERS, nodeId, NAV_TDMA_FIXED_SLOT_MS)
  }

  function ResetFor(nodeId: uint8): Runtime {
    Runtime(FieldSchedule(nodeId), nodeId, 0, 0, NO_SLOT, 0, nodeId == NAV_TDMA_AUTHORITY_ID)
  }

  /** The schedule a reset installs, which nothing else changes. */
  predicate Configured(rt: Runtime) {
    rt.schedule == FieldSchedule(rt.localNodeId)
  }

  predicate HasAuthorityTiming(rt: Runtime, now: uint32) {
    rt.localNodeId == NAV_TDMA_AUTHORITY_ID || (rt.synced && !AuthorityExpired(now, rt.lastHeartbeatMs))
  }

  function AlignedNow(rt: Runtime, now: uint32): uint32 {
    if rt.localNodeId == NAV_TDMA_AUTHORITY_ID then now else Wrap32(now - rt.epochLocalMs)
  }

  function LocalSlotStart(rt: Runtime, a: Action): uint32 {
    if rt.localNodeId == NAV_TDMA_AUTHORITY_ID then a.slotStartMs else Wrap32(rt.epochLocalMs + a.slotStartMs)
  }

  // ---- heartbeats -------------------------------------------------------

  /** The heartbeat sent at `txNow` for the slot of `a`. */
  function HeartbeatFor(rt: Runtime, a: Action, txNow: uint32): Heartbeat {
    var elapsed := Since(txNow, LocalSlotStart(rt, a));
    Heartbeat(rt.localNodeId, txNow, 0, a.frameIndex, a.slotIndex % 0x100, NAV_TDMA_FIXED_SLOT_MS,
              if elapsed < NAV_TDMA_FIXED_SLOT_MS then elapsed else NAV_TDMA_FIXED_SLOT_MS - 1)
  }

  function TimingOf(h: Heartbeat): TimingHeartbeat {
    TimingHeartbeat(h.nodeId, h.frameIndex, h.slotIndex, h.slotMs, h.slotElapsedMs)
  }

  /** The authority time a valid heartbeat stands for when it is received. */
  function AuthorityTime(t: Schedule, h: TimingHeartbeat): uint32 {
    var absolute := Wrap32(h.frameIndex * SlotsPerFrame(|t.members|) + h.slotIndex);
    Wrap32(absolute * h.slotMs + h.slotElapsedMs + HEARTBEAT_RX_COMPENSATION_MS)
  }

  /** The heartbeat a received frame carries, if this schedule accepts it. */
  function AcceptedHeartbeat(t: Schedule, f: Frame): Option<TimingHeartbeat> {
    match DecodeHeartbeat(f)
    case Failure(_) => None
    case Success(h) => if HeartbeatValid(t, TimingOf(h)) then Some(TimingOf(h)) else None
  }

  function OnHeartbeat(rt: Runtime, f: Frame, now: uint32): Runtime {
    if rt.localNodeId == NAV_TDMA_AUTHORITY_ID then rt
    else
      match AcceptedHeartbeat(rt.schedule, f)
      case None => rt
      case Some(h) =>
        rt.(epochLocalMs := Wrap32(now - AuthorityTime(rt.schedule, h)), lastHeartbeatMs := now, synced := true)
  }

  // ---- slot service -----------------------------------------------------

  /** What a node does with the slot it finds itself in. */
  datatype Decision =
    | Waiting
    | AlreadyServiced
    | Late(action: Action)
    | SendBeacon(action: Action)
    | RangeAsMaster(action: Action)
    | RangeAsSlave(action: Action)
    | ListenOnly(action: Action)

  /** A decision that starts radio work of the node's own. */
  predicate Starts(d: Decision) {
    d.SendBeacon? || d.RangeAsMaster? || d.RangeAsSlave?
  }

  /** A decision that takes the slot, whatever it does in it. */
  predicate Services(d: Decision) {
    !d.Waiting? && !d.AlreadyServiced?
  }

  function DecisionFor(nodeId: uint8, a: Action): Decision {
    if !CanStart(a) then Late(a)
    else
      match a.kind
      case TxBeacon => SendBeacon(a)
      case RangePeer => RangeAsMaster(a)
      case Listen => if a.toId == nodeId then RangeAsSlave(a) else ListenOnly(a)
  }

  function SlotNow(rt: Runtime, now: uint32): uint32
    requires Configured(rt)
  {
    AbsoluteSlot(rt.schedule, AlignedNow(rt, now))
  }

  function Decide(rt: Runtime, now: uint32): Decision
    requires Configured(rt)
  {
    if !HasAuthorityTiming(rt, now) then Waiting
    else if rt.lastSlot == SlotNow(rt, now) then AlreadyServiced
    else DecisionFor(rt.localNodeId, ActionAt(rt.schedule, AlignedNow(rt, now)))
  }

  function AfterService(rt: Runtime, now: uint32): Runtime
    requires Configured(rt)
  {
    if Services(Decide(rt, now)) then rt.(lastSlot := SlotNow(rt, now)) else rt
  }

  /** An action's slot numbers and start, spelled out. */
  lemma ActionParts(t: Schedule, now: uint32)
    requires Runnable(t) && t.members != []
    ensures var a, absolute := ActionAt(t, now), AbsoluteSlot(t, now);
      && a.slotIndex == Mod(absolute, SlotsPerFrame(|t.members|))
      && a.frameIndex == Div(absolute, SlotsPerFrame(|t.members|))
      && a.slotStartMs == absolute * t.slotMs
  {
    StartFits(now, t.slotMs);
  }

  /** The absolute slot is recovered from the action's frame and slot numbers. */
  lemma AbsoluteSlotOfAction(t: Schedule, now: uint32)
    requires Runnable(t) && t.members != []
    ensures var a := ActionAt(t, now);
      Wrap32(a.frameIndex * SlotsPerFrame(|t.members|) + a.slotIndex) == AbsoluteSlot(t, now)
  {
    ActionParts(t, now);
  }

  /** The runtime object the radio task keeps. */
  class RuntimeState {
    var schedule: Scheduler
    var localNodeId: uint8
    var epochLocalMs: uint32
    var lastHeartbeatMs: uint32
    var lastSlot: uint32
    var txFrameSeq: uint16
    var synced: bool

    ghost predicate Valid()
      reads this, schedule, schedule.members
    {
      schedule.Valid() && Configured(View())
    }

    ghost function View(): Runtime
      reads this, schedule, schedule.members
      requires schedule.Valid()
    {
      Runtime(schedule.View(), localNodeId, epochLocalMs, lastHeartbeatMs, lastSlot, txFrameSeq, synced)
    }

    constructor (nodeId: uint8)
      ensures Valid() && View() == ResetFor(nodeId)
      ensures fresh(schedule) && fresh(schedule.members)
    {
      schedule := new Scheduler(nodeId, NAV_TDMA_FIXED_SLOT_MS, NAV_MAX_NODES);
      new;
      Reset(nodeId);
    }

    method Reset(nodeId: uint8)
      modifies this
      ensures Valid() && View() == ResetFor(nodeId)
      ensures fresh(schedule) && fresh(schedule.members)
    {
      localNodeId := nodeId;
      var fixed := new Scheduler(nodeId, NAV_TDMA_FIXED_SLOT_MS, NAV_MAX_NODES);
      var _ := fixed.SetFixedFieldMembers();
      schedule := fixed;
      lastHeartbeatMs, txFrameSeq := 0, 0;
      lastSlot := NO_SLOT;
      synced := nodeId == NAV_TDMA_AUTHORITY_ID;
      epochLocalMs := 0;
    }

    /** Aligns a follower's clock with a valid authority heartbeat; anything else changes nothing. */
    method HandleHeartbeat(f: Frame, now: uint32)
      requires Valid()
      modifies this
      ensures Valid() && schedule == old(schedule)
      ensures View() == OnHeartbeat(old(View()), f, now)
    {
      if localNodeId == NAV_TDMA_AUTHORITY_ID {
        return;
      }
      var decoded := ReadHeartbeat(f);
      if decoded.Failure? {
        return;
      }
      var timing := TimingOf(decoded.value);
      var t := Schedule(schedule.members[..schedule.memberCount], schedule.localNodeId, schedule.slotMs);
      if !HeartbeatValid(t, timing) {
        return;
      }
      var slots := SlotsPerFrame(schedule.memberCount);
      var absolute := Wrap32(timing.frameIndex * slots + timing.slotIndex);
      var authorityTime := Wrap32(absolute * timing.slotMs + timing.slotElapsedMs + HEARTBEAT_RX_COMPENSATION_MS);
      epochLocalMs := Wrap32(now - authorityTime);
      lastHeartbeatMs := now;
      synced := true;
    }

    /** Decides the current slot once. */
    method ServiceSlot(now: uint32) returns (d: Decision)
      requires Valid()
      modifies this`lastSlot
      ensures Valid() && d == Decide(old(View()), now) && View() == AfterService(old(View()), now)
    {
      ghost var was := View();
      if localNodeId != NAV_TDMA_AUTHORITY_ID && (!synced || AuthorityExpired(now, lastHeartbeatMs)) {
        return Waiting;
      }
      var aligned := if localNodeId == NAV_TDMA_AUTHORITY_ID then now else Wrap32(now - epochLocalMs);
      var action := schedule.Act(aligned);
      AbsoluteSlotOfAction(was.schedule, aligned);
      var absolute := Wrap32(action.frameIndex * SlotsPerFrame(schedule.memberCount) + action.slotIndex);
      if lastSlot == absolute {
        return AlreadyServiced;
      }
      lastSlot := absolute;
      d := Choose(action);
    }

    /** What to do with a slot just taken. */
    method Choose(action: Action) returns (d: Decision)
      ensures d == DecisionFor(localNodeId, action)
    {
      var canStart := CanStart(action);
      if !canStart && !action.kind.Listen? {
        return Late(action);
      }
      match action.kind {
        case TxBeacon => d := SendBeacon(action);
        case RangePeer => d := RangeAsMaster(action);
        case Listen =>
          if action.toId == localNodeId {
            d := RangeAsSlave(action);
          } else {
            d := ListenOnly(action);
          }
      }
    }

    /** The timing broadcast for the slot being serviced. Only the authority makes one; any other node is refused and
        nothing changes. */
    method BroadcastHeartbeat(a: Action, txNow: uint32, out: array<uint8>) returns (ok: bool, length: nat)
      requires Valid() && out != schedule.members && out.Length == NAV_RADIO_MAX_FRAME_BYTES
      modifies this`txFrameSeq, out
      ensures Valid() && length <= out.Length
      ensures ok <==> localNodeId == NAV_TDMA_AUTHORITY_ID
      ensures !ok ==> View() == old(View()) && out[..] == old(out[..]) && length == 0
      ensures ok ==> View() == old(View()).(txFrameSeq := (old(txFrameSeq) + 1) % 0x1_0000)
      ensures ok ==> out[..length] == FrameBytes(HeartbeatFrame(HeartbeatFor(old(View()), a, txNow), txFrameSeq))
    {
      if localNodeId != NAV_TDMA_AUTHORITY_ID {
        return false, 0;
      }
      var elapsed := Since(txNow, a.slotStartMs);
      var h := Heartbeat(localNodeId, txNow, 0, a.frameIndex, a.slotIndex % 0x100, NAV_TDMA_FIXED_SLOT_MS,
                         if elapsed < NAV_TDMA_FIXED_SLOT_MS then elapsed else NAV_TDMA_FIXED_SLOT_MS - 1);
      txFrameSeq := (txFrameSeq + 1) % 0x1_0000;
      var status: Status;
      status, length := EncodeHeartbeat(h, txFrameSeq, out);
      ok := status.Ok?;
    }
  }
}
