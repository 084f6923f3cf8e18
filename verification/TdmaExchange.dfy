/** Ranging over a synchronised network: with the clocks heartbeats set, an exchange disturbs nobody and nobody it. */
module TdmaExchange {
  import opened Words
  import opened NavTypes
  import opened Tdma
  import opened RadioFrame
  import opened Telemetry
  import opened TdmaAgreement
  import opened TdmaTiming
  import opened TdmaRuntime
  import opened TdmaProtocol

  /** A node: what happened to it on its own uptime, how far that uptime is from true time, and how long the last
      heartbeat it took took to arrive. */
  datatype Node = Node(first: uint8, ops: seq<Op>, offset: int, delay: int)

  function RuntimeOf(n: Node): (rt: Runtime)
    ensures Configured(rt)
  {
    Run(n.first, n.ops)
  }

  /** The node's aligned clock at true time `t`. */
  function ShownAt(rt: Runtime, offset: int, t: int): uint32 {
    AlignedNow(rt, Wrap32(t + offset))
  }

  /** How far a synchronised node's aligned clock is ahead of the authority's. */
  function ErrorOf(n: Node): int {
    if RuntimeOf(n).localNodeId == NAV_TDMA_AUTHORITY_ID then 0 else HEARTBEAT_RX_COMPENSATION_MS - n.delay
  }

  function BeatFrame(authority: Runtime, decided: uint32, txNow: uint32, seqNo: uint16): Frame
    requires Configured(authority)
  {
    HeartbeatFrame(HeartbeatFor(authority, ActionAt(authority.schedule, decided), txNow), seqNo)
  }

  /** The node's aligned clock is the authority's plus its error, at every moment from now on. */
  ghost predicate Follows(n: Node, authorityOffset: int) {
    && RuntimeOf(n).localNodeId < NAV_MAX_NODES
    && forall t: int {:trigger ShownAt(RuntimeOf(n), n.offset, t)} ::
         ShownAt(RuntimeOf(n), n.offset, t) == Wrap32(t + authorityOffset + ErrorOf(n))
  }

  /** The authority sent this frame at this time of its clock, within the slot the frame announces. */
  ghost predicate AuthoritySent(f: Frame, txNow: uint32) {
    exists authority: Runtime, decided: uint32, seqNo: uint16 ::
      && authority.localNodeId == NAV_TDMA_AUTHORITY_ID && Configured(authority)
      && Since(txNow, ActionAt(authority.schedule, decided).slotStartMs) < NAV_TDMA_FIXED_SLOT_MS
      && f == BeatFrame(authority, decided, txNow, seqNo)
  }

  /** The true time at which the heartbeat the node took was sent. */
  function SentAt(n: Node, k: nat): int
    requires k < |n.ops|
  {
    n.ops[k].at - n.offset - n.delay
  }

  /** The node is the authority, or has taken a heartbeat of the authority's since it was last given its id. */
  ghost predicate Synchronised(n: Node, authorityOffset: int) {
    if RuntimeOf(n).localNodeId == NAV_TDMA_AUTHORITY_ID then n.offset == authorityOffset
    else
      var k := LastSync(n.ops);
      k.Some? && AuthoritySent(n.ops[k.value].frame, Wrap32(SentAt(n, k.value) + authorityOffset))
  }

  /** From its last validated heartbeat on, nothing moves a follower's clock. */
  lemma {:induction false} EpochHeld(first: uint8, ops: seq<Op>)
    requires Run(first, ops).localNodeId != NAV_TDMA_AUTHORITY_ID && LastSync(ops).Some?
    ensures var rt, taken := Run(first, ops), Run(first, ops[..LastSync(ops).value + 1]);
      rt.epochLocalMs == taken.epochLocalMs && rt.localNodeId == taken.localNodeId
  {
    var k, last := LastSync(ops).value, |ops| - 1;
    if k == last {
      assert ops[..k + 1] == ops;
    } else {
      EpochHeld(first, ops[..last]);
      assert ops[..last][..k + 1] == ops[..k + 1];
      if ops[last].FrameHeard? {
        BeatAccepted(Run(first, ops[..last]), ops[last].frame);
      }
    }
  }

  lemma TakenBeat(
    rt: Runtime, f: Frame, at: nat, sent: int, delay: int, t: int, authorityOffset: int, offset: int)
    requires Configured(rt) && rt.localNodeId != NAV_TDMA_AUTHORITY_ID
    requires AuthoritySent(f, Wrap32(sent + authorityOffset)) && at == sent + delay + offset
    ensures ShownAt(OnHeartbeat(rt, f, Wrap32(at)), offset, t)
         == Wrap32(t + authorityOffset + HEARTBEAT_RX_COMPENSATION_MS - delay)
  {
    var authority: Runtime, decided: uint32, seqNo: uint16 :|
      && authority.localNodeId == NAV_TDMA_AUTHORITY_ID && Configured(authority)
      && Since(Wrap32(sent + authorityOffset), ActionAt(authority.schedule, decided).slotStartMs)
         < NAV_TDMA_FIXED_SLOT_MS
      && f == BeatFrame(authority, decided, Wrap32(sent + authorityOffset), seqNo);
    BeatTaken(authority, decided, seqNo, rt, f, sent, delay, t, authorityOffset, offset);
  }

  lemma BeatTaken(
    authority: Runtime, decided: uint32, seqNo: uint16, rt: Runtime, f: Frame,
    sent: int, delay: int, t: int, authorityOffset: int, offset: int)
    requires Configured(rt) && rt.localNodeId != NAV_TDMA_AUTHORITY_ID
    requires authority.localNodeId == NAV_TDMA_AUTHORITY_ID && Configured(authority)
    requires Since(Wrap32(sent + authorityOffset), ActionAt(authority.schedule, decided).slotStartMs)
          < NAV_TDMA_FIXED_SLOT_MS
    requires f == BeatFrame(authority, decided, Wrap32(sent + authorityOffset), seqNo)
    ensures ShownAt(OnHeartbeat(rt, f, Wrap32(sent + delay + offset)), offset, t)
         == Wrap32(t + authorityOffset + HEARTBEAT_RX_COMPENSATION_MS - delay)
  {
    FollowerClockError(authority, rt, decided, seqNo, sent, delay, t, authorityOffset, offset);
    var a := ActionAt(authority.schedule, decided);
    HeartbeatArrives(HeartbeatFor(authority, a, Wrap32(sent + authorityOffset)), seqNo);
    WrapAbsorbs(t + authorityOffset, HEARTBEAT_RX_COMPENSATION_MS - delay);
  }

  /** A follower's state from its last validated heartbeat on, as far as its clock goes. */
  lemma ClockSinceBeat(n: Node, k: nat, t: int)
    requires RuntimeOf(n).localNodeId != NAV_TDMA_AUTHORITY_ID && LastSync(n.ops) == Some(k)
    ensures var before := Run(n.first, n.ops[..k]);
      && before.localNodeId != NAV_TDMA_AUTHORITY_ID
      && ShownAt(RuntimeOf(n), n.offset, t)
         == ShownAt(OnHeartbeat(before, n.ops[k].frame, Wrap32(n.ops[k].at)), n.offset, t)
  {
    EpochHeld(n.first, n.ops);
    assert n.ops[..k + 1][..k] == n.ops[..k];
    assert Run(n.first, n.ops[..k + 1]) == OnHeartbeat(Run(n.first, n.ops[..k]), n.ops[k].frame, Wrap32(n.ops[k].at));
  }

  /** Whatever has happened to it, a synchronised node's aligned clock is the authority's plus its error. */
  lemma SynchronisedClock(n: Node, authorityOffset: int, t: int)
    requires Synchronised(n, authorityOffset)
    ensures ShownAt(RuntimeOf(n), n.offset, t) == Wrap32(t + authorityOffset + ErrorOf(n))
  {
    if RuntimeOf(n).localNodeId != NAV_TDMA_AUTHORITY_ID {
      FollowerClock(n, LastSync(n.ops).value, authorityOffset, t);
    }
  }

  lemma FollowerClock(n: Node, k: nat, authorityOffset: int, t: int)
    requires RuntimeOf(n).localNodeId != NAV_TDMA_AUTHORITY_ID && LastSync(n.ops) == Some(k)
    requires AuthoritySent(n.ops[k].frame, Wrap32(SentAt(n, k) + authorityOffset))
    ensures ShownAt(RuntimeOf(n), n.offset, t) == Wrap32(t + authorityOffset + HEARTBEAT_RX_COMPENSATION_MS - n.delay)
  {
    ClockSinceBeat(n, k, t);
    TakenBeat(Run(n.first, n.ops[..k]), n.ops[k].frame, n.ops[k].at, SentAt(n, k), n.delay, t, authorityOffset,
              n.offset);
  }

  /** What a node decides follows its schedule at its aligned time. */
  lemma DecisionFollowsAction(rt: Runtime, now: uint32)
    requires Configured(rt)
    ensures var d, a := Decide(rt, now), ActionAt(rt.schedule, AlignedNow(rt, now));
      && (d.SendBeacon? ==> d.action == a && a.kind.TxBeacon?)
      && (d.RangeAsMaster? ==> d.action == a && a.kind.RangePeer? && CanStart(a))
      && (d.RangeAsSlave? ==> d.action == a && a.kind.Listen? && a.toId == rt.localNodeId)
  {
  }

  lemma FieldRoster(rt: Runtime)
    requires Configured(rt) && rt.localNodeId < NAV_MAX_NODES
    ensures Roster(rt.schedule.members) && rt.localNodeId in rt.schedule.members
    ensures rt.schedule == Schedule(rt.schedule.members, rt.localNodeId, NAV_TDMA_FIXED_SLOT_MS)
    ensures rt.schedule.members == FIELD_MEMBERS
  {
    assert rt.localNodeId == FIELD_MEMBERS[rt.localNodeId];
  }

  /** The two nodes' actions, the second one's clock being `skew` ahead of the first one's. */
  lemma ActionsDuringExchange(members: seq<uint8>, m: uint8, n: uint8, decided: uint32, skew: int, w: int,
                              mine: Action, theirs: Action)
    requires Roster(members) && m in members && n in members && 0 <= w + skew < TWO_32
    requires mine == ActionOf(members, m, NAV_TDMA_FIXED_SLOT_MS, decided) && mine.kind.RangePeer? && CanStart(mine)
    requires theirs == ActionOf(members, n, NAV_TDMA_FIXED_SLOT_MS, w + skew)
    requires InWindow(decided, w) && -RANGING_START_GUARD_MS <= skew <= 69
    ensures SameExchange(mine, theirs, m, n)
  {
    ExchangeIsPrivate(members, m, decided, n, skew, w);
  }

  /** Node `m` ranges its peer while `n` is in the same slot, listens unless it is `m`, and is asked exactly when it is
      that peer. */
  predicate SameExchange(mine: Action, theirs: Action, m: uint8, n: uint8) {
    && theirs.slotIndex == mine.slotIndex && theirs.frameIndex == mine.frameIndex
    && (n != m ==> theirs.kind.Listen?)
    && (theirs.toId == n <==> n == mine.peerId)
  }

  /** While `m` ranges its peer, `n` takes part in that exchange or stays out of it, and starts at most the answer. */
  predicate Undisturbed(m: Runtime, decidedAt: uint32, n: Runtime, at: uint32)
    requires Configured(m) && Configured(n)
  {
    var mine, theirs := ActionAt(m.schedule, AlignedNow(m, decidedAt)), ActionAt(n.schedule, AlignedNow(n, at));
    && SameExchange(mine, theirs, m.localNodeId, n.localNodeId)
    && (n.localNodeId != m.localNodeId ==>
          var d := Decide(n, at);
          !d.SendBeacon? && !d.RangeAsMaster? && (d.RangeAsSlave? ==> n.localNodeId == mine.peerId))
  }

  lemma UndisturbedAt(m: Runtime, decidedAt: uint32, n: Runtime, at: uint32, decided: uint32, skew: int, w: int)
    requires Configured(m) && Configured(n) && m.localNodeId < NAV_MAX_NODES && n.localNodeId < NAV_MAX_NODES
    requires Decide(m, decidedAt).RangeAsMaster? && 0 <= w + skew < TWO_32
    requires AlignedNow(m, decidedAt) == decided && AlignedNow(n, at) == w + skew
    requires InWindow(decided, w) && -RANGING_START_GUARD_MS <= skew <= 69
    ensures Undisturbed(m, decidedAt, n, at)
  {
    FieldRoster(m);
    FieldRoster(n);
    DecisionFollowsAction(m, decidedAt);
    DecisionFollowsAction(n, at);
    ActionsDuringExchange(m.schedule.members, m.localNodeId, n.localNodeId, decided, skew, w,
                          ActionAt(m.schedule, decided), ActionAt(n.schedule, w + skew));
  }

  lemma UndisturbedShown(
    m: Runtime, mOffset: int, n: Runtime, nOffset: int, t: int, later: int, decided: uint32, skew: int, w: int)
    requires Configured(m) && Configured(n) && m.localNodeId < NAV_MAX_NODES && n.localNodeId < NAV_MAX_NODES
    requires Decide(m, Wrap32(t + mOffset)).RangeAsMaster? && 0 <= w + skew < TWO_32
    requires ShownAt(m, mOffset, t) == decided && ShownAt(n, nOffset, later) == w + skew
    requires InWindow(decided, w) && -RANGING_START_GUARD_MS <= skew <= 69
    ensures Undisturbed(m, Wrap32(t + mOffset), n, Wrap32(later + nOffset))
  {
    UndisturbedAt(m, Wrap32(t + mOffset), n, Wrap32(later + nOffset), decided, skew, w);
  }

  /** At true time `t` the node decides to range its peer; its aligned clock has not wrapped. */
  predicate StartsExchange(master: Node, authorityOffset: int, t: int) {
    && 0 <= t + authorityOffset + ErrorOf(master) < TWO_32
    && Decide(RuntimeOf(master), Wrap32(t + master.offset)).RangeAsMaster?
  }

  /** True time `later` is in the window of the exchange decided at `t`; the node's aligned clock has not wrapped. */
  predicate During(master: Node, node: Node, authorityOffset: int, t: int, later: int)
    requires 0 <= t + authorityOffset + ErrorOf(master) < TWO_32
  {
    && 0 <= later + authorityOffset + ErrorOf(node) < TWO_32
    && InWindow(t + authorityOffset + ErrorOf(master), later + authorityOffset + ErrorOf(master))
  }

  lemma FollowsUnwrapped(n: Node, authorityOffset: int, t: int)
    requires Follows(n, authorityOffset) && 0 <= t + authorityOffset + ErrorOf(n) < TWO_32
    ensures ShownAt(RuntimeOf(n), n.offset, t) == t + authorityOffset + ErrorOf(n)
  {
  }

  /** All through an exchange its master started, a node whose error is within 180 ms below and 69 ms above the
      master's starts nothing of its own but the answer it was asked for. */
  lemma ExchangeUndisturbed(master: Node, node: Node, authorityOffset: int, t: int, later: int)
    requires Follows(master, authorityOffset) && Follows(node, authorityOffset)
    requires -RANGING_START_GUARD_MS <= ErrorOf(node) - ErrorOf(master) <= 69
    requires StartsExchange(master, authorityOffset, t)
    requires During(master, node, authorityOffset, t, later)
    ensures Undisturbed(RuntimeOf(master), Wrap32(t + master.offset), RuntimeOf(node), Wrap32(later + node.offset))
  {
    FollowsUnwrapped(master, authorityOffset, t);
    FollowsUnwrapped(node, authorityOffset, later);
    UndisturbedShown(RuntimeOf(master), master.offset, RuntimeOf(node), node.offset, t, later,
                     t + authorityOffset + ErrorOf(master), ErrorOf(node) - ErrorOf(master),
                     later + authorityOffset + ErrorOf(master));
  }

  /** The node is synchronised, and the heartbeat it last took arrived within 69 ms of the fastest. */
  ghost predicate PromptlySynchronised(n: Node, authorityOffset: int, leastDelay: int) {
    && Synchronised(n, authorityOffset) && RuntimeOf(n).localNodeId < NAV_MAX_NODES
    && (RuntimeOf(n).localNodeId != NAV_TDMA_AUTHORITY_ID ==> leastDelay <= n.delay <= leastDelay + 69)
  }

  ghost predicate PromptNetwork(network: seq<Node>, authorityOffset: int, leastDelay: int) {
    forall n {:trigger PromptlySynchronised(n, authorityOffset, leastDelay)} ::
      n in network ==> PromptlySynchronised(n, authorityOffset, leastDelay)
  }

  lemma PromptlyFollows(n: Node, authorityOffset: int, leastDelay: int)
    requires PromptlySynchronised(n, authorityOffset, leastDelay)
    ensures Follows(n, authorityOffset)
  {
    forall t ensures ShownAt(RuntimeOf(n), n.offset, t) == Wrap32(t + authorityOffset + ErrorOf(n)) {
      SynchronisedClock(n, authorityOffset, t);
    }
  }

  lemma NetworkFollows(network: seq<Node>, authorityOffset: int, leastDelay: int)
    requires PromptNetwork(network, authorityOffset, leastDelay) && 31 <= leastDelay <= 100
    ensures forall n <- network :: Follows(n, authorityOffset)
    ensures forall m <- network, n <- network :: -RANGING_START_GUARD_MS <= ErrorOf(n) - ErrorOf(m) <= 69
  {
    forall n <- network
      ensures Follows(n, authorityOffset)
      ensures ErrorOf(n) == 0 || 31 - leastDelay <= ErrorOf(n) <= 100 - leastDelay
    {
      assert PromptlySynchronised(n, authorityOffset, leastDelay);
      PromptlyFollows(n, authorityOffset, leastDelay);
    }
  }

  /** Heartbeats delivered within a band of 69 ms that starts between 31 and 100 ms keep every exchange private: all
      through it no other node of the network starts a beacon or an exchange, and only the asked peer answers. */
  lemma BoundedDelaysKeepExchangesPrivate(
    network: seq<Node>, m: nat, authorityOffset: int, leastDelay: int, t: int, later: int)
    requires PromptNetwork(network, authorityOffset, leastDelay) && 31 <= leastDelay <= 100
    requires m < |network| && StartsExchange(network[m], authorityOffset, t)
    requires forall n <- network :: During(network[m], n, authorityOffset, t, later)
    ensures forall n <- network ::
      Undisturbed(RuntimeOf(network[m]), Wrap32(t + network[m].offset), RuntimeOf(n), Wrap32(later + n.offset))
  {
    var master := network[m];
    NetworkFollows(network, authorityOffset, leastDelay);
    forall n <- network
      ensures Undisturbed(RuntimeOf(master), Wrap32(t + master.offset), RuntimeOf(n), Wrap32(later + n.offset))
    {
      assert master in network;
      ExchangeUndisturbed(master, n, authorityOffset, t, later);
    }
  }
}
