/** Streaming selection of the best anchors, for any number of nodes and any capacity. */
module AnchorSelection {
  import opened Words
  import opened NavTypes
  import opened Quality

  datatype Anchor = Anchor(
    nodeId: uint8, latE7: int32, lonE7: int32, altMm: int32, rangeMm: uint32, rangeSigmaMm: uint32, quality: real)

  /** The acceptance thresholds the selection reads from the configuration. */
  datatype Limits = Limits(
    localNodeId: uint8, telemetryTtlMs: uint32, rangeTtlMs: uint32, maxRangeSigmaMm: uint32, minAnchorQuality: real)

  datatype Selection = Selection(anchors: seq<Anchor>, rejectedIds: seq<uint8>, rejectedReasons: seq<RejectReason>)

  const EMPTY_SELECTION := Selection([], [], [])

  predicate PositionValid(p: Position) {
    -900000000 <= p.latE7 <= 900000000 && -1800000000 <= p.lonE7 <= 1800000000
  }

  predicate PeerPositionValid(p: Position) {
    PositionValid(p) && p != ZERO_POSITION
  }

  function ScoreOf(p: PeerState, now: uint32, limits: Limits): AnchorQuality {
    Score(p, now, limits.telemetryTtlMs, limits.rangeTtlMs, limits.maxRangeSigmaMm)
  }

  /** Why a peer cannot be an anchor now; `NotRejected` when it can. */
  function Gate(p: PeerState, now: uint32, limits: Limits): RejectReason {
    var quality := ScoreOf(p, now, limits);
    if !quality.reject.NotRejected? then quality.reject
    else if !p.rangePositionValid || !PeerPositionValid(p.rangePosition) then BadPosition
    else if quality.total < limits.minAnchorQuality then StaleTelemetry
    else NotRejected
  }

  /** The anchor a peer offers: the coordinate locked to its range, never a later one. */
  function AnchorOf(id: uint8, p: PeerState, now: uint32, limits: Limits): Anchor {
    Anchor(id, p.rangePosition.latE7, p.rangePosition.lonE7, p.rangePosition.altMm, p.rangeMm, p.rangeSigmaMm,
           ScoreOf(p, now, limits).total)
  }

  /** The first anchor of least quality. */
  function WorstIndex(anchors: seq<Anchor>): (w: nat)
    requires anchors != []
    ensures w < |anchors|
    ensures forall i :: 0 <= i < |anchors| ==> anchors[w].quality <= anchors[i].quality
    ensures forall i :: 0 <= i < w ==> anchors[w].quality < anchors[i].quality
  {
    if |anchors| == 1 then 0
    else
      var w := WorstIndex(anchors[..|anchors| - 1]);
      if anchors[|anchors| - 1].quality < anchors[w].quality then |anchors| - 1 else w
  }

  function Reject(sel: Selection, id: uint8, reason: RejectReason): Selection {
    sel.(rejectedIds := sel.rejectedIds + [id], rejectedReasons := sel.rejectedReasons + [reason])
  }

  function AddCandidate(sel: Selection, capacity: nat, anchor: Anchor): Selection
    requires capacity > 0
  {
    if |sel.anchors| < capacity then sel.(anchors := sel.anchors + [anchor])
    else
      var w := WorstIndex(sel.anchors);
      if anchor.quality > sel.anchors[w].quality
      then Reject(sel, sel.anchors[w].nodeId, NotRejected).(anchors := sel.anchors[w := anchor])
      else Reject(sel, anchor.nodeId, NotRejected)
  }

  /** What one node offers: its gate's verdict, and the anchor it would be. */
  datatype Candidate = Candidate(reason: RejectReason, anchor: Anchor)

  function Candidates(peers: seq<PeerState>, now: uint32, limits: Limits): (cands: seq<Candidate>)
    requires |peers| <= 0x100
    ensures |cands| == |peers|
    ensures forall i :: 0 <= i < |cands| ==> cands[i].anchor.nodeId == i
  {
    seq(|peers|, i requires 0 <= i < |peers| =>
      Candidate(Gate(peers[i], now, limits), AnchorOf(i, peers[i], now, limits)))
  }

  /** The selection after node `n` has been considered. */
  function Consider(sel: Selection, cands: seq<Candidate>, n: nat, capacity: nat, local: uint8): Selection
    requires n < |cands| <= 0x100 && capacity > 0
  {
    if n == local then sel
    else if cands[n].reason.NotRejected? then AddCandidate(sel, capacity, cands[n].anchor)
    else Reject(sel, n, cands[n].reason)
  }

  /** The selection after nodes `0..n` have been considered in order. */
  function Select(cands: seq<Candidate>, n: nat, capacity: nat, local: uint8): Selection
    requires n <= |cands| <= 0x100 && capacity > 0
  {
    if n == 0 then EMPTY_SELECTION else Consider(Select(cands, n - 1, capacity, local), cands, n - 1, capacity, local)
  }

  function Ids(anchors: seq<Anchor>): (ids: seq<uint8>)
    ensures |ids| == |anchors|
  {
    seq(|anchors|, i requires 0 <= i < |anchors| => anchors[i].nodeId)
  }

  /** The order-free meaning of a selection: the best gate-passing nodes are kept, everyone is accounted for. */
  ghost predicate IsTopSelection(sel: Selection, cands: seq<Candidate>, n: nat, capacity: nat, local: uint8)
    requires n <= |cands| <= 0x100
  {
    && |sel.anchors| <= capacity
    && |sel.rejectedIds| == |sel.rejectedReasons| <= n
    // kept anchors are gate-passing non-local nodes, described by their own slot
    && (forall a <- sel.anchors ::
          a.nodeId < n && a.nodeId != local
          && cands[a.nodeId].reason.NotRejected? && a == cands[a.nodeId].anchor)
    // each turned-down node carries its gate's verdict
    && (forall i :: 0 <= i < |sel.rejectedIds| ==>
          sel.rejectedIds[i] < n && sel.rejectedReasons[i] == cands[sel.rejectedIds[i]].reason)
    // a gate-passing node is dropped only from a full selection of anchors at least as good
    && (forall i :: 0 <= i < |sel.rejectedIds| && sel.rejectedReasons[i].NotRejected? ==>
          |sel.anchors| == capacity && NoneWorse(sel.anchors, cands[sel.rejectedIds[i]].anchor.quality))
    // kept and turned-down nodes together are the non-local nodes, each exactly once
    && Accounted(Ids(sel.anchors), sel.rejectedIds, n, local)
  }

  /** Every node below `n` but the local one is on exactly one of the two lists, once. */
  ghost predicate Accounted(kept: seq<uint8>, rejected: seq<uint8>, n: nat, local: uint8) {
    && Distinct(kept) && Distinct(rejected)
    && (forall id <- kept :: id !in rejected)
    && (forall id: uint8 :: id in kept || id in rejected <==> id < n && id != local)
  }

  ghost predicate NoneWorse(anchors: seq<Anchor>, quality: real) {
    forall a <- anchors :: a.quality >= quality
  }

  lemma DistinctChange(ids: seq<uint8>, w: nat, x: uint8)
    requires Distinct(ids) && x !in ids
    ensures Distinct(ids + [x])
    ensures w < |ids| ==> Distinct(ids[w := x])
    ensures w < |ids| ==> forall id :: id in ids[w := x] <==> id == x || (id in ids && id != ids[w])
  {
    forall id | w < |ids| && id in ids && id != ids[w]
      ensures id in ids[w := x]
    {
      var i :| 0 <= i < |ids| && ids[i] == id;
      assert ids[w := x][i] == id;
    }
    if w < |ids| {
      assert ids[w := x][w] == x;
    }
  }

  lemma AccountOneMore(kept: seq<uint8>, rejected: seq<uint8>, n: uint8, local: uint8)
    requires n != local && Accounted(kept, rejected, n, local)
    ensures Accounted(kept + [n], rejected, n + 1, local)
    ensures Accounted(kept, rejected + [n], n + 1, local)
  {
    DistinctChange(kept, |kept|, n);
    DistinctChange(rejected, |rejected|, n);
  }

  lemma AccountEvicted(kept: seq<uint8>, rejected: seq<uint8>, n: uint8, local: uint8, w: nat)
    requires n != local && w < |kept| && Accounted(kept, rejected, n, local)
    ensures Accounted(kept[w := n], rejected + [kept[w]], n + 1, local)
  {
    assert kept[w] in kept;
    DistinctChange(kept, w, n);
    DistinctChange(rejected, |rejected|, kept[w]);
  }

  lemma TopAfterReject(sel: Selection, cands: seq<Candidate>, n: nat, capacity: nat, local: uint8)
    requires n < |cands| <= 0x100 && n != local
    requires IsTopSelection(sel, cands, n, capacity, local)
    requires cands[n].reason.NotRejected?
      ==> |sel.anchors| == capacity && NoneWorse(sel.anchors, cands[n].anchor.quality)
    ensures IsTopSelection(Reject(sel, n, cands[n].reason), cands, n + 1, capacity, local)
  {
    AccountOneMore(Ids(sel.anchors), sel.rejectedIds, n, local);
  }

  lemma TopAfterAppend(sel: Selection, cands: seq<Candidate>, n: nat, capacity: nat, local: uint8)
    requires n < |cands| <= 0x100 && n != local && |sel.anchors| < capacity
    requires IsTopSelection(sel, cands, n, capacity, local)
    requires cands[n].reason.NotRejected? && cands[n].anchor.nodeId == n
    ensures IsTopSelection(sel.(anchors := sel.anchors + [cands[n].anchor]), cands, n + 1, capacity, local)
  {
    AccountOneMore(Ids(sel.anchors), sel.rejectedIds, n, local);
    assert Ids(sel.anchors + [cands[n].anchor]) == Ids(sel.anchors) + [n];
  }

  lemma TopAfterEviction(sel: Selection, cands: seq<Candidate>, n: nat, capacity: nat, local: uint8, w: nat)
    requires n < |cands| <= 0x100 && n != local && |sel.anchors| == capacity
    requires IsTopSelection(sel, cands, n, capacity, local)
    requires cands[n].reason.NotRejected? && cands[n].anchor.nodeId == n
    requires w < |sel.anchors| && NoneWorse(sel.anchors, sel.anchors[w].quality)
    requires cands[n].anchor.quality > sel.anchors[w].quality
    ensures IsTopSelection(
      Reject(sel, sel.anchors[w].nodeId, NotRejected).(anchors := sel.anchors[w := cands[n].anchor]),
      cands, n + 1, capacity, local)
  {
    var out := sel.anchors[w];
    assert out in sel.anchors;
    var kept := sel.anchors[w := cands[n].anchor];
    AccountEvicted(Ids(sel.anchors), sel.rejectedIds, n, local, w);
    assert Ids(kept) == Ids(sel.anchors)[w := n];
    assert forall b <- kept :: b == cands[n].anchor || b in sel.anchors;
    var r := Reject(sel, out.nodeId, NotRejected).(anchors := kept);
    forall i | 0 <= i < |r.rejectedIds| && r.rejectedReasons[i].NotRejected?
      ensures |kept| == capacity && NoneWorse(kept, cands[r.rejectedIds[i]].anchor.quality)
    {
      if i < |sel.rejectedIds| {
        assert NoneWorse(sel.anchors, cands[sel.rejectedIds[i]].anchor.quality);
      }
    }
  }

  lemma ConsiderKeepsTop(sel: Selection, cands: seq<Candidate>, n: nat, capacity: nat, local: uint8)
    requires n < |cands| <= 0x100 && capacity > 0 && cands[n].anchor.nodeId == n
    requires IsTopSelection(sel, cands, n, capacity, local)
    ensures IsTopSelection(Consider(sel, cands, n, capacity, local), cands, n + 1, capacity, local)
  {
    if n != local {
      if !cands[n].reason.NotRejected? {
        TopAfterReject(sel, cands, n, capacity, local);
      } else if |sel.anchors| < capacity {
        TopAfterAppend(sel, cands, n, capacity, local);
      } else {
        var w := WorstIndex(sel.anchors);
        if cands[n].anchor.quality > sel.anchors[w].quality {
          TopAfterEviction(sel, cands, n, capacity, local, w);
        } else {
          TopAfterReject(sel, cands, n, capacity, local);
        }
      }
    }
  }

  /** One streaming pass computes the best selection, whatever the node count and the capacity. */
  lemma {:induction false} SelectIsTop(cands: seq<Candidate>, n: nat, capacity: nat, local: uint8)
    requires n <= |cands| <= 0x100 && capacity > 0
    requires forall i :: 0 <= i < |cands| ==> cands[i].anchor.nodeId == i
    ensures IsTopSelection(Select(cands, n, capacity, local), cands, n, capacity, local)
  {
    if n > 0 {
      SelectIsTop(cands, n - 1, capacity, local);
      ConsiderKeepsTop(Select(cands, n - 1, capacity, local), cands, n - 1, capacity, local);
    }
  }

  /** The out-parameter of the selection: fixed arrays with running counts. */
  class Buffer {
    const anchors: array<Anchor>
    const rejectedIds: array<uint8>
    const rejectedReasons: array<RejectReason>
    var count: nat
    var rejectedCount: nat
    var rejectReason: RejectReason

    ghost predicate Valid()
      reads this
    {
      && count <= anchors.Length
      && rejectedCount <= rejectedIds.Length == rejectedReasons.Length
      && anchors.Length > 0
    }

    ghost function View(): Selection
      reads this, anchors, rejectedIds, rejectedReasons
      requires Valid()
    {
      Selection(anchors[..count], rejectedIds[..rejectedCount], rejectedReasons[..rejectedCount])
    }

    constructor (capacity: nat, n: nat)
      requires capacity > 0
      ensures Valid() && View() == EMPTY_SELECTION && rejectReason.NotRejected?
      ensures anchors.Length == capacity && rejectedIds.Length == n
      ensures fresh(anchors) && fresh(rejectedIds) && fresh(rejectedReasons)
    {
      anchors := new Anchor[capacity](_ => Anchor(0, 0, 0, 0, 0, 0, 0.0));
      rejectedIds := new uint8[n](_ => NAV_INVALID_NODE_ID);
      rejectedReasons := new RejectReason[n](_ => NotRejected);
      count, rejectedCount, rejectReason := 0, 0, NotRejected;
    }

    method AddRejection(id: uint8, reason: RejectReason)
      requires Valid()
      modifies this`rejectedCount, rejectedIds, rejectedReasons
      ensures Valid()
      ensures View() == if old(rejectedCount) < rejectedIds.Length then Reject(old(View()), id, reason) else old(View())
      ensures rejectedCount <= old(rejectedCount) + 1
    {
      if rejectedCount >= rejectedIds.Length {
        return;
      }
      rejectedIds[rejectedCount] := id;
      rejectedReasons[rejectedCount] := reason;
      rejectedCount := rejectedCount + 1;
    }

    method Add(anchor: Anchor)
      requires Valid() && rejectedCount < rejectedIds.Length
      modifies this`count, this`rejectedCount, anchors, rejectedIds, rejectedReasons
      ensures Valid() && View() == AddCandidate(old(View()), anchors.Length, anchor)
      ensures rejectedCount <= old(rejectedCount) + 1
    {
      if count < anchors.Length {
        anchors[count] := anchor;
        count := count + 1;
        return;
      }
      var worst := 0;
      for i := 1 to anchors.Length
        invariant worst == WorstIndex(anchors[..i])
      {
        assert anchors[..i + 1][..i] == anchors[..i];
        if anchors[i].quality < anchors[worst].quality {
          worst := i;
        }
      }
      assert anchors[..anchors.Length] == anchors[..count];
      if anchor.quality > anchors[worst].quality {
        AddRejection(anchors[worst].nodeId, NotRejected);
        anchors[worst] := anchor;
      } else {
        AddRejection(anchor.nodeId, NotRejected);
      }
    }

    /** One pass over the peer slots; the result is the best selection whatever the node count. */
    method SelectRadioAnchors(peers: array<PeerState>, now: uint32, limits: Limits) returns (status: Status)
      requires Valid() && View() == EMPTY_SELECTION && rejectReason.NotRejected?
      requires peers.Length == rejectedIds.Length <= 0x100
      modifies this, anchors, rejectedIds, rejectedReasons
      ensures Valid() && unchanged(peers)
      ensures View() == Select(Candidates(peers[..], now, limits), peers.Length, anchors.Length, limits.localNodeId)
      ensures IsTopSelection(View(), Candidates(peers[..], now, limits), peers.Length, anchors.Length, limits.localNodeId)
      ensures status == if count < anchors.Length then NotFound else Ok
      ensures rejectReason == if count < anchors.Length then NotEnoughAnchors else NotRejected
    {
      ghost var cands := Candidates(peers[..], now, limits);
      for id := 0 to peers.Length
        invariant Valid() && unchanged(peers) && rejectReason.NotRejected?
        invariant rejectedCount <= id
        invariant View() == Select(cands, id, anchors.Length, limits.localNodeId)
      {
        if id == limits.localNodeId {
          continue;
        }
        var peer := peers[id];
        var quality := ScoreOf(peer, now, limits);
        var reason := quality.reject;
        if reason.NotRejected? && (!peer.rangePositionValid || !PeerPositionValid(peer.rangePosition)) {
          reason := BadPosition;
        }
        if reason.NotRejected? && quality.total < limits.minAnchorQuality {
          reason := StaleTelemetry;
        }
        if !reason.NotRejected? {
          AddRejection(id, reason);
          continue;
        }
        Add(AnchorOf(id, peer, now, limits));
      }
      SelectIsTop(cands, peers.Length, anchors.Length, limits.localNodeId);
      if count < anchors.Length {
        rejectReason := NotEnoughAnchors;
        return NotFound;
      }
      status := Ok;
    }
  }
}
