/** The diagnostics a pass leaves on the peers: the quality of those kept, the reason for those turned down, the residuals
    of a fix. */
module PeerNotes {
  import opened Words
  import opened NavTypes
  import opened AnchorSelection
  import opened NavState

  /** Different anchors of present peers. */
  predicate Notable(peers: seq<PeerState>, anchors: seq<Anchor>) {
    && (forall i :: 0 <= i < |anchors| ==> anchors[i].nodeId < |peers| && peers[anchors[i].nodeId].present)
    && forall i, j :: 0 <= i < j < |anchors| ==> anchors[i].nodeId != anchors[j].nodeId
  }

  predicate Among(anchors: seq<Anchor>, id: int) {
    exists i :: 0 <= i < |anchors| && anchors[i].nodeId == id
  }

  lemma NotableBefore(peers: seq<PeerState>, anchors: seq<Anchor>)
    requires anchors != [] && Notable(peers, anchors)
    ensures var k := |anchors| - 1;
      Notable(peers, anchors[..k]) && !Among(anchors[..k], anchors[k].nodeId)
    ensures forall id :: Among(anchors[..|anchors| - 1], id) ==> Among(anchors, id)
  {
    var k := |anchors| - 1;
    assert Notable(peers, anchors[..k]);
  }

  /** Noting one more anchor changes its own slot and no other. */
  lemma AnchorNoted(peers: seq<PeerState>, anchors: seq<Anchor>)
    requires anchors != []
    ensures var k := |anchors| - 1;
      var before, a := NoteAnchors(peers, anchors[..k]), anchors[k];
      NoteAnchors(peers, anchors) == if a.nodeId < |peers| && before[a.nodeId].present
        then before[a.nodeId := before[a.nodeId].(anchorQuality := a.quality, lastReject := NotRejected)] else before
  {
  }

  lemma {:induction false} OthersUnnoted(peers: seq<PeerState>, anchors: seq<Anchor>, j: nat)
    requires j < |peers| && !Among(anchors, j)
    ensures NoteAnchors(peers, anchors)[j] == peers[j]
  {
    if anchors != [] {
      var k := |anchors| - 1;
      assert anchors[k].nodeId != j;
      assert !Among(anchors[..k], j);
      OthersUnnoted(peers, anchors[..k], j);
      AnchorNoted(peers, anchors);
    }
  }

  lemma {:induction false} AnchorNotedAt(peers: seq<PeerState>, anchors: seq<Anchor>, i: nat)
    requires Notable(peers, anchors) && i < |anchors|
    ensures var id := anchors[i].nodeId;
      NoteAnchors(peers, anchors)[id]
      == peers[id].(anchorQuality := anchors[i].quality, lastReject := NotRejected)
  {
    var k := |anchors| - 1;
    NotableBefore(peers, anchors);
    AnchorNoted(peers, anchors);
    if i == k {
      OthersUnnoted(peers, anchors[..k], anchors[k].nodeId);
    } else {
      AnchorNotedAt(peers, anchors[..k], i);
    }
  }

  lemma AnchorsNoted(peers: seq<PeerState>, anchors: seq<Anchor>)
    requires Notable(peers, anchors)
    ensures var r := NoteAnchors(peers, anchors);
      && (forall i :: 0 <= i < |anchors| ==>
            var id := anchors[i].nodeId;
            r[id] == peers[id].(anchorQuality := anchors[i].quality, lastReject := NotRejected))
      && forall j :: 0 <= j < |peers| && !Among(anchors, j) ==> r[j] == peers[j]
  {
    forall i | 0 <= i < |anchors|
      ensures var id := anchors[i].nodeId;
        NoteAnchors(peers, anchors)[id] == peers[id].(anchorQuality := anchors[i].quality, lastReject := NotRejected)
    {
      AnchorNotedAt(peers, anchors, i);
    }
    forall j | 0 <= j < |peers| && !Among(anchors, j)
      ensures NoteAnchors(peers, anchors)[j] == peers[j]
    {
      OthersUnnoted(peers, anchors, j);
    }
  }

  lemma ResidualNoted(peers: seq<PeerState>, anchors: seq<Anchor>, residuals: seq<real>)
    requires |anchors| == |residuals| && anchors != []
    ensures var k := |anchors| - 1;
      var before, id := NoteResiduals(peers, anchors[..k], residuals[..k]), anchors[k].nodeId;
      NoteResiduals(peers, anchors, residuals) == if id < |peers| && before[id].present
        then before[id := before[id].(lastResidualM := residuals[k])] else before
  {
  }

  lemma {:induction false} ResidualElsewhere(peers: seq<PeerState>, anchors: seq<Anchor>, residuals: seq<real>, j: nat)
    requires |anchors| == |residuals| && j < |peers| && !Among(anchors, j)
    ensures NoteResiduals(peers, anchors, residuals)[j] == peers[j]
  {
    if anchors != [] {
      var k := |anchors| - 1;
      assert anchors[k].nodeId != j;
      assert !Among(anchors[..k], j);
      ResidualElsewhere(peers, anchors[..k], residuals[..k], j);
      ResidualNoted(peers, anchors, residuals);
    }
  }

  lemma {:induction false} ResidualNotedAt(peers: seq<PeerState>, anchors: seq<Anchor>, residuals: seq<real>, i: nat)
    requires |anchors| == |residuals| && Notable(peers, anchors) && i < |anchors|
    ensures NoteResiduals(peers, anchors, residuals)[anchors[i].nodeId].lastResidualM == residuals[i]
  {
    var k := |anchors| - 1;
    NotableBefore(peers, anchors);
    ResidualNoted(peers, anchors, residuals);
    if i == k {
      ResidualElsewhere(peers, anchors[..k], residuals[..k], anchors[k].nodeId);
    } else {
      ResidualNotedAt(peers, anchors[..k], residuals[..k], i);
    }
  }

  lemma ResidualsNoted(peers: seq<PeerState>, anchors: seq<Anchor>, residuals: seq<real>)
    requires |anchors| == |residuals| && Notable(peers, anchors)
    ensures forall i :: 0 <= i < |anchors| ==>
      NoteResiduals(peers, anchors, residuals)[anchors[i].nodeId].lastResidualM == residuals[i]
  {
    forall i | 0 <= i < |anchors|
      ensures NoteResiduals(peers, anchors, residuals)[anchors[i].nodeId].lastResidualM == residuals[i]
    {
      ResidualNotedAt(peers, anchors, residuals, i);
    }
  }

  lemma {:induction false} RejectedNoted(peers: seq<PeerState>, ids: seq<uint8>, reasons: seq<RejectReason>)
    requires |ids| == |reasons| && (forall i :: 0 <= i < |ids| ==> ids[i] < |peers|)
    requires forall i, j :: 0 <= i < j < |ids| ==> ids[i] != ids[j]
    ensures var r := NoteRejected(peers, ids, reasons);
      && (forall i :: 0 <= i < |ids| ==>
            r[ids[i]] == if peers[ids[i]].present
                         then peers[ids[i]].(anchorQuality := 0.0, lastReject := reasons[i]) else peers[ids[i]])
      && forall j :: 0 <= j < |peers| && (forall i :: 0 <= i < |ids| ==> ids[i] != j) ==> r[j] == peers[j]
  {
    if ids != [] {
      var k := |ids| - 1;
      RejectedNoted(peers, ids[..k], reasons[..k]);
      assert forall i :: 0 <= i < k ==> ids[..k][i] == ids[i] && reasons[..k][i] == reasons[i];
    }
  }

  /** The peers' notes of a selection: kept peers carry their quality, turned-down ones their reason. */
  predicate NotesSelection(peers: seq<PeerState>, sel: Selection)
    requires SelectionFits(sel)
  {
    && (forall i :: 0 <= i < |sel.anchors| ==>
          var id := sel.anchors[i].nodeId;
          id < |peers| && peers[id].anchorQuality == sel.anchors[i].quality && peers[id].lastReject.NotRejected?)
    && (forall i :: 0 <= i < |sel.rejectedIds| && sel.rejectedIds[i] < |peers| && peers[sel.rejectedIds[i]].present ==>
          && peers[sel.rejectedIds[i]].anchorQuality == 0.0
          && peers[sel.rejectedIds[i]].lastReject == sel.rejectedReasons[i])
  }

  /** What a node that was not considered shows: nothing. */
  predicate Unnoted(p: PeerState) {
    p.present ==> p.anchorQuality == 0.0 && p.lastReject.NotRejected?
  }

  /** A selection's lists, as far as notes go. */
  predicate Listed(peers: seq<PeerState>, sel: Selection, local: uint8)
    requires SelectionFits(sel)
  {
    && Notable(peers, sel.anchors) && !Among(sel.anchors, local)
    && (forall i :: 0 <= i < |sel.rejectedIds| ==>
          sel.rejectedIds[i] < |peers| && sel.rejectedIds[i] != local && !Among(sel.anchors, sel.rejectedIds[i]))
    && forall i, j :: 0 <= i < j < |sel.rejectedIds| ==> sel.rejectedIds[i] != sel.rejectedIds[j]
  }

  lemma SelectionListed(s: Core, now: uint32)
    requires |s.peers| == NAV_MAX_NODES
    ensures Listed(s.peers, SelectionAt(s, now), s.config.localNodeId)
  {
    var sel := SelectionAt(s, now);
    var ids := Ids(sel.anchors);
    forall i | 0 <= i < |sel.anchors|
      ensures sel.anchors[i].nodeId < NAV_MAX_NODES && sel.anchors[i].nodeId != s.config.localNodeId
      ensures s.peers[sel.anchors[i].nodeId].present
    {
      assert sel.anchors[i] in sel.anchors;
      assert Gate(s.peers[sel.anchors[i].nodeId], now, LimitsOf(s.config)).NotRejected?;
    }
    forall i, j | 0 <= i < j < |sel.anchors|
      ensures sel.anchors[i].nodeId != sel.anchors[j].nodeId
    {
      assert ids[i] != ids[j];
    }
    forall i | 0 <= i < |sel.rejectedIds|
      ensures sel.rejectedIds[i] != s.config.localNodeId && !Among(sel.anchors, sel.rejectedIds[i])
    {
      var id := sel.rejectedIds[i];
      assert id in sel.rejectedIds;
      forall k | 0 <= k < |sel.anchors|
        ensures sel.anchors[k].nodeId != id
      {
        assert ids[k] == sel.anchors[k].nodeId && ids[k] in ids;
      }
    }
  }

  lemma ResetNotes(peers: seq<PeerState>)
    ensures var r := ResetDiagnostics(peers);
      forall j :: 0 <= j < |peers| ==> Unnoted(r[j]) && r[j].present == peers[j].present
  {
  }

  lemma SelectionNoted(peers: seq<PeerState>, sel: Selection, local: uint8)
    requires SelectionFits(sel) && Listed(peers, sel, local)
    ensures NotesSelection(NoteSelection(peers, sel), sel) && Listed(NoteSelection(peers, sel), sel, local)
    ensures local < |peers| ==> Unnoted(NoteSelection(peers, sel)[local])
  {
    var reset := ResetDiagnostics(peers);
    var kept := NoteAnchors(reset, sel.anchors);
    ResetNotes(peers);
    AnchorsNoted(reset, sel.anchors);
    RejectedNoted(kept, sel.rejectedIds, sel.rejectedReasons);
    forall i | 0 <= i < |sel.anchors|
      ensures NoteSelection(peers, sel)[sel.anchors[i].nodeId] == kept[sel.anchors[i].nodeId]
    {
      assert forall k :: 0 <= k < |sel.rejectedIds| ==> !Among(sel.anchors, sel.rejectedIds[k]);
    }
  }

  lemma {:induction false} ResidualsKeepNotes(peers: seq<PeerState>, anchors: seq<Anchor>, residuals: seq<real>)
    requires |anchors| == |residuals|
    ensures var r := NoteResiduals(peers, anchors, residuals);
      forall j :: 0 <= j < |peers| ==>
        && r[j].anchorQuality == peers[j].anchorQuality && r[j].lastReject == peers[j].lastReject
        && r[j].present == peers[j].present
  {
    if anchors != [] {
      ResidualsKeepNotes(peers, anchors[..|anchors| - 1], residuals[..|anchors| - 1]);
    }
  }

  /** A fix's residuals on the anchors it was made from. */
  predicate NotesResiduals(peers: seq<PeerState>, sel: Selection, residuals: seq<real>) {
    |sel.anchors| == |residuals| && forall i :: 0 <= i < |sel.anchors| ==>
      sel.anchors[i].nodeId < |peers| && peers[sel.anchors[i].nodeId].lastResidualM == residuals[i]
  }

  lemma RuledNotes(noted: Core, s: Core, now: uint32, sel: Selection, ruling: Ruling, local: uint8)
    requires SelectionFits(sel) && Listed(noted.peers, sel, local) && NotesSelection(noted.peers, sel)
    requires ruling.Solved? ==> ruling.fix.Fix? && |sel.anchors| == NAV_TRILAT_ANCHOR_COUNT
    requires local < |noted.peers| ==> Unnoted(noted.peers[local])
    ensures var r := Ruled(noted, s, now, sel, ruling).peers;
      && NotesSelection(r, sel) && (local < |r| ==> Unnoted(r[local]))
      && (ruling.Solved? ==> NotesResiduals(r, sel, ruling.fix.residualsM))
  {
    RuledPeers(noted, s, now, sel, ruling);
    if ruling.Solved? {
      ResidualsNoted(noted.peers, sel.anchors, ruling.fix.residualsM);
      ResidualsKeepNotes(noted.peers, sel.anchors, ruling.fix.residualsM);
    }
  }

  lemma RuledPeers(noted: Core, s: Core, now: uint32, sel: Selection, ruling: Ruling)
    requires SelectionFits(sel)
    requires ruling.Solved? ==> ruling.fix.Fix? && |sel.anchors| == NAV_TRILAT_ANCHOR_COUNT
    ensures Ruled(noted, s, now, sel, ruling).peers ==
      if ruling.Solved? then NoteResiduals(noted.peers, sel.anchors, ruling.fix.residualsM) else noted.peers
  {
  }

  /** Every pass through anchor selection leaves its notes on the peers: quality on those kept, the reason on those turned
      down, nothing on the local slot, and a fix's residuals on its anchors. */
  lemma PassLeavesNotes(num: Numerics, s: Core, now: uint32, allowSolve: bool)
    requires |s.peers| == NAV_MAX_NODES && Decide(num, s, now, allowSolve).Judged?
    ensures var r, v := Refresh(num, s, now, allowSolve).core.peers, Decide(num, s, now, allowSolve);
      && SelectionFits(v.sel) && NotesSelection(r, v.sel)
      && (s.config.localNodeId < |r| ==> Unnoted(r[s.config.localNodeId]))
      && (v.ruling.Solved? ==> num.solve(v.ruling.input).Fix? && NotesResiduals(r, v.sel, num.solve(v.ruling.input).residualsM))
  {
    var sel := SelectionAt(s, now);
    SelectionListed(s, now);
    SelectionNoted(s.peers, sel, s.config.localNodeId);
    RuleSolves(num, s, now, sel);
    RulingLeavesNotes(s, now, sel, Rule(num, s, now, sel));
  }

  lemma RuleSolves(num: Numerics, s: Core, now: uint32, sel: Selection)
    ensures var ruling := Rule(num, s, now, sel);
      ruling.Solved? ==> ruling.fix == num.solve(ruling.input) && |sel.anchors| >= NAV_TRILAT_ANCHOR_COUNT
  {
  }

  lemma RulingLeavesNotes(s: Core, now: uint32, sel: Selection, ruling: Ruling)
    requires SelectionFits(sel) && Listed(NoteSelection(s.peers, sel), sel, s.config.localNodeId)
    requires NotesSelection(NoteSelection(s.peers, sel), sel)
    requires s.config.localNodeId < |s.peers| ==> Unnoted(NoteSelection(s.peers, sel)[s.config.localNodeId])
    requires ruling.Solved? ==> ruling.fix.Fix? && |sel.anchors| == NAV_TRILAT_ANCHOR_COUNT
    ensures var r := Ruled(Noted(s, now, sel), s, now, sel, ruling).peers;
      && NotesSelection(r, sel) && (s.config.localNodeId < |r| ==> Unnoted(r[s.config.localNodeId]))
      && (ruling.Solved? ==> NotesResiduals(r, sel, ruling.fix.residualsM))
  {
    RuledNotes(Noted(s, now, sel), s, now, sel, ruling, s.config.localNodeId);
  }
}
