/** All nodes compute one schedule: one talker per slot, one slot per pair. */
module TdmaAgreement {
  import opened Words
  import opened NavTypes
  import opened Tdma

  /** A usable membership: distinct ids in order, none of them the invalid one. */
  predicate Roster(members: seq<uint8>) {
    0 < |members| <= MAX_MEMBERS && Ascending(members) && Distinct(members) && NAV_INVALID_NODE_ID !in members
  }

  /** The action node `id` computes. */
  function ActionOf(members: seq<uint8>, id: uint8, slotMs: uint32, now: uint32): Action
    requires Roster(members) && slotMs > 0
  {
    ActionAt(Schedule(members, id, slotMs), now)
  }

  /** The slot within the frame at `now`. */
  function SlotAt(members: seq<uint8>, slotMs: uint32, now: nat): (slot: nat)
    requires Roster(members) && slotMs > 0
    ensures slot < SlotsPerFrame(|members|)
  {
    Mod(Div(now, slotMs), SlotsPerFrame(|members|))
  }

  /** Distinct ids, sorted however they were told, form one roster. */
  lemma SortedRoster(order: seq<uint8>)
    requires 0 < |order| <= MAX_MEMBERS && Distinct(order) && NAV_INVALID_NODE_ID !in order
    ensures Roster(Sort(order)) && multiset(Sort(order)) == multiset(order)
  {
    SortSorts(order);
    var members := Sort(order);
    CountedOnce(order);
    forall i, j | 0 <= i < j < |members| && members[i] == members[j]
      ensures false
    {
      CountedTwice(members, i, j);
    }
    assert NAV_INVALID_NODE_ID !in multiset(order);
    assert NAV_INVALID_NODE_ID in members ==> NAV_INVALID_NODE_ID in multiset(members);
  }

  lemma {:induction false} CountedOnce(s: seq<uint8>)
    requires Distinct(s)
    ensures forall x: uint8 :: multiset(s)[x] <= 1
  {
    if s != [] {
      var k := |s| - 1;
      CountedOnce(s[..k]);
      DropLast(s);
      assert s[k] !in multiset(s[..k]);
      assert multiset(s) == multiset(s[..k]) + multiset{s[k]} by { assert s == s[..k] + [s[k]]; }
    }
  }

  lemma CountedTwice(s: seq<uint8>, i: nat, j: nat)
    requires i < j < |s| && s[i] == s[j]
    ensures multiset(s)[s[i]] >= 2
  {
    assert s == s[..j] + [s[j]] + s[j + 1..];
    assert s[i] == s[..j][i];
    assert s[i] in multiset(s[..j]);
  }

  /** Whatever order each node was told the members in, any two nodes agree at any time on everything
      but their own part. */
  lemma NodesAgree(orderA: seq<uint8>, orderB: seq<uint8>, a: uint8, b: uint8, slotMs: uint32, now: uint32)
    requires multiset(orderA) == multiset(orderB) && |orderA| <= MAX_MEMBERS && slotMs > 0
    ensures |orderB| <= MAX_MEMBERS
    ensures ActionAt(Schedule(Sort(orderA), a, slotMs), now)
         == ActionAt(Schedule(Sort(orderB), b, slotMs), now).(
              kind := ActionAt(Schedule(Sort(orderA), a, slotMs), now).kind,
              peerId := ActionAt(Schedule(Sort(orderA), a, slotMs), now).peerId)
  {
    SortAgrees(orderA, orderB);
  }

  lemma AscendingDistinct(members: seq<uint8>, i: nat, j: nat)
    requires Ascending(members) && Distinct(members) && i < j < |members|
    ensures members[i] < members[j]
  {
    assert members[i] != members[j];
  }

  /** In a beacon slot exactly one node transmits, and nobody is addressed. */
  lemma BeaconSlot(members: seq<uint8>, slotMs: uint32, now: uint32)
    requires Roster(members) && slotMs > 0 && SlotAt(members, slotMs, now) < |members|
    ensures var sender := members[SlotAt(members, slotMs, now)];
      forall id: uint8 ::
        var a := ActionOf(members, id, slotMs, now);
        && a.kind == (if id == sender then TxBeacon else Listen)
        && a.fromId == sender && a.toId == NAV_INVALID_NODE_ID && a.peerId == NAV_INVALID_NODE_ID
  {
  }

  /** In a ranging slot exactly one node initiates, exactly one other is addressed, and they name each other. */
  lemma RangingSlot(members: seq<uint8>, slotMs: uint32, now: uint32)
    requires Roster(members) && slotMs > 0 && SlotAt(members, slotMs, now) >= |members|
    ensures var (lo, hi) := Endpoints(members, SlotAt(members, slotMs, now));
      && lo in members && hi in members && lo < hi
      && forall id <- members ::
           var a := ActionOf(members, id, slotMs, now);
           && a.kind == (if id == lo then RangePeer else Listen)
           && a.fromId == lo && a.toId == hi
           && a.peerId == (if id == lo then hi else if id == hi then lo else NAV_INVALID_NODE_ID)
  {
    var n := |members|;
    var k := SlotAt(members, slotMs, now) - n;
    PairsBijective(n);
    var p := Unrank(n, 0, k);
    AscendingDistinct(members, p.0, p.1);
    assert members[p.0] in members && members[p.1] in members;
  }

  /** Every node was told the same distinct ids, each in an order of its own. */
  ghost predicate ToldAlike(ids: seq<uint8>, orders: uint8 -> seq<uint8>) {
    && 0 < |ids| <= MAX_MEMBERS && Distinct(ids) && NAV_INVALID_NODE_ID !in ids
    && forall id <- ids :: multiset(orders(id)) == multiset(ids) && |orders(id)| <= MAX_MEMBERS
  }

  /** The action a node computes from the order it was told. */
  function OwnAction(order: seq<uint8>, id: uint8, slotMs: uint32, now: uint32): Action
    requires |order| <= MAX_MEMBERS && slotMs > 0
  {
    ActionAt(Schedule(Sort(order), id, slotMs), now)
  }

  lemma OwnActionsAgree(ids: seq<uint8>, orders: uint8 -> seq<uint8>, slotMs: uint32, now: uint32)
    requires ToldAlike(ids, orders) && slotMs > 0
    ensures Roster(Sort(ids)) && forall x :: x in Sort(ids) <==> x in ids
    ensures forall id <- ids :: OwnAction(orders(id), id, slotMs, now) == ActionOf(Sort(ids), id, slotMs, now)
  {
    SortedRoster(ids);
    SameMembers(ids);
    forall id <- ids
      ensures OwnAction(orders(id), id, slotMs, now) == ActionOf(Sort(ids), id, slotMs, now)
    {
      SortAgrees(orders(id), ids);
    }
  }

  /** The nodes put together, in a beacon slot: exactly one of them transmits, and nobody is addressed. */
  lemma OneTransmitter(ids: seq<uint8>, orders: uint8 -> seq<uint8>, slotMs: uint32, now: uint32)
    returns (sender: uint8)
    requires ToldAlike(ids, orders) && slotMs > 0 && Mod(Div(now, slotMs), SlotsPerFrame(|ids|)) < |ids|
    ensures sender in ids
    ensures forall id <- ids ::
      var a := OwnAction(orders(id), id, slotMs, now);
      && a.kind == (if id == sender then TxBeacon else Listen)
      && a.fromId == sender && a.toId == NAV_INVALID_NODE_ID && a.peerId == NAV_INVALID_NODE_ID
  {
    var members := Sort(ids);
    OwnActionsAgree(ids, orders, slotMs, now);
    BeaconSlot(members, slotMs, now);
    sender := members[SlotAt(members, slotMs, now)];
    assert sender in members;
  }

  /** And in a ranging slot: exactly one initiates, exactly one other is addressed, and the two name each other. */
  lemma OnePair(ids: seq<uint8>, orders: uint8 -> seq<uint8>, slotMs: uint32, now: uint32)
    returns (lo: uint8, hi: uint8)
    requires ToldAlike(ids, orders) && slotMs > 0 && Mod(Div(now, slotMs), SlotsPerFrame(|ids|)) >= |ids|
    ensures lo in ids && hi in ids && lo < hi
    ensures forall id <- ids ::
      var a := OwnAction(orders(id), id, slotMs, now);
      && a.kind == (if id == lo then RangePeer else Listen) && a.fromId == lo && a.toId == hi
      && a.peerId == (if id == lo then hi else if id == hi then lo else NAV_INVALID_NODE_ID)
  {
    var members := Sort(ids);
    OwnActionsAgree(ids, orders, slotMs, now);
    RangingSlot(members, slotMs, now);
    var ends := Endpoints(members, SlotAt(members, slotMs, now));
    lo, hi := ends.0, ends.1;
  }

  lemma SameMembers(ids: seq<uint8>)
    ensures forall x :: x in Sort(ids) <==> x in ids
  {
    SortSorts(ids);
    assert forall x :: x in ids <==> x in multiset(ids);
    assert forall x :: x in Sort(ids) <==> x in multiset(Sort(ids));
  }

  lemma SameEnds(members: seq<uint8>, k: nat, i: nat, j: nat)
    requires Roster(members) && k < PairCount(|members|) && i < j < |members|
    requires PairAt(members, k) == (members[i], members[j])
    ensures k == Rank(|members|, i, j)
  {
    PairsBijective(|members|);
    var p := Unrank(|members|, 0, k);
    assert members[p.0] == members[i] && members[p.1] == members[j];
    assert p.0 == i && p.1 == j;
  }

  lemma PairSlot(members: seq<uint8>, i: nat, j: nat)
    requires Roster(members) && i < j < |members|
    ensures Rank(|members|, i, j) < PairCount(|members|)
    ensures Endpoints(members, |members| + Rank(|members|, i, j)) == (members[i], members[j])
  {
    PairsBijective(|members|);
    assert Unrank(|members|, 0, Rank(|members|, i, j)) == (i, j);
  }

  /** Every unordered pair of members owns exactly one of the ranging slots of a frame. */
  lemma PairOwnsOneSlot(members: seq<uint8>, x: uint8, y: uint8) returns (slot: nat)
    requires Roster(members) && x in members && y in members && x < y
    ensures |members| <= slot < SlotsPerFrame(|members|) && Endpoints(members, slot) == (x, y)
    ensures forall s :: |members| <= s < SlotsPerFrame(|members|) && Endpoints(members, s) == (x, y) ==> s == slot
  {
    var n := |members|;
    var i :| 0 <= i < n && members[i] == x;
    var j :| 0 <= j < n && members[j] == y;
    assert i < j;
    PairSlot(members, i, j);
    slot := n + Rank(n, i, j);
    forall s | n <= s < SlotsPerFrame(n) && Endpoints(members, s) == (x, y)
      ensures s == slot
    {
      SameEnds(members, s - n, i, j);
    }
  }

  /** Every member owns exactly one beacon slot of a frame. */
  lemma MemberOwnsOneSlot(members: seq<uint8>, x: uint8) returns (slot: nat)
    requires Roster(members) && x in members
    ensures slot < |members| && Endpoints(members, slot).0 == x
    ensures forall s :: 0 <= s < |members| && Endpoints(members, s).0 == x ==> s == slot
  {
    slot :| 0 <= slot < |members| && members[slot] == x;
  }
}
