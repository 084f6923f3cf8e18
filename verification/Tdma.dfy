/** The single-hop TDMA scheduler: from the member list and the time alone, who does what in each slot. */
module Tdma {
  import opened Words
  import opened NavTypes

  const NAV_TDMA_AUTHORITY_ID: uint8 := 0
  const NAV_TDMA_FIXED_SLOT_MS: uint32 := 500
  const NAV_TDMA_AUTHORITY_TIMEOUT_MS: uint32 := 15000
  const NAV_TDMA_RANGE_MIN_REMAINING_MS: uint32 := 450
  const NAV_TDMA_BEACON_MIN_REMAINING_MS: uint32 := 100

  /** Node ids below the invalid one. */
  const MAX_MEMBERS := 0x100

  datatype ActionType = Listen | TxBeacon | RangePeer

  datatype Action = Action(
    kind: ActionType,
    peerId: uint8,
    fromId: uint8,
    toId: uint8,
    slotIndex: uint32,
    frameIndex: uint32,
    slotStartMs: uint32,
    slotEndMs: uint32,
    remainingMs: uint32)

  const IDLE := Action(Listen, NAV_INVALID_NODE_ID, NAV_INVALID_NODE_ID, NAV_INVALID_NODE_ID, 0, 0, 0, 0, 0)

  /** A configured scheduler as a value. */
  datatype Schedule = Schedule(members: seq<uint8>, localId: uint8, slotMs: uint32)

  predicate Runnable(t: Schedule) {
    t.slotMs > 0 && |t.members| <= MAX_MEMBERS
  }

  // ---- member order -----------------------------------------------------

  /** `x` put after the last element not above it. */
  function Insert(sorted: seq<uint8>, x: uint8): (r: seq<uint8>)
    ensures |r| == |sorted| + 1
  {
    if sorted == [] then [x]
    else
      var k := |sorted| - 1;
      if sorted[k] > x then Insert(sorted[..k], x) + [sorted[k]] else sorted + [x]
  }

  function Sort(ids: seq<uint8>): (r: seq<uint8>)
    ensures |r| == |ids|
  {
    if ids == [] then [] else Insert(Sort(ids[..|ids| - 1]), ids[|ids| - 1])
  }

  predicate Ascending(s: seq<uint8>) {
    forall i, j :: 0 <= i < j < |s| ==> s[i] <= s[j]
  }

  lemma {:induction false} InsertPlace(sorted: seq<uint8>, j: nat, x: uint8)
    requires j <= |sorted| && (j == 0 || sorted[j - 1] <= x)
    requires forall k :: j <= k < |sorted| ==> sorted[k] > x
    ensures Insert(sorted, x) == sorted[..j] + [x] + sorted[j..]
  {
    if j < |sorted| {
      InsertPlace(sorted[..|sorted| - 1], j, x);
    } else {
      assert sorted[..j] == sorted;
    }
  }

  /** Everything from `j` on is above the key and has been shifted up by one; what is before is in place. */
  predicate Shifting(base: seq<uint8>, shifted: seq<uint8>, j: nat, key: uint8) {
    && j <= |base| == |shifted| - 1
    && (forall k :: 0 <= k < j ==> shifted[k] == base[k])
    && forall k :: j <= k < |base| ==> base[k] == shifted[k + 1] && base[k] > key
  }

  lemma ShiftOne(base: seq<uint8>, shifted: seq<uint8>, j: nat, key: uint8)
    requires Shifting(base, shifted, j, key) && j > 0 && shifted[j - 1] > key
    ensures Shifting(base, shifted[j := shifted[j - 1]], j - 1, key)
  {
  }

  /** Dropping the key in where the shifting stopped is `Insert`. */
  lemma ShiftIsInsert(base: seq<uint8>, shifted: seq<uint8>, j: nat, key: uint8)
    requires Shifting(base, shifted, j, key) && (j == 0 || shifted[j - 1] <= key)
    ensures shifted[j := key] == Insert(base, key)
  {
    InsertPlace(base, j, key);
    assert shifted[j := key] == base[..j] + [key] + base[j..];
  }

  lemma {:induction false} InsertKeeps(sorted: seq<uint8>, x: uint8)
    ensures multiset(Insert(sorted, x)) == multiset(sorted) + multiset{x}
  {
    if sorted != [] && sorted[|sorted| - 1] > x {
      InsertKeeps(sorted[..|sorted| - 1], x);
      assert sorted == sorted[..|sorted| - 1] + [sorted[|sorted| - 1]];
    }
  }

  lemma {:induction false} InsertBounded(sorted: seq<uint8>, x: uint8, bound: uint8)
    requires x <= bound && forall i :: 0 <= i < |sorted| ==> sorted[i] <= bound
    ensures forall i :: 0 <= i < |Insert(sorted, x)| ==> Insert(sorted, x)[i] <= bound
  {
    if sorted != [] && sorted[|sorted| - 1] > x {
      InsertBounded(sorted[..|sorted| - 1], x, bound);
    }
  }

  lemma {:induction false} InsertAscends(sorted: seq<uint8>, x: uint8)
    requires Ascending(sorted)
    ensures Ascending(Insert(sorted, x))
  {
    if sorted != [] && sorted[|sorted| - 1] > x {
      var k := |sorted| - 1;
      InsertAscends(sorted[..k], x);
      InsertBounded(sorted[..k], x, sorted[k]);
    }
  }

  lemma {:induction false} SortSorts(ids: seq<uint8>)
    ensures Ascending(Sort(ids)) && multiset(Sort(ids)) == multiset(ids)
  {
    if ids != [] {
      var k := |ids| - 1;
      SortSorts(ids[..k]);
      InsertAscends(Sort(ids[..k]), ids[k]);
      InsertKeeps(Sort(ids[..k]), ids[k]);
      assert ids == ids[..k] + [ids[k]];
    }
  }

  lemma LastIsGreatest(s: seq<uint8>, x: uint8)
    requires s != [] && Ascending(s) && x in multiset(s)
    ensures x <= s[|s| - 1]
  {
  }

  lemma DropLast(s: seq<uint8>)
    requires s != []
    ensures multiset(s[..|s| - 1]) == multiset(s) - multiset{s[|s| - 1]}
  {
    assert s == s[..|s| - 1] + [s[|s| - 1]];
  }

  lemma SameSize(a: seq<uint8>, b: seq<uint8>)
    requires multiset(a) == multiset(b)
    ensures |a| == |b|
  {
    assert |multiset(a)| == |a| && |multiset(b)| == |b|;
  }

  lemma LastsAgree(a: seq<uint8>, b: seq<uint8>)
    requires a != [] && b != [] && Ascending(a) && Ascending(b) && multiset(a) == multiset(b)
    ensures a[|a| - 1] == b[|b| - 1]
  {
    assert a[|a| - 1] in multiset(a) && b[|b| - 1] in multiset(b);
    LastIsGreatest(b, a[|a| - 1]);
    LastIsGreatest(a, b[|b| - 1]);
  }

  lemma {:induction false} AscendingUnique(a: seq<uint8>, b: seq<uint8>)
    requires Ascending(a) && Ascending(b) && multiset(a) == multiset(b)
    ensures a == b
  {
    SameSize(a, b);
    if a != [] {
      var k := |a| - 1;
      LastsAgree(a, b);
      DropLast(a);
      DropLast(b);
      AscendingUnique(a[..k], b[..k]);
      assert a == a[..k] + [a[k]];
      assert b == b[..k] + [b[k]];
    }
  }

  lemma SortOfAscending(s: seq<uint8>)
    requires Ascending(s)
    ensures Sort(s) == s
  {
    SortSorts(s);
    AscendingUnique(Sort(s), s);
  }

  /** The order a node was told its members in does not matter. */
  lemma SortAgrees(a: seq<uint8>, b: seq<uint8>)
    requires multiset(a) == multiset(b)
    ensures Sort(a) == Sort(b)
  {
    SortSorts(a);
    SortSorts(b);
    AscendingUnique(Sort(a), Sort(b));
  }

  // ---- frame layout -----------------------------------------------------

  function PairCount(n: nat): nat {
    if n < 2 then 0 else n * (n - 1) / 2
  }

  function SlotsPerFrame(n: nat): (slots: nat)
    ensures n > 0 ==> slots >= n
  {
    if n == 0 then 0 else n + PairCount(n)
  }

  /** The first ordinal of row `i` in the upper triangle of the member matrix. */
  function RowStart(n: nat, i: nat): nat
    requires i <= n
  {
    if i == 0 then 0 else RowStart(n, i - 1) + (n - i)
  }

  /** The ordinal of the pair of the `i`-th and `j`-th members. */
  function Rank(n: nat, i: nat, j: nat): nat
    requires i < j < n
  {
    RowStart(n, i) + (j - i - 1)
  }

  /** The pair at ordinal `k`, counted from row `i` on; `(n, n)` past the last. */
  function Unrank(n: nat, i: nat, k: nat): (nat, nat)
    requires i <= n
    decreases n - i
  {
    if i == n then (n, n)
    else if k < n - 1 - i then (i, i + 1 + k)
    else Unrank(n, i + 1, k - (n - 1 - i))
  }

  lemma {:induction false} RowStartClosed(n: nat, i: nat)
    requires i <= n
    ensures 2 * RowStart(n, i) == i * (2 * n - i - 1)
  {
    if i > 0 {
      RowStartClosed(n, i - 1);
    }
  }

  lemma LastRowStart(n: nat)
    ensures RowStart(n, n) == PairCount(n)
  {
    RowStartClosed(n, n);
    assert n * (2 * n - n - 1) == n * (n - 1);
  }

  lemma {:induction false} UnrankRank(n: nat, from: nat, i: nat, j: nat)
    requires from <= i < j < n
    ensures RowStart(n, from) <= Rank(n, i, j) < RowStart(n, n)
    ensures Unrank(n, from, Rank(n, i, j) - RowStart(n, from)) == (i, j)
    decreases i - from
  {
    RowsAscend(n, from, i);
    RowsAscend(n, i + 1, n);
    if from < i {
      UnrankRank(n, from + 1, i, j);
    }
  }

  lemma {:induction false} RowsAscend(n: nat, i: nat, j: nat)
    requires i <= j <= n
    ensures RowStart(n, i) <= RowStart(n, j)
    decreases j - i
  {
    if i < j {
      RowsAscend(n, i, j - 1);
    }
  }

  lemma {:induction false} RankUnrank(n: nat, from: nat, k: nat)
    requires from <= n && RowStart(n, from) + k < RowStart(n, n)
    ensures var (i, j) := Unrank(n, from, k);
      from <= i < j < n && Rank(n, i, j) == RowStart(n, from) + k
    decreases n - from
  {
    if from < n && k >= n - 1 - from {
      RankUnrank(n, from + 1, k - (n - 1 - from));
    }
  }

  /** Ranging slots and unordered member pairs correspond one to one. */
  lemma PairsBijective(n: nat)
    ensures forall k :: 0 <= k < PairCount(n) ==>
      var p := Unrank(n, 0, k); p.0 < p.1 < n && Rank(n, p.0, p.1) == k
    ensures forall i, j :: 0 <= i < j < n ==> Rank(n, i, j) < PairCount(n) && Unrank(n, 0, Rank(n, i, j)) == (i, j)
  {
    LastRowStart(n);
    forall k | 0 <= k < PairCount(n)
      ensures var p := Unrank(n, 0, k); p.0 < p.1 < n && Rank(n, p.0, p.1) == k
    {
      RankUnrank(n, 0, k);
    }
    forall i, j | 0 <= i < j < n
      ensures Rank(n, i, j) < PairCount(n) && Unrank(n, 0, Rank(n, i, j)) == (i, j)
    {
      UnrankRank(n, 0, i, j);
    }
  }

  /** The (lower, higher) members of ranging slot `ordinal`. */
  function PairAt(members: seq<uint8>, ordinal: nat): (uint8, uint8) {
    var p := Unrank(|members|, 0, ordinal);
    if p.0 < |members| && p.1 < |members| then (members[p.0], members[p.1])
    else (NAV_INVALID_NODE_ID, NAV_INVALID_NODE_ID)
  }

  // ---- actions ----------------------------------------------------------

  function FrameDuration(t: Schedule): uint32
    requires Runnable(t)
  {
    var slots := SlotsPerFrame(|t.members|);
    if slots == 0 || slots > (TWO_32 - 1) / t.slotMs then 0 else Wrap32(slots * t.slotMs)
  }

  function AbsoluteSlot(t: Schedule, now: uint32): uint32
    requires Runnable(t)
  {
    Div(now, t.slotMs)
  }

  /** Who sends to whom in slot `slot` of a frame. */
  function Endpoints(members: seq<uint8>, slot: nat): (uint8, uint8) {
    if slot < |members| then (members[slot], NAV_INVALID_NODE_ID) else PairAt(members, slot - |members|)
  }

  function ActionAt(t: Schedule, now: uint32): Action
    requires Runnable(t)
  {
    var slots := SlotsPerFrame(|t.members|);
    if slots == 0 then IDLE
    else
      var absolute := AbsoluteSlot(t, now);
      var slot := Mod(absolute, slots);
      var start := Wrap32(absolute * t.slotMs);
      var end := Wrap32(start + t.slotMs);
      var ends := Endpoints(t.members, slot);
      var kind :=
        if t.localId != ends.0 then Listen else if slot < |t.members| then TxBeacon else RangePeer;
      var peer :=
        if slot < |t.members| then NAV_INVALID_NODE_ID
        else if t.localId == ends.0 then ends.1
        else if t.localId == ends.1 then ends.0
        else NAV_INVALID_NODE_ID;
      Action(kind, peer, ends.0, ends.1, slot, Div(absolute, slots), start, end, Wrap32(end - now))
  }

  lemma StartFits(now: uint32, slotMs: uint32)
    requires slotMs > 0
    ensures Wrap32(Div(now, slotMs) * slotMs) == Div(now, slotMs) * slotMs
  {
    var start := Div(now, slotMs) * slotMs;
    assert 0 <= start <= now;
  }

  /** The times an action shows, before any arithmetic. */
  lemma ActionTimes(t: Schedule, now: uint32)
    requires Runnable(t) && t.members != []
    ensures var a, start := ActionAt(t, now), Wrap32(AbsoluteSlot(t, now) * t.slotMs);
      a.slotStartMs == start && a.remainingMs == Wrap32(Wrap32(start + t.slotMs) - now)
  {
  }

  predicate CanStart(a: Action) {
    match a.kind
    case TxBeacon => a.remainingMs >= NAV_TDMA_BEACON_MIN_REMAINING_MS
    case RangePeer => a.remainingMs >= NAV_TDMA_RANGE_MIN_REMAINING_MS
    case Listen => true
  }

  predicate FixedPlanValid(t: Schedule) {
    && |t.members| == NAV_MAX_NODES && t.slotMs == NAV_TDMA_FIXED_SLOT_MS
    && forall i :: 0 <= i < NAV_MAX_NODES ==> t.members[i] == i
  }

  predicate AuthorityExpired(now: uint32, lastHeartbeatMs: uint32) {
    Since(now, lastHeartbeatMs) > NAV_TDMA_AUTHORITY_TIMEOUT_MS
  }

  datatype TimingHeartbeat = TimingHeartbeat(
    authorityId: uint8, frameIndex: uint32, slotIndex: uint32, slotMs: uint16, slotElapsedMs: uint16)

  predicate HeartbeatValid(t: Schedule, h: TimingHeartbeat) {
    && FixedPlanValid(t)
    && h.authorityId == NAV_TDMA_AUTHORITY_ID && h.slotMs == t.slotMs
    && h.slotIndex < SlotsPerFrame(|t.members|)
    && h.slotElapsedMs < h.slotMs
  }

  /** The scheduler object: a fixed member array, sorted in place when the membership is set. */
  class Scheduler {
    const members: array<uint8>
    const localNodeId: uint8
    const slotMs: uint32
    var memberCount: nat

    ghost predicate Valid()
      reads this
    {
      memberCount <= members.Length <= MAX_MEMBERS && slotMs > 0
    }

    ghost function View(): Schedule
      reads this, members
      requires Valid()
    {
      Schedule(members[..memberCount], localNodeId, slotMs)
    }

    constructor (localNodeId: uint8, slotMs: uint32, maxNodes: nat)
      requires maxNodes <= MAX_MEMBERS
      ensures Valid() && View() == Schedule([], localNodeId, if slotMs == 0 then 1 else slotMs)
      ensures members.Length == maxNodes && fresh(members)
    {
      members := new uint8[maxNodes](_ => 0);
      this.localNodeId := localNodeId;
      this.slotMs := if slotMs == 0 then 1 else slotMs;
      memberCount := 0;
    }

    /** Copies the ids and sorts them ascending in place; too many ids change nothing. */
    method SetMembers(ids: seq<uint8>) returns (status: Status)
      requires Valid()
      modifies this`memberCount, members
      ensures Valid()
      ensures status == if |ids| > members.Length then NoSpace else Ok
      ensures View() == if status.Ok? then old(View()).(members := Sort(ids)) else old(View())
    {
      if |ids| > members.Length {
        return NoSpace;
      }
      for i := 0 to |ids|
        invariant members[..i] == ids[..i]
      {
        members[i] := ids[i];
      }
      var i := 1;
      while i < |ids|
        invariant |ids| > 0 ==> 1 <= i <= |ids|
        invariant |ids| > 0 ==> members[..i] == Sort(ids[..i])
        invariant forall k :: i <= k < |ids| ==> members[k] == ids[k]
      {
        InsertKey(i, ids);
        i := i + 1;
      }
      assert ids[..|ids|] == ids;
      memberCount := |ids|;
      status := Ok;
    }

    /** One round of the insertion sort: shifts larger members up and drops the key in. */
    method InsertKey(i: nat, ghost ids: seq<uint8>)
      requires 1 <= i < |ids| <= members.Length && members[i] == ids[i]
      requires members[..i] == Sort(ids[..i])
      requires forall k :: i <= k < |ids| ==> members[k] == ids[k]
      modifies members
      ensures members[..i + 1] == Sort(ids[..i + 1])
      ensures forall k :: i + 1 <= k < |ids| ==> members[k] == ids[k]
    {
      ghost var base := members[..i];
      var key := members[i];
      var j := i;
      while j > 0 && members[j - 1] > key
        invariant 0 <= j <= i && Shifting(base, members[..i + 1], j, key)
        invariant forall k :: i + 1 <= k < |ids| ==> members[k] == ids[k]
      {
        ghost var shifted := members[..i + 1];
        ShiftOne(base, shifted, j, key);
        members[j] := members[j - 1];
        assert members[..i + 1] == shifted[j := shifted[j - 1]];
        j := j - 1;
      }
      ghost var shifted := members[..i + 1];
      members[j] := key;
      assert members[..i + 1] == shifted[j := key];
      ShiftIsInsert(base, shifted, j, key);
      assert ids[..i + 1][..i] == ids[..i];
    }

    method SetFixedFieldMembers() returns (status: Status)
      requires Valid()
      modifies this`memberCount, members
      ensures Valid()
      ensures status == if NAV_MAX_NODES > members.Length then NoSpace else Ok
      ensures View() == if status.Ok? then old(View()).(members := [0, 1, 2, 3]) else old(View())
    {
      SortOfAscending([0, 1, 2, 3]);
      status := SetMembers([0, 1, 2, 3]);
    }

    /** Walks the upper triangle of the member matrix row by row to the wanted pair. */
    method RangingPair(ordinal: nat) returns (lo: uint8, hi: uint8)
      requires Valid()
      ensures (lo, hi) == PairAt(View().members, ordinal)
    {
      var n := memberCount;
      var seen := 0;
      var i := 0;
      while i < n
        invariant 0 <= i <= n && seen == RowStart(n, i) <= ordinal
        invariant Unrank(n, 0, ordinal) == Unrank(n, i, ordinal - seen)
      {
        var j := i + 1;
        while j < n
          invariant i + 1 <= j <= n && seen == RowStart(n, i) + (j - i - 1) <= ordinal
        {
          if seen == ordinal {
            return members[i], members[j];
          }
          seen := seen + 1;
          j := j + 1;
        }
        i := i + 1;
      }
      return NAV_INVALID_NODE_ID, NAV_INVALID_NODE_ID;
    }

    /** The action for the slot active at `now`, filled in field by field. */
    method Act(now: uint32) returns (out: Action)
      requires Valid()
      ensures out == ActionAt(View(), now)
    {
      out := IDLE;
      var slots := SlotsPerFrame(memberCount);
      if slots == 0 {
        return;
      }
      var absolute := Div(now, slotMs);
      var slot := Mod(absolute, slots);
      var start := Wrap32(absolute * slotMs);
      var end := Wrap32(start + slotMs);
      out := out.(frameIndex := Div(absolute, slots), slotIndex := slot);
      out := out.(slotStartMs := start, slotEndMs := end, remainingMs := Wrap32(end - now));
      if slot < memberCount {
        out := out.(fromId := members[slot]);
        if members[slot] == localNodeId {
          out := out.(kind := TxBeacon, peerId := NAV_INVALID_NODE_ID);
        }
        return;
      }
      var lo, hi := RangingPair(slot - memberCount);
      out := out.(fromId := lo, toId := hi);
      if localNodeId == lo {
        out := out.(kind := RangePeer, peerId := hi);
      } else if localNodeId == hi {
        out := out.(peerId := lo);
      }
    }
  }
}
