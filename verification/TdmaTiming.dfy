/** When slots come round, and how much clock skew the ranging window survives. */
module TdmaTiming {
  import opened Words
  import opened Tdma
  import opened TdmaAgreement

  const RANGING_START_GUARD_MS := 180
  const MASTER_TIMEOUT_MS := 250

  /** A slot ends one slot length after it starts, and always has between one millisecond and its whole length left, even
      where its end wraps the clock. */
  lemma RemainingInSlot(t: Schedule, now: uint32)
    requires Runnable(t) && t.members != []
    ensures var a := ActionAt(t, now);
      && a.remainingMs == t.slotMs - Mod(now, t.slotMs) && 1 <= a.remainingMs <= t.slotMs
      && a.slotStartMs == now - Mod(now, t.slotMs)
      && a.slotEndMs == Wrap32(a.slotStartMs + t.slotMs)
  {
    ActionTimes(t, now);
    StartFits(now, t.slotMs);
    TimeLeft(now, t.slotMs, Div(now, t.slotMs) * t.slotMs);
  }

  lemma TimeLeft(now: uint32, slotMs: uint32, start: nat)
    requires slotMs > 0 && start <= now < start + slotMs
    ensures Wrap32(Wrap32(start + slotMs) - now) == start + slotMs - now
  {
    WrappedDifference(start + slotMs, now);
  }

  function FrameMs(members: seq<uint8>, slotMs: uint32): nat {
    SlotsPerFrame(|members|) * slotMs
  }

  lemma ProductFits(slots: nat, slotMs: nat)
    requires slotMs > 0
    ensures slots > (TWO_32 - 1) / slotMs <==> slots * slotMs >= TWO_32
  {
    var limit := Div(TWO_32 - 1, slotMs);
    assert (limit + 1) * slotMs == limit * slotMs + slotMs;
    if slots * slotMs >= TWO_32 {
      LessByFactor(limit, slots, slotMs);
    } else {
      LessByFactor(slots, limit + 1, slotMs);
    }
  }

  /** The reported frame duration is the true one, or zero exactly when that does not fit 32 bits. */
  lemma FrameDurationFits(members: seq<uint8>, id: uint8, slotMs: uint32)
    requires Roster(members) && slotMs > 0
    ensures FrameDuration(Schedule(members, id, slotMs))
         == if FrameMs(members, slotMs) < TWO_32 then FrameMs(members, slotMs) else 0
  {
    ProductFits(SlotsPerFrame(|members|), slotMs);
  }

  /** A slot's place on the time line, counted in slots or in frames. */
  lemma Layout(f: nat, slots: nat, s: nat, slotMs: nat)
    requires s < slots
    ensures (f * slots + s) * slotMs == f * (slots * slotMs) + s * slotMs
    ensures s * slotMs + slotMs <= slots * slotMs
    ensures (f + 1) * (slots * slotMs) == f * (slots * slotMs) + slots * slotMs
  {
    assert (f * slots + s) * slotMs == f * slots * slotMs + s * slotMs;
    assert f * slots * slotMs == f * (slots * slotMs);
    assert (s + 1) * slotMs <= slots * slotMs;
  }

  /** The instants in [lo, hi) that fall in slot `slot`. */
  function CountIn(members: seq<uint8>, slotMs: uint32, lo: nat, hi: nat, slot: nat): nat
    requires Roster(members) && slotMs > 0
    decreases hi
  {
    if hi <= lo then 0
    else CountIn(members, slotMs, lo, hi - 1, slot) + if SlotAt(members, slotMs, hi - 1) == slot then 1 else 0
  }

  /** The slot at frame `f`, slot `s`, offset `r`. */
  lemma SlotOfParts(members: seq<uint8>, slotMs: uint32, f: nat, s: nat, r: nat)
    requires Roster(members) && slotMs > 0 && s < SlotsPerFrame(|members|) && r < slotMs
    ensures SlotAt(members, slotMs, f * FrameMs(members, slotMs) + s * slotMs + r) == s
    ensures Mod(f * FrameMs(members, slotMs) + s * slotMs + r, slotMs) == r
  {
    var slots := SlotsPerFrame(|members|);
    var u := f * FrameMs(members, slotMs) + s * slotMs + r;
    Layout(f, slots, s, slotMs);
    DivUnique(u, slotMs, f * slots + s, r);
    DivUnique(f * slots + s, slots, f, s);
  }

  /** Any time splits into frame, slot and offset. */
  lemma PartsOf(members: seq<uint8>, slotMs: uint32, u: nat) returns (f: nat, s: nat, r: nat)
    requires Roster(members) && slotMs > 0
    ensures s == SlotAt(members, slotMs, u) && s < SlotsPerFrame(|members|) && r == Mod(u, slotMs) < slotMs
    ensures u == f * FrameMs(members, slotMs) + s * slotMs + r
    ensures s * slotMs + r < FrameMs(members, slotMs)
  {
    var slots := SlotsPerFrame(|members|);
    var absolute := Div(u, slotMs);
    f, s, r := Div(absolute, slots), Mod(absolute, slots), Mod(u, slotMs);
    Layout(f, slots, s, slotMs);
  }

  /** The schedule repeats with the frame. */
  lemma FramePeriodic(members: seq<uint8>, slotMs: uint32, u: nat)
    requires Roster(members) && slotMs > 0
    ensures SlotAt(members, slotMs, u + FrameMs(members, slotMs)) == SlotAt(members, slotMs, u)
  {
    var f, s, r := PartsOf(members, slotMs, u);
    Layout(f, SlotsPerFrame(|members|), s, slotMs);
    SlotOfParts(members, slotMs, f + 1, s, r);
  }

  lemma {:induction false} CountFromZero(members: seq<uint8>, slotMs: uint32, u: nat, slot: nat)
    requires Roster(members) && slotMs > 0 && slot < SlotsPerFrame(|members|) && u <= FrameMs(members, slotMs)
    ensures CountIn(members, slotMs, 0, u, slot)
         == if u <= slot * slotMs then 0 else if u <= slot * slotMs + slotMs then u - slot * slotMs else slotMs
  {
    if u > 0 {
      CountFromZero(members, slotMs, u - 1, slot);
      InFirstFrame(members, slotMs, u - 1, slot);
    }
  }

  lemma InFirstFrame(members: seq<uint8>, slotMs: uint32, u: nat, slot: nat)
    requires Roster(members) && slotMs > 0 && slot < SlotsPerFrame(|members|) && u < FrameMs(members, slotMs)
    ensures SlotAt(members, slotMs, u) == slot <==> slot * slotMs <= u < slot * slotMs + slotMs
  {
    var slots := SlotsPerFrame(|members|);
    var absolute := Div(u, slotMs);
    LessByFactor(absolute, slots, slotMs);
    assert absolute == 0 * slots + absolute;
    DivUnique(absolute, slots, 0, absolute);
    if slot * slotMs <= u < slot * slotMs + slotMs {
      DivUnique(u, slotMs, slot, u - slot * slotMs);
    }
  }

  lemma {:induction false} CountDropsFirst(members: seq<uint8>, slotMs: uint32, lo: nat, hi: nat, slot: nat)
    requires Roster(members) && slotMs > 0 && lo < hi
    ensures CountIn(members, slotMs, lo, hi, slot)
         == CountIn(members, slotMs, lo + 1, hi, slot) + if SlotAt(members, slotMs, lo) == slot then 1 else 0
    decreases hi
  {
    if lo + 1 < hi {
      CountDropsFirst(members, slotMs, lo, hi - 1, slot);
    }
  }

  /** Every window as long as a frame, wherever it starts, holds exactly `slotMs` instants of every slot. */
  lemma {:induction false} WindowIsFair(members: seq<uint8>, slotMs: uint32, start: nat, slot: nat)
    requires Roster(members) && slotMs > 0 && slot < SlotsPerFrame(|members|)
    ensures CountIn(members, slotMs, start, start + FrameMs(members, slotMs), slot) == slotMs
  {
    var frame := FrameMs(members, slotMs);
    Layout(0, SlotsPerFrame(|members|), slot, slotMs);
    if start == 0 {
      CountFromZero(members, slotMs, frame, slot);
    } else {
      WindowIsFair(members, slotMs, start - 1, slot);
      CountDropsFirst(members, slotMs, start - 1, start - 1 + frame, slot);
      FramePeriodic(members, slotMs, start - 1);
    }
  }

  lemma SplitBy(u: nat, frame: nat) returns (f: nat, base: nat)
    requires frame > 0
    ensures base == f * frame && base <= u < base + frame && base + frame == (f + 1) * frame
  {
    f := Div(u, frame);
    base := f * frame;
    assert (f + 1) * frame == f * frame + frame;
  }

  lemma FramePositive(members: seq<uint8>, slotMs: uint32)
    requires Roster(members) && slotMs > 0
    ensures FrameMs(members, slotMs) > 0
  {
    assert SlotsPerFrame(|members|) * slotMs >= 1 * slotMs;
  }

  /** The frame an instant lies in. */
  lemma FrameOf(members: seq<uint8>, slotMs: uint32, u: nat) returns (f: nat, base: nat)
    requires Roster(members) && slotMs > 0
    ensures base == f * FrameMs(members, slotMs) && base <= u < base + FrameMs(members, slotMs)
    ensures base + FrameMs(members, slotMs) == (f + 1) * FrameMs(members, slotMs)
  {
    FramePositive(members, slotMs);
    f, base := SplitBy(u, FrameMs(members, slotMs));
  }

  /** Slot `slot` of the frame starting at `base` begins here. */
  lemma SlotStart(members: seq<uint8>, slotMs: uint32, f: nat, base: nat, slot: nat) returns (begin: nat)
    requires Roster(members) && slotMs > 0 && slot < SlotsPerFrame(|members|) && base == f * FrameMs(members, slotMs)
    ensures base <= begin < base + FrameMs(members, slotMs) && begin - base == slot * slotMs
    ensures SlotAt(members, slotMs, begin) == slot && Mod(begin, slotMs) == 0
  {
    Layout(f, SlotsPerFrame(|members|), slot, slotMs);
    SlotOfParts(members, slotMs, f, slot, 0);
    begin := base + slot * slotMs;
  }

  /** Every slot begins within one frame of any instant. */
  lemma NextStart(members: seq<uint8>, slotMs: uint32, start: nat, slot: nat) returns (begin: nat)
    requires Roster(members) && slotMs > 0 && slot < SlotsPerFrame(|members|)
    ensures start <= begin < start + FrameMs(members, slotMs)
    ensures SlotAt(members, slotMs, begin) == slot && Mod(begin, slotMs) == 0
  {
    var f, base := FrameOf(members, slotMs, start);
    begin := SlotStart(members, slotMs, f, base, slot);
    if begin < start {
      var first := begin;
      begin := SlotStart(members, slotMs, f + 1, base + FrameMs(members, slotMs), slot);
    }
  }

  /** On a clock that does not wrap, a member's next beacon slot begins within one frame. */
  lemma NextBeacon(members: seq<uint8>, id: uint8, slotMs: uint32, now: nat) returns (begin: uint32)
    requires Roster(members) && slotMs > 0 && id in members && now + FrameMs(members, slotMs) <= TWO_32
    ensures now <= begin < now + FrameMs(members, slotMs)
    ensures var a := ActionOf(members, id, slotMs, begin);
      a.kind.TxBeacon? && a.remainingMs == slotMs
  {
    var slot := MemberOwnsOneSlot(members, id);
    begin := NextStart(members, slotMs, now, slot);
    RemainingInSlot(Schedule(members, id, slotMs), begin);
  }

  /** And so does every pair's next ranging slot. */
  lemma NextRanging(members: seq<uint8>, x: uint8, y: uint8, slotMs: uint32, now: nat) returns (begin: uint32)
    requires Roster(members) && slotMs > 0 && x in members && y in members && x < y
    requires now + FrameMs(members, slotMs) <= TWO_32
    ensures now <= begin < now + FrameMs(members, slotMs)
    ensures var a, b := ActionOf(members, x, slotMs, begin), ActionOf(members, y, slotMs, begin);
      a.kind.RangePeer? && a.peerId == y && b.kind.Listen? && b.peerId == x && a.remainingMs == slotMs
  {
    var slot := PairOwnsOneSlot(members, x, y);
    begin := NextStart(members, slotMs, now, slot);
    RemainingInSlot(Schedule(members, x, slotMs), begin);
    RangingSlot(members, slotMs, begin);
  }

  /** The master decided in time to range; its exchange occupies this window of its own slot. */
  predicate InWindow(decided: uint32, w: int) {
    var start := decided - Mod(decided, NAV_TDMA_FIXED_SLOT_MS);
    start + RANGING_START_GUARD_MS <= w <= start + RANGING_START_GUARD_MS + MASTER_TIMEOUT_MS
  }

  /** A range that passes the start guard was decided in the first 50 ms of its slot, before its window. */
  lemma GuardLeavesRoom(members: seq<uint8>, id: uint8, decided: uint32)
    requires Roster(members)
    requires var a := ActionOf(members, id, NAV_TDMA_FIXED_SLOT_MS, decided); a.kind.RangePeer? && CanStart(a)
    ensures Mod(decided, NAV_TDMA_FIXED_SLOT_MS) <= 50
    ensures forall w :: InWindow(decided, w) ==> decided < w
  {
    RemainingInSlot(Schedule(members, id, NAV_TDMA_FIXED_SLOT_MS), decided);
  }

  /** The window stays inside one slot of a node whose clock is `skew` ahead of the master's exactly when the node
      is at most 180 ms behind and at most 69 ms ahead. */
  lemma SkewTolerance(decided: uint32, skew: int)
    requires forall w :: InWindow(decided, w) ==> 0 <= w + skew
    ensures (forall w :: InWindow(decided, w) ==>
               Div(w + skew, NAV_TDMA_FIXED_SLOT_MS) == Div(decided, NAV_TDMA_FIXED_SLOT_MS))
        <==> -RANGING_START_GUARD_MS <= skew <= NAV_TDMA_FIXED_SLOT_MS - RANGING_START_GUARD_MS - MASTER_TIMEOUT_MS - 1
  {
    var slot := Div(decided, NAV_TDMA_FIXED_SLOT_MS);
    var start := slot * NAV_TDMA_FIXED_SLOT_MS;
    var first, last := start + RANGING_START_GUARD_MS, start + RANGING_START_GUARD_MS + MASTER_TIMEOUT_MS;
    assert InWindow(decided, first) && InWindow(decided, last);
    SameSlot(first + skew, slot);
    SameSlot(last + skew, slot);
    forall w | InWindow(decided, w)
      ensures Div(w + skew, NAV_TDMA_FIXED_SLOT_MS) == slot
        <==> start <= w + skew < start + NAV_TDMA_FIXED_SLOT_MS
    {
      SameSlot(w + skew, slot);
    }
  }

  lemma SameSlot(u: nat, slot: nat)
    ensures Div(u, NAV_TDMA_FIXED_SLOT_MS) == slot
      <==> slot * NAV_TDMA_FIXED_SLOT_MS <= u < slot * NAV_TDMA_FIXED_SLOT_MS + NAV_TDMA_FIXED_SLOT_MS
  {
  }

  /** During the exchange, on every member whose clock is within that skew: the master is the only one scheduled to
      transmit, and only the addressed slave is scheduled to answer it. */
  lemma ExchangeIsPrivate(members: seq<uint8>, master: uint8, decided: uint32, node: uint8, skew: int, w: int)
    requires Roster(members) && master in members && node in members
    requires var a := ActionOf(members, master, NAV_TDMA_FIXED_SLOT_MS, decided); a.kind.RangePeer? && CanStart(a)
    requires InWindow(decided, w) && 0 <= w + skew < TWO_32
    requires -RANGING_START_GUARD_MS <= skew <= 69
    ensures var mine := ActionOf(members, master, NAV_TDMA_FIXED_SLOT_MS, decided);
      var theirs := ActionOf(members, node, NAV_TDMA_FIXED_SLOT_MS, w + skew);
      && theirs.slotIndex == mine.slotIndex && theirs.frameIndex == mine.frameIndex
      && (node != master ==> theirs.kind.Listen?)
      && (theirs.toId == node <==> node == mine.peerId)
  {
    var slot := Div(decided, NAV_TDMA_FIXED_SLOT_MS);
    SameSlot(w + skew, slot);
    RangingSlotOf(members, master, decided);
    RangingSlot(members, NAV_TDMA_FIXED_SLOT_MS, decided);
    RangingSlot(members, NAV_TDMA_FIXED_SLOT_MS, w + skew);
  }

  lemma RangingSlotOf(members: seq<uint8>, id: uint8, now: uint32)
    requires Roster(members) && ActionOf(members, id, NAV_TDMA_FIXED_SLOT_MS, now).kind.RangePeer?
    ensures SlotAt(members, NAV_TDMA_FIXED_SLOT_MS, now) >= |members|
  {
  }
}
