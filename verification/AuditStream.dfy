/**
 Per-process audit subscriptions of kernel/audit.c: sixteen slots, each with a ring
 of 64 entries and free-running 32-bit head and tail counters.

 A slot is a value (the C struct); the array of slots is updated in place.  Life is
 bookkeeping for one subscription: everything broadcast to it, what was pushed into
 the ring, and what was read out.
 */
module AuditStream {
  import opened AuditLog
  import opened AuditQueue

  const RING_DEPTH := 64
  const SUB_MAX := 16
  const U32 := 0x1_0000_0000

  datatype Sub = Sub(inUse: bool, pid: int, filter: nat, dropped: nat, head: nat, tail: nat, ring: seq<Entry>)

  // ---------------------------------------------------------------------------
  // One slot
  // ---------------------------------------------------------------------------

  predicate WellFormed(s: Sub) { |s.ring| == RING_DEPTH && s.head < U32 && s.tail < U32 }

  // head - tail in 32-bit arithmetic
  function Available(s: Sub): nat { (s.head - s.tail) % U32 }

  // The ring's entries, oldest first, read through the wrapping counters.
  function Contents(s: Sub): seq<Entry>
    requires WellFormed(s)
  {
    seq(Available(s), i requires 0 <= i => s.ring[(s.tail + i) % U32 % RING_DEPTH])
  }

  lemma ContentsSize(s: Sub)
    requires WellFormed(s)
    ensures |Contents(s)| == Available(s)
  {
  }

  lemma ContentsAt(s: Sub, i: nat)
    requires WellFormed(s) && i < Available(s)
    ensures |Contents(s)| == Available(s) && Contents(s)[i] == s.ring[(s.tail + i) % U32 % RING_DEPTH]
  {
  }

  // Events past the mask's 64 bits reach every subscriber.
  predicate Passes(filter: nat, e: Entry) { e.eventType < 64 ==> HasBit(filter, e.eventType) }

  // audit_broadcast for one slot; locked says whether the bounded lock attempt succeeded.
  function Deliver(s: Sub, e: Entry, locked: bool): Sub
    requires WellFormed(s)
  {
    if !s.inUse || !Passes(s.filter, e) then s
    else if !locked then s.(dropped := s.dropped + 1)
    else
      var full := Available(s) >= RING_DEPTH;
      s.(dropped := s.dropped + (if full then 1 else 0),
         tail := if full then (s.tail + 1) % U32 else s.tail,
         ring := s.ring[s.head % RING_DEPTH := e],
         head := (s.head + 1) % U32)
  }

  function Take(s: Sub, max: nat): nat { if Available(s) < max then Available(s) else max }

  // The slot after audit_stream_read has copied Take(s, max) entries out.
  function AfterRead(s: Sub, max: nat): Sub { s.(tail := (s.tail + Take(s, max)) % U32) }

  function Subscribed(s: Sub, pid: int, filter: nat): Sub {
    s.(inUse := true, pid := pid, filter := filter, dropped := 0, head := 0, tail := 0)
  }

  function Unsubscribed(s: Sub): Sub { s.(inUse := false, pid := -1, filter := 0, head := 0, tail := 0) }

  // Unlike audit_unsubscribe, the per-process cleanup leaves the filter.
  function Reaped(s: Sub): Sub { s.(inUse := false, pid := -1, head := 0, tail := 0) }

  // ---------------------------------------------------------------------------
  // One subscription's life
  // ---------------------------------------------------------------------------

  // offered: broadcasts that passed the filter.  pushed: indices into offered of those that entered
  // the ring.  first: how many of the pushed ones have left it.  taken: the ones read, as indices
  // into pushed.
  datatype Life = Life(offered: seq<Entry>, pushed: seq<nat>, first: nat, taken: seq<nat>)

  function PushedEntry(l: Life, i: nat): Entry
    requires i < |l.pushed| && l.pushed[i] < |l.offered|
  {
    l.offered[l.pushed[i]]
  }

  // The ring is the stretch of the pushed entries from `first` on, at their own positions modulo 64.
  ghost predicate RingInv(s: Sub, l: Life) {
    && WellFormed(s)
    && l.first <= |l.pushed| <= l.first + RING_DEPTH
    && s.head == |l.pushed| % U32 && s.tail == l.first % U32
    && (forall i :: 0 <= i < |l.pushed| ==> l.pushed[i] < |l.offered|)
    && (forall i :: l.first <= i < |l.pushed| ==> s.ring[i % RING_DEPTH] == PushedEntry(l, i))
  }

  ghost predicate LifeInv(s: Sub, l: Life) {
    && RingInv(s, l)
    && Increasing(l.pushed) && Increasing(l.taken)
    && (forall k :: 0 <= k < |l.taken| ==> l.taken[k] < l.first)
    && |l.offered| == |l.taken| + s.dropped + (|l.pushed| - l.first)
  }

  function LifeDeliver(s: Sub, l: Life, e: Entry, locked: bool): Life
    requires WellFormed(s)
  {
    if !s.inUse || !Passes(s.filter, e) then l
    else if !locked then l.(offered := l.offered + [e])
    else l.(offered := l.offered + [e], pushed := l.pushed + [|l.offered|],
            first := if Available(s) >= RING_DEPTH then l.first + 1 else l.first)
  }

  function LifeRead(s: Sub, l: Life, max: nat): Life {
    l.(first := l.first + Take(s, max), taken := l.taken + seq(Take(s, max), i requires 0 <= i => l.first + i))
  }

  // ---------------------------------------------------------------------------
  // The wrapping counters
  // ---------------------------------------------------------------------------

  lemma WrappedDifference(a: nat, b: nat)
    requires b <= a < b + U32
    ensures (a % U32 - b % U32) % U32 == a - b
  {
  }

  lemma WrappedSum(a: nat, k: nat)
    ensures (a % U32 + k) % U32 == (a + k) % U32
  {
  }

  // 64 divides 2^32, so a wrapped counter still selects the slot of the unwrapped one.
  lemma WrappedSlot(b: nat, i: nat)
    ensures (b % U32 + i) % U32 % RING_DEPTH == (b + i) % RING_DEPTH
  {
    var q, r := b / 0x1_0000_0000, b % 0x1_0000_0000;
    var p, t := (r + i) / 0x1_0000_0000, (r + i) % 0x1_0000_0000;
    assert b + i == 64 * (0x400_0000 * (q + p)) + t;
  }

  lemma RingSlotsDiffer(i: nat, j: nat)
    requires i < j < i + RING_DEPTH
    ensures i % RING_DEPTH != j % RING_DEPTH
  {
    assert j % 64 == (i % 64 + (j - i)) % 64;
  }

  lemma RingAvailable(s: Sub, l: Life)
    requires RingInv(s, l)
    ensures Available(s) == |l.pushed| - l.first
  {
    WrappedDifference(|l.pushed|, l.first);
  }

  // Reading through the counters gives the most recently pushed entries, in order.
  lemma {:induction false} RingHoldsLatestPushed(s: Sub, l: Life)
    requires RingInv(s, l)
    ensures |Contents(s)| == |l.pushed| - l.first
    ensures forall i :: 0 <= i < |Contents(s)| ==> Contents(s)[i] == PushedEntry(l, l.first + i)
  {
    RingAvailable(s, l);
    forall i | 0 <= i < |Contents(s)| ensures Contents(s)[i] == PushedEntry(l, l.first + i) {
      WrappedSlot(l.first, i);
    }
  }

  // ---------------------------------------------------------------------------
  // Every operation keeps the account
  // ---------------------------------------------------------------------------

  lemma SubscribedInv(s: Sub, pid: int, filter: nat)
    requires WellFormed(s)
    ensures LifeInv(Subscribed(s, pid, filter), Life([], [], 0, []))
  {
  }

  lemma DeliverKeepsRing(s: Sub, l: Life, e: Entry)
    requires RingInv(s, l) && s.inUse && Passes(s.filter, e)
    ensures RingInv(Deliver(s, e, true), LifeDeliver(s, l, e, true))
  {
    hide Available, Passes;
    RingAvailable(s, l);
    var t, m := Deliver(s, e, true), LifeDeliver(s, l, e, true);
    WrappedSlot(|l.pushed|, 0);
    WrappedSum(|l.pushed|, 1);
    WrappedSum(l.first, 1);
    assert s.head % RING_DEPTH == |l.pushed| % RING_DEPTH;
    assert PushedEntry(m, |l.pushed|) == e;
    forall i | m.first <= i < |m.pushed| ensures t.ring[i % RING_DEPTH] == PushedEntry(m, i) {
      if i < |l.pushed| { RingSlotsDiffer(i, |l.pushed|); }
    }
  }

  lemma {:induction false} DeliverKeepsLife(s: Sub, l: Life, e: Entry, locked: bool)
    requires LifeInv(s, l)
    ensures LifeInv(Deliver(s, e, locked), LifeDeliver(s, l, e, locked))
  {
    RingAvailable(s, l);
    if s.inUse && Passes(s.filter, e) {
      if locked {
        DeliverKeepsRing(s, l, e);
        hide WellFormed;
      } else {
        assert forall i :: 0 <= i < |l.pushed| ==> (l.offered + [e])[l.pushed[i]] == l.offered[l.pushed[i]];
      }
    }
  }

  lemma {:induction false} ReadKeepsLife(s: Sub, l: Life, max: nat)
    requires LifeInv(s, l)
    ensures LifeInv(AfterRead(s, max), LifeRead(s, l, max))
    ensures Take(s, max) <= |Contents(s)| && forall i :: 0 <= i < Take(s, max) ==>
      l.first + i < |l.pushed| && Contents(s)[i] == PushedEntry(l, l.first + i)
  {
    RingHoldsLatestPushed(s, l);
    RingAvailable(s, l);
    hide Available, Contents;
    WrappedSum(l.first, Take(s, max));
  }

  // The ring is a drop-oldest queue of at most 64 entries.
  lemma {:induction false} DeliverIsDropOldest(s: Sub, l: Life, e: Entry)
    requires RingInv(s, l) && s.inUse && Passes(s.filter, e)
    ensures
      var q := Contents(s);
      && WellFormed(Deliver(s, e, true))
      && Contents(Deliver(s, e, true)) == (if |q| < RING_DEPTH then q else q[1..]) + [e]
  {
    DeliverKeepsRing(s, l, e);
    RingHoldsLatestPushed(s, l);
    RingHoldsLatestPushed(Deliver(s, e, true), LifeDeliver(s, l, e, true));
    RingAvailable(s, l);
  }

  lemma {:induction false} ReadIsTake(s: Sub, l: Life, max: nat)
    requires LifeInv(s, l)
    ensures WellFormed(AfterRead(s, max)) && Take(s, max) <= |Contents(s)|
    ensures Contents(AfterRead(s, max)) == Contents(s)[Take(s, max)..]
  {
    RingHoldsLatestPushed(s, l);
    ReadKeepsLife(s, l, max);
    RingHoldsLatestPushed(AfterRead(s, max), LifeRead(s, l, max));
  }

  // ---------------------------------------------------------------------------
  // A whole subscription
  // ---------------------------------------------------------------------------

  datatype SubStep = Offer(e: Entry, locked: bool) | Read(max: nat)

  // A slot together with its bookkeeping and everything its owner has received.
  datatype Session = Session(sub: Sub, life: Life, received: seq<Entry>)

  function StepSession(s: Session, a: SubStep): Session
    requires WellFormed(s.sub)
  {
    match a
    case Offer(e, locked) => s.(sub := Deliver(s.sub, e, locked), life := LifeDeliver(s.sub, s.life, e, locked))
    case Read(max) =>
      Session(AfterRead(s.sub, max), LifeRead(s.sub, s.life, max),
              s.received + if Take(s.sub, max) <= |Contents(s.sub)| then Contents(s.sub)[..Take(s.sub, max)] else [])
  }

  ghost predicate SessionInv(s: Session) {
    && LifeInv(s.sub, s.life)
    && |s.received| == |s.life.taken|
    && forall k :: 0 <= k < |s.received| ==> s.received[k] == PushedEntry(s.life, s.life.taken[k])
  }

  lemma OfferKeepsSession(s: Session, e: Entry, locked: bool)
    requires SessionInv(s)
    ensures SessionInv(StepSession(s, Offer(e, locked)))
  {
    hide Deliver, RingInv, Available;
    DeliverKeepsLife(s.sub, s.life, e, locked);
    OfferKeepsPushed(s.sub, s.life, e, locked);
  }

  // What was pushed before stays what it is.
  lemma OfferKeepsPushed(s: Sub, l: Life, e: Entry, locked: bool)
    requires LifeInv(s, l)
    ensures
      var m := LifeDeliver(s, l, e, locked);
      && m.taken == l.taken && |l.pushed| <= |m.pushed|
      && (forall k :: 0 <= k < |l.taken| ==> l.taken[k] < |l.pushed|)
      && forall i :: 0 <= i < |l.pushed| ==>
           && l.pushed[i] < |l.offered| <= |m.offered| && m.pushed[i] == l.pushed[i]
           && m.offered[m.pushed[i]] == l.offered[l.pushed[i]]
  {
    hide Available, Passes;
  }

  lemma ReadKeepsSession(s: Session, max: nat)
    requires SessionInv(s)
    ensures SessionInv(StepSession(s, Read(max)))
  {
    hide RingInv, Available, Contents;
    ReadKeepsLife(s.sub, s.life, max);
    ReadKeepsPushed(s.sub, s.life, max);
  }

  lemma ReadKeepsPushed(s: Sub, l: Life, max: nat)
    requires LifeInv(s, l)
    ensures
      var m := LifeRead(s, l, max);
      && m.pushed == l.pushed && m.offered == l.offered && |m.taken| == |l.taken| + Take(s, max)
      && (forall k :: 0 <= k < |m.taken| ==> m.taken[k] == if k < |l.taken| then l.taken[k] else l.first + (k - |l.taken|))
      && (forall i :: 0 <= i < |l.pushed| ==> l.pushed[i] < |l.offered|)
  {
    hide Available;
  }

  lemma {:induction false} StepKeepsSession(s: Session, a: SubStep)
    requires SessionInv(s)
    ensures SessionInv(StepSession(s, a))
  {
    hide SessionInv, StepSession;
    match a
    case Offer(e, locked) => OfferKeepsSession(s, e, locked);
    case Read(max) => ReadKeepsSession(s, max);
  }

  function RunSession(s: Session, steps: seq<SubStep>): (t: Session)
    requires SessionInv(s)
    ensures SessionInv(t)
    decreases |steps|
  {
    if steps == [] then s
    else
      var u := RunSession(s, steps[..|steps| - 1]);
      StepKeepsSession(u, steps[|steps| - 1]);
      StepSession(u, steps[|steps| - 1])
  }

  function NewSession(slot: Sub, pid: int, filter: nat): (s: Session)
    requires WellFormed(slot)
    ensures SessionInv(s)
  {
    SubscribedInv(slot, pid, filter);
    Session(Subscribed(slot, pid, filter), Life([], [], 0, []), [])
  }

  function Broadcasts(steps: seq<SubStep>, filter: nat): seq<Entry> {
    if steps == [] then []
    else
      var last := steps[|steps| - 1];
      Broadcasts(steps[..|steps| - 1], filter) + if last.Offer? && Passes(filter, last.e) then [last.e] else []
  }

  lemma {:induction false} OfferedAreTheBroadcasts(slot: Sub, pid: int, filter: nat, steps: seq<SubStep>)
    requires WellFormed(slot)
    ensures
      var t := RunSession(NewSession(slot, pid, filter), steps);
      t.sub.inUse && t.sub.filter == filter && t.life.offered == Broadcasts(steps, filter)
    decreases |steps|
  {
    if steps != [] {
      OfferedAreTheBroadcasts(slot, pid, filter, steps[..|steps| - 1]);
      hide SessionInv, Available, Contents, Passes;
    }
  }

  // Over a subscription's life every broadcast that passes the filter is read, counted as dropped or
  // still in the ring; reads come in broadcast order; and the ring holds the latest pushed entries.
  lemma {:induction false} SubscriptionAccount(slot: Sub, pid: int, filter: nat, steps: seq<SubStep>)
    requires WellFormed(slot)
    ensures
      var t := RunSession(NewSession(slot, pid, filter), steps);
      var l := t.life;
      var sent := Broadcasts(steps, filter);
      && |sent| == |t.received| + t.sub.dropped + Available(t.sub)
      && Available(t.sub) <= RING_DEPTH
      && Increasing(l.pushed) && Increasing(l.taken) && |l.taken| == |t.received|
      && (forall k :: 0 <= k < |t.received| ==>
            l.taken[k] < l.first <= |l.pushed| && l.pushed[l.taken[k]] < |sent| && t.received[k] == sent[l.pushed[l.taken[k]]])
      && (forall i :: 0 <= i < Available(t.sub) ==>
            && l.first + i < |l.pushed| && l.pushed[l.first + i] < |sent|
            && |Contents(t.sub)| == Available(t.sub) && Contents(t.sub)[i] == sent[l.pushed[l.first + i]])
      && l.first + Available(t.sub) == |l.pushed|
  {
    hide RunSession, NewSession, Broadcasts, Available, Contents, WellFormed;
    OfferedAreTheBroadcasts(slot, pid, filter, steps);
    var t := RunSession(NewSession(slot, pid, filter), steps);
    RingAvailable(t.sub, t.life);
    RingHoldsLatestPushed(t.sub, t.life);
  }

  // ---------------------------------------------------------------------------
  // The subscriber table
  // ---------------------------------------------------------------------------

  ghost predicate ValidTable(t: seq<Sub>) { |t| == SUB_MAX && forall i :: 0 <= i < SUB_MAX ==> WellFormed(t[i]) }

  // Every operation on the table.  A broadcast goes from slot to slot, and each is a step of its own;
  // locked says whether it gets the slot's lock in time.
  datatype TableStep =
    | Subscribe(pid: int, filter: nat)
    | Unsubscribe(slot: int)
    | Reap(pid: int)
    | Announce(e: Entry, slot: int, locked: bool)
    | ReadOut(slot: int, pid: int, max: nat)

  // The first free slot from i on, or the table's length.
  function FreeFrom(t: seq<Sub>, i: nat): (k: nat)
    requires i <= |t|
    ensures i <= k <= |t| && (k < |t| ==> !t[k].inUse) && forall j :: i <= j < k ==> t[j].inUse
    decreases |t| - i
  {
    if i == |t| || !t[i].inUse then i else FreeFrom(t, i + 1)
  }

  predicate OwnRead(t: seq<Sub>, slot: int, pid: int, max: nat) {
    0 <= slot < |t| && max > 0 && t[slot].inUse && t[slot].pid == pid
  }

  function StepTable(t: seq<Sub>, a: TableStep): (u: seq<Sub>)
    requires ValidTable(t)
    ensures ValidTable(u)
  {
    match a
    case Subscribe(pid, filter) =>
      var k := FreeFrom(t, 0);
      if k == |t| then t else t[k := Subscribed(t[k], pid, filter)]
    case Unsubscribe(slot) => if 0 <= slot < |t| && t[slot].inUse then t[slot := Unsubscribed(t[slot])] else t
    case Reap(pid) => seq(|t|, i requires 0 <= i < |t| => if pid > 0 && t[i].inUse && t[i].pid == pid then Reaped(t[i]) else t[i])
    case Announce(e, slot, locked) => if 0 <= slot < |t| then t[slot := Deliver(t[slot], e, locked)] else t
    case ReadOut(slot, pid, max) => if OwnRead(t, slot, pid, max) then t[slot := AfterRead(t[slot], max)] else t
  }

  lemma ReadOutIs(t: seq<Sub>, slot: int, pid: int, max: nat)
    requires ValidTable(t) && OwnRead(t, slot, pid, max)
    ensures StepTable(t, ReadOut(slot, pid, max)) == t[slot := AfterRead(t[slot], max)]
  {
  }

  // A broadcast that has passed the first n slots.
  function AnnounceTo(t: seq<Sub>, e: Entry, locked: seq<bool>, n: nat): (u: seq<Sub>)
    requires ValidTable(t) && n <= |locked|
    ensures ValidTable(u)
  {
    if n == 0 then t else StepTable(AnnounceTo(t, e, locked, n - 1), Announce(e, n - 1, locked[n - 1]))
  }

  lemma {:induction false} AnnounceReaches(t: seq<Sub>, e: Entry, locked: seq<bool>, n: nat, i: nat)
    requires ValidTable(t) && n <= |locked| && n <= SUB_MAX && i < SUB_MAX
    ensures AnnounceTo(t, e, locked, n)[i] == if i < n then Deliver(t[i], e, locked[i]) else t[i]
  {
    hide Deliver;
    if n > 0 { AnnounceReaches(t, e, locked, n - 1, i); }
  }

  class Subscribers {
    const slots: array<Sub>

    ghost predicate Valid()
      reads slots
    {
      slots.Length == SUB_MAX && forall i :: 0 <= i < SUB_MAX ==> WellFormed(slots[i])
    }

    constructor ()
      ensures Valid() && fresh(slots)
      ensures forall i :: 0 <= i < SUB_MAX ==> !slots[i].inUse
    {
      slots := new Sub[SUB_MAX](_ => Sub(false, 0, 0, 0, 0, 0, seq(RING_DEPTH, _ => Entry(0, 0, 0, ""))));
    }

    // The first free slot, or -1 and nothing changed when there is none.
    method Subscribe(pid: int, filter: nat) returns (slot: int)
      requires Valid()
      modifies slots
      ensures Valid()
      ensures slot == -1 <==> forall i :: 0 <= i < SUB_MAX ==> old(slots[i].inUse)
      ensures slot == -1 ==> slots[..] == old(slots[..])
      ensures slot != -1 ==>
        && 0 <= slot < SUB_MAX && !old(slots[slot].inUse)
        && (forall i :: 0 <= i < slot ==> old(slots[i].inUse))
        && slots[..] == old(slots[..])[slot := Subscribed(old(slots[slot]), pid, filter)]
      ensures ValidTable(old(slots[..])) && slots[..] == StepTable(old(slots[..]), TableStep.Subscribe(pid, filter))
    {
      slot := -1;
      var i := 0;
      while i < SUB_MAX && slot < 0
        invariant 0 <= i <= SUB_MAX && slot < i
        invariant slot == -1 ==> forall k :: 0 <= k < i ==> slots[k].inUse
        invariant slot != -1 ==> 0 <= slot && !slots[slot].inUse && forall k :: 0 <= k < slot ==> slots[k].inUse
      {
        if !slots[i].inUse { slot := i; }
        i := i + 1;
      }
      if slot < 0 { return; }
      slots[slot] := Subscribed(slots[slot], pid, filter);
    }

    method Unsubscribe(slot: int)
      requires Valid()
      modifies slots
      ensures Valid()
      ensures slots[..] ==
        if 0 <= slot < SUB_MAX && old(slots[slot].inUse) then old(slots[..])[slot := Unsubscribed(old(slots[slot]))]
        else old(slots[..])
      ensures ValidTable(old(slots[..])) && slots[..] == StepTable(old(slots[..]), TableStep.Unsubscribe(slot))
    {
      if slot < 0 || slot >= SUB_MAX { return; }
      if slots[slot].inUse { slots[slot] := Unsubscribed(slots[slot]); }
    }

    // Frees every slot of the process and touches no other.
    method UnsubscribeAllForPid(pid: int)
      requires Valid()
      modifies slots
      ensures Valid()
      ensures forall i :: 0 <= i < SUB_MAX ==>
        slots[i] == if pid > 0 && old(slots[i].inUse) && old(slots[i].pid) == pid then Reaped(old(slots[i])) else old(slots[i])
      ensures pid > 0 ==> forall i :: 0 <= i < SUB_MAX ==> !(slots[i].inUse && slots[i].pid == pid)
      ensures ValidTable(old(slots[..])) && slots[..] == StepTable(old(slots[..]), Reap(pid))
    {
      if pid <= 0 { return; }
      var i := 0;
      while i < SUB_MAX
        invariant 0 <= i <= SUB_MAX && Valid()
        invariant forall k :: 0 <= k < i ==>
          slots[k] == if old(slots[k].inUse) && old(slots[k].pid) == pid then Reaped(old(slots[k])) else old(slots[k])
        invariant forall k :: i <= k < SUB_MAX ==> slots[k] == old(slots[k])
      {
        if slots[i].inUse && slots[i].pid == pid { slots[i] := Reaped(slots[i]); }
        i := i + 1;
      }
    }

    // Every slot receives the entry by its own rule, independently of the others.
    method Broadcast(e: Entry, locked: seq<bool>)
      requires Valid() && |locked| == SUB_MAX
      modifies slots
      ensures Valid()
      ensures forall i :: 0 <= i < SUB_MAX ==> slots[i] == Deliver(old(slots[i]), e, locked[i])
      ensures ValidTable(old(slots[..])) && slots[..] == AnnounceTo(old(slots[..]), e, locked, SUB_MAX)
    {
      var i := 0;
      while i < SUB_MAX
        invariant 0 <= i <= SUB_MAX && Valid()
        invariant forall k :: 0 <= k < i ==> slots[k] == Deliver(old(slots[k]), e, locked[k])
        invariant forall k :: i <= k < SUB_MAX ==> slots[k] == old(slots[k])
      {
        var s := slots[i];
        i := i + 1;
        if !s.inUse || (e.eventType < 64 && !HasBit(s.filter, e.eventType)) { continue; }
        if !locked[i - 1] {
          slots[i - 1] := s.(dropped := s.dropped + 1);
          continue;
        }
        if (s.head - s.tail) % U32 >= RING_DEPTH {
          s := s.(dropped := s.dropped + 1, tail := (s.tail + 1) % U32);
        }
        s := s.(ring := s.ring[s.head % RING_DEPTH := e]);
        slots[i - 1] := s.(head := (s.head + 1) % U32);
      }
      ghost var was := old(slots[..]);
      forall k | 0 <= k < SUB_MAX ensures slots[k] == AnnounceTo(was, e, locked, SUB_MAX)[k] {
        AnnounceReaches(was, e, locked, SUB_MAX, k);
      }
    }

    // Copies out the oldest entries of the caller's own subscription; -1 for anything else.
    method StreamRead(slot: int, callerPid: int, out: array<Entry>, max: nat) returns (n: int)
      requires Valid() && out.Length >= max
      modifies slots, out
      ensures Valid()
      ensures n == -1 <==>
        !(0 <= slot < SUB_MAX && max > 0 && old(slots[slot].inUse) && old(slots[slot].pid) == callerPid)
      ensures n == -1 ==> slots[..] == old(slots[..]) && out[..] == old(out[..])
      ensures n != -1 ==>
        && n == Take(old(slots[slot]), max) <= out.Length
        && slots[..] == old(slots[..])[slot := AfterRead(old(slots[slot]), max)]
        && out[..n] == Contents(old(slots[slot]))[..n] && out[n..] == old(out[n..])
      ensures ValidTable(old(slots[..])) && slots[..] == StepTable(old(slots[..]), ReadOut(slot, callerPid, max))
    {
      if slot < 0 || slot >= SUB_MAX { return -1; }
      if max == 0 { return -1; }
      var s := slots[slot];
      if !s.inUse || s.pid != callerPid { return -1; }
      var avail := (s.head - s.tail) % U32;
      var take := if avail < max then avail else max;
      hide Contents, StepTable;
      ContentsSize(s);
      var i := 0;
      while i < take
        invariant 0 <= i <= take && slots[..] == old(slots[..])
        invariant forall k :: 0 <= k < i ==> out[k] == Contents(s)[k]
        invariant forall k :: i <= k < out.Length ==> out[k] == old(out[k])
      {
        ContentsAt(s, i);
        out[i] := s.ring[(s.tail + i) % U32 % RING_DEPTH];
        i := i + 1;
      }
      slots[slot] := s.(tail := (s.tail + take) % U32);
      n := take;
      ReadOutIs(old(slots[..]), slot, callerPid, max);
    }
  }
}
