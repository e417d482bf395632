/**
 The kernel log ring (kernel/log.c) and its unlocked reader in the panic path
 (dump_klog_tail in kernel/panic.c).

 KlogMicro splits a write into its single stores, so that a panic may freeze the
 writer between any two of them.  Ring is the same ring in place, one whole write at a
 time, with the locked reader.
 */
module KlogMicro {
  const RING_ENTRIES := 16384
  const MSG_LEN := 224
  const GUARD_BIT := 0x80

  // One 256-byte record; the message area always has its full length.
  datatype Slot = Slot(ns: nat, sequence: nat, cpu: int, pid: int, level: nat, subsys: nat, message: seq<char>)

  // What a caller asked to log, with the message clamped and the level masked.
  datatype Record = Record(ns: nat, cpu: int, pid: int, level: nat, subsys: nat, msg: seq<char>)

  predicate GoodRecord(r: Record) { r.level < 16 && |r.msg| < MSG_LEN }

  predicate Guarded(level: nat) { level / GUARD_BIT % 2 == 1 }

  // Byte k of the message area: the text, its terminator, and zeros to the end.
  function MessageByte(r: Record, k: nat): char { if k < |r.msg| then r.msg[k] else '\0' }

  // The slot of a finished record with its sequence number.
  function Filled(r: Record, sequence: nat): Slot {
    Slot(r.ns, sequence, r.cpu, r.pid, r.level, r.subsys, seq(MSG_LEN, k requires 0 <= k => MessageByte(r, k)))
  }

  // The writer holding the lock has performed `done` stores for its record.
  datatype Writer = Idle | Busy(record: Record, done: nat)

  datatype State = State(slots: seq<Slot>, head: nat, nextSeq: nat, writer: Writer, history: seq<Record>)

  const FIRST_BYTE := 6
  const CLEAR_GUARD := FIRST_BYTE + MSG_LEN
  const BUMP_HEAD := CLEAR_GUARD + 1
  const BUMP_SEQ := BUMP_HEAD + 1

  const EMPTY_SLOT := Slot(0, 0, 0, 0, 0, 0, seq(MSG_LEN, _ => '\0'))

  function Init(): State { State(seq(RING_ENTRIES, _ => EMPTY_SLOT), 0, 1, Idle, []) }

  // Store number n of klog_write_formatted into its slot; the last two do not touch it.
  function StoreField(s: Slot, r: Record, n: nat, nextSeq: nat): Slot {
    if n == 0 then s.(level := GUARD_BIT + r.level)
    else if n == 1 then s.(ns := r.ns)
    else if n == 2 then s.(sequence := nextSeq)
    else if n == 3 then s.(cpu := r.cpu)
    else if n == 4 then s.(pid := r.pid)
    else if n == 5 then s.(subsys := r.subsys)
    else if n < CLEAR_GUARD && n - FIRST_BYTE < |s.message| then
      s.(message := s.message[n - FIRST_BYTE := MessageByte(r, n - FIRST_BYTE)])
    else if n == CLEAR_GUARD then s.(level := r.level)
    else s
  }

  datatype Event = Start(record: Record) | Store

  // Start is a caller acquiring the lock; Store is the lock holder's next store.
  function Next(s: State, e: Event): State
    requires |s.slots| == RING_ENTRIES
  {
    match e
    case Start(r) => if s.writer.Idle? && GoodRecord(r) then s.(writer := Busy(r, 0)) else s
    case Store =>
      match s.writer
      case Idle => s
      case Busy(r, n) =>
        if n == BUMP_HEAD then s.(head := s.head + 1, history := s.history + [r], writer := Busy(r, n + 1))
        else if n == BUMP_SEQ then s.(nextSeq := s.nextSeq + 1, writer := Idle)
        else
          var k := s.head % RING_ENTRIES;
          s.(slots := s.slots[k := StoreField(s.slots[k], r, n, s.nextSeq)], writer := Busy(r, n + 1))
  }

  // ---------------------------------------------------------------------------
  // Invariant
  // ---------------------------------------------------------------------------

  // The slot in flight after n stores.
  ghost predicate PartlyWritten(s: Slot, r: Record, sequence: nat, n: nat) {
    && |s.message| == MSG_LEN
    && (0 < n <= CLEAR_GUARD ==> s.level == GUARD_BIT + r.level)
    && (n > CLEAR_GUARD ==> s.level == r.level)
    && (n > 1 ==> s.ns == r.ns)
    && (n > 2 ==> s.sequence == sequence)
    && (n > 3 ==> s.cpu == r.cpu)
    && (n > 4 ==> s.pid == r.pid)
    && (n > 5 ==> s.subsys == r.subsys)
    && forall k :: 0 <= k < MSG_LEN && k + FIRST_BYTE < n ==> s.message[k] == MessageByte(r, k)
  }

  // Entry i of the history is intact in its slot, unless the slot has been reused.
  ghost predicate Intact(slots: seq<Slot>, r: Record, i: nat)
    requires |slots| == RING_ENTRIES
  {
    slots[i % RING_ENTRIES] == Filled(r, i + 1)
  }

  predicate BeforePublication(w: Writer) { w.Busy? && w.done <= BUMP_HEAD }

  // The oldest index that is certainly intact: one more is given up while a write is in flight.
  function OldestIntact(s: State): int {
    s.head - RING_ENTRIES + if BeforePublication(s.writer) then 1 else 0
  }

  ghost predicate Inv(s: State) {
    && |s.slots| == RING_ENTRIES
    && s.head == |s.history|
    && (forall i :: 0 <= i < |s.slots| ==> |s.slots[i].message| == MSG_LEN)
    && (forall i :: 0 <= i < |s.history| ==> GoodRecord(s.history[i]))
    && (s.writer.Busy? ==> GoodRecord(s.writer.record) && s.writer.done <= BUMP_SEQ)
    && s.nextSeq == s.head + (if s.writer.Busy? && s.writer.done == BUMP_SEQ then 0 else 1)
    && (forall i :: 0 <= i < |s.history| && OldestIntact(s) <= i ==> Intact(s.slots, s.history[i], i))
    && (BeforePublication(s.writer) ==>
          PartlyWritten(s.slots[s.head % RING_ENTRIES], s.writer.record, s.nextSeq, s.writer.done))
  }

  lemma SlotsDiffer(i: nat, j: nat)
    requires i < j < i + RING_ENTRIES
    ensures i % RING_ENTRIES != j % RING_ENTRIES
  {
    assert j % 16384 == (i % 16384 + (j - i)) % 16384;
  }

  lemma StoreKeepsPartly(s: Slot, r: Record, n: nat, sequence: nat)
    requires GoodRecord(r) && n < BUMP_HEAD && PartlyWritten(s, r, sequence, n)
    ensures PartlyWritten(StoreField(s, r, n, sequence), r, sequence, n + 1)
  {
  }

  lemma FinishedIsFilled(s: Slot, r: Record, sequence: nat)
    requires PartlyWritten(s, r, sequence, BUMP_HEAD)
    ensures s == Filled(r, sequence)
  {
    assert s.message == Filled(r, sequence).message;
  }

  lemma {:induction false} NextKeepsInv(s: State, e: Event)
    requires Inv(s)
    ensures Inv(Next(s, e))
  {
    hide PartlyWritten, Filled, StoreField;
    var t := Next(s, e);
    if e.Start? {
      if s.writer.Idle? && GoodRecord(e.record) { NothingWritten(s.slots[s.head % RING_ENTRIES], e.record, s.nextSeq); }
    } else if s.writer.Busy? {
      var r, n, k := s.writer.record, s.writer.done, s.head % RING_ENTRIES;
      if n < BUMP_HEAD {
        StoreKeepsPartly(s.slots[k], r, n, s.nextSeq);
        StoreKeepsLength(s.slots[k], r, n, s.nextSeq);
        forall i | 0 <= i < |t.history| && OldestIntact(t) <= i ensures Intact(t.slots, t.history[i], i) {
          SlotsDiffer(i, s.head);
          assert Intact(s.slots, s.history[i], i);
        }
      } else if n == BUMP_HEAD {
        FinishedIsFilled(s.slots[k], r, s.nextSeq);
      }
    }
  }

  lemma NothingWritten(s: Slot, r: Record, sequence: nat)
    requires |s.message| == MSG_LEN
    ensures PartlyWritten(s, r, sequence, 0)
  {
  }

  lemma StoreKeepsLength(s: Slot, r: Record, n: nat, sequence: nat)
    requires |s.message| == MSG_LEN
    ensures |StoreField(s, r, n, sequence).message| == MSG_LEN
  {
  }

  lemma InitInv()
    ensures Inv(Init())
  {
  }

  function Run(events: seq<Event>): (s: State)
    ensures Inv(s)
  {
    if events == [] then
      InitInv();
      Init()
    else
      var n := |events| - 1;
      var u := Run(events[..n]);
      NextKeepsInv(u, events[n]);
      Next(u, events[n])
  }

  // ---------------------------------------------------------------------------
  // The panic dump
  // ---------------------------------------------------------------------------

  const DUMP_MAX := 256

  function DumpStart(s: State): nat { if s.head < DUMP_MAX then 0 else s.head - DUMP_MAX }

  // dump_klog_tail's loop from index i on: skip guarded and never written slots, print the others.
  function DumpFrom(slots: seq<Slot>, i: nat, head: nat): seq<Slot>
    requires |slots| == RING_ENTRIES
    decreases head - i
  {
    if i >= head then []
    else
      var e := slots[i % RING_ENTRIES];
      (if Guarded(e.level) || e.sequence == 0 then [] else [e]) + DumpFrom(slots, i + 1, head)
  }

  function Published(history: seq<Record>, i: nat): seq<Slot>
    requires i <= |history|
    decreases |history| - i
  {
    if i == |history| then [] else [Filled(history[i], i + 1)] + Published(history, i + 1)
  }

  lemma {:induction false} DumpIsPublished(s: State, i: nat)
    requires Inv(s) && OldestIntact(s) <= i <= s.head
    ensures DumpFrom(s.slots, i, s.head) == Published(s.history, i)
    decreases s.head - i
  {
    if i < s.head {
      assert Intact(s.slots, s.history[i], i) && GoodRecord(s.history[i]);
      DumpIsPublished(s, i + 1);
    }
  }

  // Wherever the writer is frozen, the dump prints exactly the last min(256, head) finished entries:
  // none torn, none skipped, with consecutive sequence numbers.
  lemma {:induction false} PanicDumpIsExact(events: seq<Event>)
    ensures
      var s := Run(events);
      var dump := DumpFrom(s.slots, DumpStart(s), s.head);
      var n := if |s.history| < 256 then |s.history| else 256;
      && dump == Published(s.history, DumpStart(s)) && |dump| == n
      && forall k :: 0 <= k < n ==>
           && dump[k] == Filled(s.history[|s.history| - n + k], |s.history| - n + k + 1)
           && dump[k].sequence == |s.history| - n + k + 1
  {
    var s := Run(events);
    hide Run;
    DumpIsPublished(s, DumpStart(s));
    PublishedSequence(s.history, DumpStart(s));
  }

  lemma {:induction false} PublishedSequence(history: seq<Record>, i: nat)
    requires i <= |history|
    ensures |Published(history, i)| == |history| - i
    ensures forall k :: 0 <= k < |history| - i ==> Published(history, i)[k] == Filled(history[i + k], i + k + 1)
    decreases |history| - i
  {
    hide Filled;
    if i < |history| {
      PublishedSequence(history, i + 1);
      var p, t := Published(history, i), Published(history, i + 1);
      assert p == [Filled(history[i], i + 1)] + t;
      forall k | 0 <= k < |history| - i ensures p[k] == Filled(history[i + k], i + k + 1) {
        if k > 0 { assert p[k] == t[k - 1] == Filled(history[i + 1 + (k - 1)], i + 1 + (k - 1) + 1); }
      }
    }
  }

  // ---------------------------------------------------------------------------
  // A whole write
  // ---------------------------------------------------------------------------

  function Stores(s: State, n: nat): (t: State)
    requires Inv(s)
    ensures Inv(t)
  {
    if n == 0 then s
    else
      var u := Stores(s, n - 1);
      NextKeepsInv(u, Store);
      Next(u, Store)
  }

  lemma {:induction false} StoresSoFar(s: State, r: Record, n: nat)
    requires Inv(s) && s.writer == Busy(r, 0) && n <= BUMP_HEAD
    ensures
      var t := Stores(s, n);
      && t.head == s.head && t.nextSeq == s.nextSeq && t.history == s.history && t.writer == Busy(r, n)
      && forall i :: 0 <= i < RING_ENTRIES && i != s.head % RING_ENTRIES ==> t.slots[i] == s.slots[i]
  {
    hide Inv, StoreField;
    InvLength(s);
    if n > 0 {
      StoresSoFar(s, r, n - 1);
      InvLength(Stores(s, n - 1));
    }
  }

  lemma InvLength(s: State)
    requires Inv(s)
    ensures |s.slots| == RING_ENTRIES && s.head == |s.history|
    ensures s.writer.Idle? ==> s.nextSeq == s.head + 1
  {
  }

  // An uninterrupted write replaces one slot, publishes it and leaves every other slot alone.
  lemma {:induction false} WholeWrite(s: State, r: Record)
    requires Inv(s) && s.writer.Idle? && GoodRecord(r)
    ensures Inv(Next(s, Start(r)))
    ensures Stores(Next(s, Start(r)), BUMP_SEQ + 1) ==
            State(s.slots[s.head % RING_ENTRIES := Filled(r, s.head + 1)], s.head + 1, s.nextSeq + 1, Idle, s.history + [r])
  {
    NextKeepsInv(s, Start(r));
    var u := Next(s, Start(r));
    StoresSoFar(u, r, BUMP_HEAD);
    var t := Stores(u, BUMP_HEAD);
    var k := s.head % RING_ENTRIES;
    FinishedIsFilled(t.slots[k], r, s.nextSeq);
    hide Inv, Filled;
    assert t.slots == s.slots[k := Filled(r, s.head + 1)];
    assert Stores(u, BUMP_HEAD + 1) == Next(t, Store);
    assert Stores(u, BUMP_SEQ + 1) == Next(Stores(u, BUMP_HEAD + 1), Store);
  }
}

module KlogStore {
  import opened KlogMicro
  import opened Numerals

  predicate LevelWanted(mask: nat, e: Slot) { mask == 0 || mask / Pow(2, e.level % 16) % 2 == 1 }

  function Wanted(s: seq<Slot>, mask: nat): seq<Slot> {
    if s == [] then []
    else Wanted(s[..|s| - 1], mask) + if LevelWanted(mask, s[|s| - 1]) then [s[|s| - 1]] else []
  }

  lemma {:induction false} WantedOfPrefix(s: seq<Slot>, k: nat, mask: nat)
    requires k <= |s|
    ensures Wanted(s[..k], mask) <= Wanted(s, mask)
    decreases |s|
  {
    if k < |s| {
      WantedOfPrefix(s[..|s| - 1], k, mask);
      assert s[..|s| - 1][..k] == s[..k];
    } else {
      assert s[..k] == s;
    }
  }

  lemma WantedStep(s: seq<Slot>, k: nat, mask: nat)
    requires k < |s|
    ensures Wanted(s[..k + 1], mask) == Wanted(s[..k], mask) + if LevelWanted(mask, s[k]) then [s[k]] else []
  {
    assert s[..k + 1][..k] == s[..k];
  }

  // How far back klog_read_filtered walks: 0 asks for everything resident.
  function Walk(head: nat, tailCount: nat): nat {
    var available := if head > RING_ENTRIES then RING_ENTRIES else head;
    if tailCount == 0 || tailCount > available then available else tailCount
  }

  class Ring {
    const slots: array<Slot>
    var head: nat
    var nextSeq: nat
    var initialized: bool
    var earlyDrops: nat
    ghost var history: seq<Record>

    // No write is in flight and every resident entry is intact in its slot.
    ghost predicate Valid()
      reads this, slots
    {
      && slots.Length == RING_ENTRIES
      && Inv(State(slots[..], head, nextSeq, Idle, history))
    }

    constructor ()
      ensures Valid() && history == [] && !initialized && earlyDrops == 0 && fresh(slots)
    {
      slots := new Slot[RING_ENTRIES](_ => EMPTY_SLOT);
      head, nextSeq, initialized, earlyDrops, history := 0, 1, false, 0, [];
      new;
      InitInv();
      assert slots[..] == Init().slots;
    }

    // klog_init: from here on writes are kept.
    method BringUp()
      requires Valid()
      modifies `initialized
      ensures Valid() && initialized
    {
      initialized := true;
    }

    method WriteFormatted(level: nat, subsys: nat, pid: int, ns: nat, cpu: int, msg: seq<char>, msgLen: nat)
      requires Valid() && msgLen <= |msg|
      modifies this, slots
      ensures Valid() && initialized == old(initialized)
      ensures !initialized ==> history == old(history) && earlyDrops == old(earlyDrops) + 1 && slots[..] == old(slots[..])
      ensures initialized ==>
        && earlyDrops == old(earlyDrops)
        && history == old(history) + [Record(ns, cpu, pid, level % 16, subsys, msg[..if msgLen < MSG_LEN then msgLen else MSG_LEN - 1])]
    {
      hide Inv, Filled, Next, Stores;
      if !initialized {
        earlyDrops := earlyDrops + 1;
        return;
      }
      var len := if msgLen >= MSG_LEN then MSG_LEN - 1 else msgLen;
      ghost var before := State(slots[..], head, nextSeq, Idle, history);
      ghost var r := Record(ns, cpu, pid, level % 16, subsys, msg[..len]);
      InvLength(before);
      WholeWrite(before, r);
      var k := head % RING_ENTRIES;
      MessageLength(before, k);
      slots[k] := slots[k].(level := GUARD_BIT + level % 16);
      slots[k] := slots[k].(ns := ns, sequence := nextSeq, cpu := cpu, pid := pid, subsys := subsys);
      FillMessage(k, msg, len, r);
      slots[k] := slots[k].(level := level % 16);
      head := head + 1;
      nextSeq := nextSeq + 1;
      history := history + [r];
      FilledIs(slots[k], r, before.head + 1);
      assert slots[..] == before.slots[k := Filled(r, before.head + 1)];
    }

    // The copy loop and the loop that zeroes the tail of the message area.
    method FillMessage(k: nat, msg: seq<char>, len: nat, ghost r: Record)
      requires k < slots.Length && |slots[k].message| == MSG_LEN && len < MSG_LEN && len <= |msg| && r.msg == msg[..len]
      modifies slots
      ensures forall i :: 0 <= i < slots.Length && i != k ==> slots[i] == old(slots[i])
      ensures slots[k] == old(slots[k]).(message := slots[k].message)
      ensures |slots[k].message| == MSG_LEN && forall i :: 0 <= i < MSG_LEN ==> slots[k].message[i] == MessageByte(r, i)
    {
      var i := 0;
      while i < len
        invariant 0 <= i <= len && |slots[k].message| == MSG_LEN
        invariant forall j :: 0 <= j < i ==> slots[k].message[j] == msg[j]
        invariant slots[k] == old(slots[k]).(message := slots[k].message)
        invariant forall j :: 0 <= j < slots.Length && j != k ==> slots[j] == old(slots[j])
      {
        slots[k] := slots[k].(message := slots[k].message[i := msg[i]]);
        i := i + 1;
      }
      slots[k] := slots[k].(message := slots[k].message[i := '\0']);
      i := len + 1;
      while i < MSG_LEN
        invariant len < i <= MSG_LEN && |slots[k].message| == MSG_LEN
        invariant forall j :: 0 <= j < i ==> slots[k].message[j] == MessageByte(r, j)
        invariant slots[k] == old(slots[k]).(message := slots[k].message)
        invariant forall j :: 0 <= j < slots.Length && j != k ==> slots[j] == old(slots[j])
      {
        slots[k] := slots[k].(message := slots[k].message[i := '\0']);
        i := i + 1;
      }
    }

    // Without a concurrent writer: the first dstMax matching entries of the last Walk ones, in order.
    method ReadFiltered(mask: nat, tailCount: nat, dst: array<Slot>, dstMax: nat) returns (copied: nat)
      requires Valid() && dst.Length >= dstMax && dst != slots
      modifies dst
      ensures copied <= dstMax
      ensures !initialized ==> copied == 0
      ensures initialized ==>
        && Walk(head, tailCount) <= head == |history|
        && var found := Wanted(Published(history, head - Walk(head, tailCount)), mask);
           dst[..copied] == (if |found| <= dstMax then found else found[..dstMax])
      ensures dst[copied..] == old(dst[copied..])
    {
      hide Inv, LevelWanted, Wanted, Published, Filled;
      copied := 0;
      ghost var s := State(slots[..], head, nextSeq, Idle, history);
      InvLength(s);
      if !initialized { return; }
      var start := head - Walk(head, tailCount);
      ghost var tail := Published(history, start);
      PublishedSequence(history, start);
      WantedNothing(mask);
      if dstMax == 0 { return; }
      var i := start;
      while i < head && copied < dstMax
        invariant start <= i <= head && copied <= dstMax
        invariant dst[..copied] == Wanted(tail[..i - start], mask) && dst[copied..] == old(dst[copied..])
      {
        ResidentIsFilled(s, i);
        var e := slots[i % RING_ENTRIES];
        assert e == s.slots[i % RING_ENTRIES] == tail[i - start];
        WantedStep(tail, i - start, mask);
        i := i + 1;
        if Guarded(e.level) { continue; }
        if !LevelWanted(mask, e) { continue; }
        dst[copied] := e;
        copied := copied + 1;
      }
      WantedOfPrefix(tail, i - start, mask);
      assert tail[..|tail|] == tail;
    }
  }

  lemma WantedNothing(mask: nat)
    ensures Wanted([], mask) == []
  {
  }

  lemma MessageLength(s: State, k: nat)
    requires Inv(s) && k < |s.slots|
    ensures |s.slots[k].message| == MSG_LEN
  {
  }

  lemma FilledIs(e: Slot, r: Record, sequence: nat)
    requires |e.message| == MSG_LEN && forall i :: 0 <= i < MSG_LEN ==> e.message[i] == MessageByte(r, i)
    requires e.ns == r.ns && e.sequence == sequence && e.cpu == r.cpu && e.pid == r.pid && e.level == r.level && e.subsys == r.subsys
    ensures e == Filled(r, sequence)
  {
    assert e.message == Filled(r, sequence).message;
  }

  lemma ResidentIsFilled(s: State, i: nat)
    requires Inv(s) && s.writer.Idle? && s.head - RING_ENTRIES <= i < s.head
    ensures s.slots[i % RING_ENTRIES] == Filled(s.history[i], i + 1)
    ensures !Guarded(s.slots[i % RING_ENTRIES].level)
  {
    assert Intact(s.slots, s.history[i], i) && GoodRecord(s.history[i]);
  }
}
