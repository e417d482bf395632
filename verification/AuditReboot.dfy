/**
 What a crash costs.  The kernel may stop between any two steps of the audit pipeline and
 start again on the same day over the disk as it is.  It tries once, at boot, to open the
 day's file (audit_attach_fs), and any call of that attempt may fail.  It then appends where
 the file's header says the old kernel stopped, or from the start when the header cannot be
 read, so what was written behind that point is written over; this decides exactly when
 that cannot happen.
 */
module AuditReboot {
  import opened Calendar
  import opened Options
  import opened AuditLog
  import opened AuditDisk

  // Every file-system call succeeds.
  const ALL_WELL := OpenIo(true, true, true, HeaderOk)

  // The steps of the kernel that starts over the disk of state s: one attempt to open the file, with
  // the outcome io of its calls, and then any others.
  function Resumed(now: int, io: OpenIo, more: seq<Step>): seq<Step> { [Attach(now, io)] + more }

  function Restart(s: State, now: int, io: OpenIo, more: seq<Step>): (t: State)
    ensures Inv(t)
  {
    Boot(s.f.disk, Resumed(now, io, more))
  }

  // The attempt succeeds over a file that exists: its header is read, or a fresh one is written.
  predicate HeaderRead(f: Files, path: string, io: OpenIo)
    requires path in f.disk
  {
    io.readOk && f.disk[path].header.Some?
  }

  predicate Opens(f: Files, path: string, io: OpenIo)
    requires path in f.disk
  {
    HeaderRead(f, path, io) || io.write.HeaderOk?
  }

  // Where the new kernel goes on in the file.
  function StartCount(f: Files, path: string, io: OpenIo): nat
    requires path in f.disk
  {
    if HeaderRead(f, path, io) then f.disk[path].header.value.count else 0
  }

  // Steps of a kernel that has made its attempt, under a clock in years 1970 to 9999.
  ghost predicate AllClocked(steps: seq<Step>) { forall j :: 0 <= j < |steps| ==> Clocked(steps[j]) && !steps[j].Attach? }

  // The file holds what the old kernel had put there.
  ghost predicate StillThere(s: State, t: State, path: string)
    requires path in s.f.placed
  {
    path in t.f.disk && Holds(t.f.disk[path], s.f.placed[path], s.q.history)
  }

  // The old kernel was appending to the file of the day, and had written something.
  ghost predicate MidDay(s: State, now: int) {
    && Inv(s) && now > 0 && InCalendar(now) && s.f.current == Some(LogPathAt(now))
    && s.f.placed[LogPathAt(now)].indices != []
  }

  // ---------------------------------------------------------------------------
  // Runs
  // ---------------------------------------------------------------------------

  lemma RestartSnoc(s: State, now: int, io: OpenIo, more: seq<Step>, a: Step)
    ensures Restart(s, now, io, more + [a]) == Next(Restart(s, now, io, more), a)
  {
    hide Inv, Next, Boot;
    assert Resumed(now, io, more + [a]) == Resumed(now, io, more) + [a];
    BootSnoc(s.f.disk, Resumed(now, io, more), a);
  }

  // What the restarted kernel's attempt does to the file.
  lemma AttemptEffect(f: Files, now: int, io: OpenIo)
    requires FileInv(f) && f.current == Some(LogPathAt(now))
    ensures
      var path := LogPathAt(now);
      var g := OpenLog(Files(f.disk, None, 0, 0, 0, map[]), now, io);
      && path in f.disk && path in g.disk && g.disk[path].records == f.disk[path].records
      && (Opens(f, path, io) <==> g.current.Some?)
      && (g.current.Some? ==> g.current == Some(path) && g.count == StartCount(f, path, io) && g.day == DayStart(now) && path in g.placed)
  {
    hide LogPathAt, DayStart;
  }

  // Attached at the top of its loop, with nothing pending and n entries in the current file.
  ghost predicate Ready(t: State, path: string, day: int, n: nat) {
    && t.attached && t.phase == AtTop && t.f.current == Some(path) && t.f.day == day && t.f.count == n
    && path in t.f.disk && path in t.f.placed && t.q.cursor == |t.q.history|
  }

  lemma RestartIsReady(s: State, now: int, io: OpenIo)
    requires Inv(s) && now > 0 && s.f.current == Some(LogPathAt(now))
    ensures
      var path, t := LogPathAt(now), Restart(s, now, io, []);
      && path in s.f.disk && path in t.f.disk && t.f.disk[path].records == s.f.disk[path].records
      && (t.attached <==> Opens(s.f, path, io))
      && (t.attached ==> Ready(t, path, DayStart(now), StartCount(s.f, path, io)))
  {
    hide QueueInv, DiskInv, LogPathAt, DayStart, OpenLog, Boot, StartCount, Opens;
    AttemptEffect(s.f, now, io);
    assert Resumed(now, io, []) == [Attach(now, io)];
    OneStepBoot(s.f.disk, Attach(now, io));
  }

  // ---------------------------------------------------------------------------
  // A kernel that could not open the file leaves the disk alone
  // ---------------------------------------------------------------------------

  lemma DetachedStep(t: State, a: Step)
    requires Inv(t) && !t.attached && !a.Attach?
    ensures !Next(t, a).attached && Next(t, a).f == t.f
  {
    hide QueueInv, DiskInv, FileInv, OpenLog;
  }

  lemma {:induction false} DetachedForever(s: State, now: int, io: OpenIo, more: seq<Step>)
    requires AllClocked(more) && !Restart(s, now, io, []).attached
    ensures !Restart(s, now, io, more).attached && Restart(s, now, io, more).f == Restart(s, now, io, []).f
    decreases |more|
  {
    hide Inv, Next, Restart, Clocked;
    if more != [] {
      var n := |more| - 1;
      DetachedForever(s, now, io, more[..n]);
      assert more == more[..n] + [more[n]];
      RestartSnoc(s, now, io, more[..n], more[n]);
      DetachedStep(Restart(s, now, io, more[..n]), more[n]);
    } else {
      assert more == [];
    }
  }

  // ---------------------------------------------------------------------------
  // Slots before the append point are safe
  // ---------------------------------------------------------------------------

  // The record stands in a slot before the append point, in a file that was opened in this run.
  ghost predicate Safe(t: State, path: string, slot: nat, e: Entry) {
    && path in t.f.placed && path in t.f.disk && Offset(slot) in t.f.disk[path].records
    && t.f.disk[path].records[Offset(slot)] == e
    && (t.f.current == Some(path) ==> slot < t.f.count)
  }

  lemma OpenLeavesFile(f: Files, attached: bool, now: int, io: OpenIo, path: string)
    requires Dated(f, attached) && InCalendar(now) && attached && f.day < DayStart(now) && path in f.placed
    ensures
      var g := OpenLog(f.(current := None), now, io);
      path in g.placed && g.current != Some(path)
  {
    hide OpenLog, LogPathAt, DayStart, InCalendar, Earlier;
    OpenEffect(f, now, io);
    NewDayNewFile(path, f.day, now);
  }

  lemma SafeStep(t: State, a: Step, path: string, slot: nat, e: Entry)
    requires Inv(t) && Kept(t) && Clocked(a) && t.attached && Safe(t, path, slot, e)
    ensures Next(t, a).attached && Safe(Next(t, a), path, slot, e)
  {
    hide CountInv, OrderInv, DiskInv, OpenLog, LogPathAt, DayStart, InCalendar, Located, InDayOrder, OthersEarlier, OpenedBy;
    OnlyTheTailIsWritten(t, a, path, Offset(slot));
    match a
    case Rotate(now, io) =>
      if t.phase == AtTop && t.f.day < DayStart(now) { OpenLeavesFile(t.f, t.attached, now, io, path); }
    case _ =>
  }

  lemma {:induction false} SafeForever(s: State, now: int, io: OpenIo, more: seq<Step>, slot: nat, e: Entry)
    requires InCalendar(now) && AllClocked(more)
    requires Restart(s, now, io, []).attached && Safe(Restart(s, now, io, []), LogPathAt(now), slot, e)
    ensures Restart(s, now, io, more).attached && Safe(Restart(s, now, io, more), LogPathAt(now), slot, e)
    decreases |more|
  {
    hide Inv, Next, Restart, Safe, Kept, LogPathAt, InCalendar;
    if more != [] {
      var n := |more| - 1;
      SafeForever(s, now, io, more[..n], slot, e);
      assert more == more[..n] + [more[n]];
      RestartSnoc(s, now, io, more[..n], more[n]);
      RestartKept(s, now, io, more[..n]);
      SafeStep(Restart(s, now, io, more[..n]), more[n], LogPathAt(now), slot, e);
    }
  }

  lemma RestartKept(s: State, now: int, io: OpenIo, more: seq<Step>)
    requires InCalendar(now) && AllClocked(more)
    ensures Kept(Restart(s, now, io, more))
  {
    hide Inv, Kept, InCalendar, Boot;
    var steps := Resumed(now, io, more);
    assert forall j :: 0 <= j < |steps| ==> Clocked(steps[j]) by {
      assert forall j :: 1 <= j < |steps| ==> steps[j] == more[j - 1];
    }
    RunKeepsLocated(s.f.disk, steps);
  }

  lemma SafeHolds(t: State, path: string, p: Placement, history: seq<Entry>)
    requires Increasing(p.indices) && path in t.f.disk
    requires forall k :: 0 <= k < |p.indices| ==> p.indices[k] < |history|
    requires forall k :: 0 <= k < |p.indices| ==> Safe(t, path, p.base + k, history[p.indices[k]])
    ensures Holds(t.f.disk[path], p, history)
  {
    hide Offset;
    forall k | 0 <= k < |p.indices| ensures HoldsAt(t.f.disk[path], p, history, k) {
      assert Safe(t, path, p.base + k, history[p.indices[k]]);
    }
  }

  // The attempt fails, or the header is read and counts every entry.
  ghost predicate Harmless(s: State, now: int, io: OpenIo)
    requires LogPathAt(now) in s.f.disk
  {
    var path := LogPathAt(now);
    !Opens(s.f, path, io) || (HeaderRead(s.f, path, io) && s.f.disk[path].header.value.count >= s.f.count)
  }

  lemma HarmlessStart(s: State, now: int, io: OpenIo)
    requires MidDay(s, now) && LogPathAt(now) in s.f.disk
    ensures Harmless(s, now, io) <==> !Opens(s.f, LogPathAt(now), io) || StartCount(s.f, LogPathAt(now), io) >= s.f.count
  {
    hide QueueInv, DiskInv, LogPathAt, InCalendar;
    assert s.f.count > 0;
  }

  lemma {:induction false} HarmlessKeeps(s: State, now: int, io: OpenIo, more: seq<Step>)
    requires MidDay(s, now) && AllClocked(more) && LogPathAt(now) in s.f.disk && Harmless(s, now, io)
    ensures StillThere(s, Restart(s, now, io, more), LogPathAt(now))
  {
    hide QueueInv, LogPathAt, InCalendar, Restart, StartCount, Opens, Offset, DayStart, Harmless, AllClocked;
    var path := LogPathAt(now);
    var p := s.f.placed[path];
    RestartIsReady(s, now, io);
    HarmlessStart(s, now, io);
    assert Holds(s.f.disk[path], p, s.q.history);
    forall k | 0 <= k < |p.indices| ensures p.indices[k] < |s.q.history| {
      assert HoldsAt(s.f.disk[path], p, s.q.history, k);
    }
    var t := Restart(s, now, io, more);
    if !Opens(s.f, path, io) {
      DetachedForever(s, now, io, more);
      SameRecordsHold(s.f.disk[path], t.f.disk[path], p, s.q.history);
    } else {
      forall k | 0 <= k < |p.indices| ensures Safe(t, path, p.base + k, s.q.history[p.indices[k]]) {
        assert HoldsAt(s.f.disk[path], p, s.q.history, k);
        SafeForever(s, now, io, more, p.base + k, s.q.history[p.indices[k]]);
      }
      assert Safe(t, path, p.base + 0, s.q.history[p.indices[0]]);
      SafeHolds(t, path, p, s.q.history);
    }
  }

  // ---------------------------------------------------------------------------
  // Slots behind it can be lost
  // ---------------------------------------------------------------------------

  // One more entry through the whole pipeline, with every call succeeding.
  function WriteOne(e: Entry, now: int): seq<Step> {
    [Enqueue(e), Rotate(now, ALL_WELL), Drain, Persist(RecordOk), SyncHeader(HeaderOk)]
  }

  function WriteMany(e: Entry, now: int, n: nat): seq<Step> { if n == 0 then [] else WriteMany(e, now, n - 1) + WriteOne(e, now) }

  lemma {:induction false} WriteManyClocked(e: Entry, now: int, n: nat)
    requires InCalendar(now)
    ensures AllClocked(WriteMany(e, now, n))
  {
    hide InCalendar;
    if n > 0 { WriteManyClocked(e, now, n - 1); }
  }

  // In flight between the steps of WriteOne: e is the only entry not yet processed.
  ghost predicate Carrying(t: State, path: string, day: int, n: nat, e: Entry) {
    && t.attached && t.f.current == Some(path) && t.f.day == day && t.f.count == n
    && path in t.f.disk && path in t.f.placed && |t.q.history| > 0 && t.q.history[|t.q.history| - 1] == e
  }

  lemma FeedEntry(t: State, path: string, now: int, n: nat, e: Entry)
    requires Inv(t) && Ready(t, path, DayStart(now), n)
    ensures
      var u := Next(t, Enqueue(e));
      Inv(u) && Carrying(u, path, DayStart(now), n, e) && u.f == t.f && u.phase == AtTop && u.q.cursor == |u.q.history| - 1
  {
    hide CountInv, OrderInv, DiskInv, DayStart, FileInv;
    NextKeepsInv(t, Enqueue(e));
  }

  lemma DrainEntry(t: State, path: string, now: int, n: nat, e: Entry)
    requires Inv(t) && Carrying(t, path, DayStart(now), n, e) && t.phase == AtTop && t.q.cursor == |t.q.history| - 1
    ensures
      var r := Next(t, Rotate(now, ALL_WELL));
      && Inv(r)
      && var u := Next(r, Drain);
         Inv(u) && Carrying(u, path, DayStart(now), n, e) && u.f == t.f && u.phase == Persisting
         && u.q.lo == |u.q.history| - 1 && u.q.hi == u.q.cursor == |u.q.history|
  {
    hide CountInv, OrderInv, DiskInv, DayStart, FileInv, OpenLog;
    NextKeepsInv(t, Rotate(now, ALL_WELL));
    NextKeepsInv(Next(t, Rotate(now, ALL_WELL)), Drain);
  }

  lemma StoreEntry(t: State, path: string, now: int, n: nat, e: Entry)
    requires Inv(t) && Carrying(t, path, DayStart(now), n, e) && t.phase == Persisting && n < MAX_ENTRIES
    requires t.q.lo == |t.q.history| - 1 && t.q.hi == t.q.cursor == |t.q.history|
    ensures
      var r := Next(t, Persist(RecordOk));
      && Inv(r)
      && var u := Next(r, SyncHeader(HeaderOk));
         && Inv(u) && Ready(u, path, DayStart(now), n + 1)
         && u.f.disk[path].records == t.f.disk[path].records[Offset(n) := e]
  {
    hide CountInv, OrderInv, DiskInv, DayStart;
    NextKeepsInv(t, Persist(RecordOk));
    NextKeepsInv(Next(t, Persist(RecordOk)), SyncHeader(HeaderOk));
  }

  lemma RestartFive(s: State, now: int, io: OpenIo, more: seq<Step>, a: Step, b: Step, c: Step, d: Step, e: Step)
    ensures
      var t1 := Next(Restart(s, now, io, more), a);
      && Inv(t1) && Inv(Next(t1, b)) && Inv(Next(Next(t1, b), c)) && Inv(Next(Next(Next(t1, b), c), d))
      && Restart(s, now, io, more + [a, b, c, d, e]) == Next(Next(Next(Next(t1, b), c), d), e)
  {
    hide Inv, Next, Restart;
    RestartSnoc(s, now, io, more, a);
    RestartSnoc(s, now, io, more + [a], b);
    RestartSnoc(s, now, io, more + [a] + [b], c);
    RestartSnoc(s, now, io, more + [a] + [b] + [c], d);
    RestartSnoc(s, now, io, more + [a] + [b] + [c] + [d], e);
    assert more + [a, b, c, d, e] == more + [a] + [b] + [c] + [d] + [e];
  }

  lemma {:induction false} OverwritesFrom(s: State, now: int, io: OpenIo, e: Entry, n: nat, c: nat)
    requires Inv(s) && now > 0 && s.f.current == Some(LogPathAt(now)) && LogPathAt(now) in s.f.disk
    requires Opens(s.f, LogPathAt(now), io) && c == StartCount(s.f, LogPathAt(now), io) && c + n <= MAX_ENTRIES
    ensures Ready(Restart(s, now, io, WriteMany(e, now, n)), LogPathAt(now), DayStart(now), c + n)
    ensures n > 0 ==>
      var records := Restart(s, now, io, WriteMany(e, now, n)).f.disk[LogPathAt(now)].records;
      Offset(c + n - 1) in records && records[Offset(c + n - 1)] == e
    decreases n
  {
    hide Inv, Next, Restart, LogPathAt, DayStart, StartCount, Offset;
    if n == 0 {
      RestartIsReady(s, now, io);
    } else {
      OverwritesFrom(s, now, io, e, n - 1, c);
      var more := WriteMany(e, now, n - 1);
      var t := Restart(s, now, io, more);
      RestartFive(s, now, io, more, Enqueue(e), Rotate(now, ALL_WELL), Drain, Persist(RecordOk), SyncHeader(HeaderOk));
      FeedEntry(t, LogPathAt(now), now, c + n - 1, e);
      var u := Next(t, Enqueue(e));
      DrainEntry(u, LogPathAt(now), now, c + n - 1, e);
      StoreEntry(Next(Next(u, Rotate(now, ALL_WELL)), Drain), LogPathAt(now), now, c + n - 1, e);
    }
  }

  // Going on before the old kernel's last entry: some run writes over an entry.
  lemma {:induction false} EarlyStartLoses(s: State, now: int, io: OpenIo) returns (more: seq<Step>)
    requires MidDay(s, now) && LogPathAt(now) in s.f.disk && !Harmless(s, now, io)
    ensures AllClocked(more) && !StillThere(s, Restart(s, now, io, more), LogPathAt(now))
  {
    hide QueueInv, LogPathAt, DayStart, InCalendar, Restart, StartCount, Opens, Offset, AllClocked, Harmless;
    HarmlessStart(s, now, io);
    var path := LogPathAt(now);
    var p, c := s.f.placed[path], StartCount(s.f, path, io);
    var slot := if c < p.base then p.base else c;
    var k := slot - p.base;
    assert HoldsAt(s.f.disk[path], p, s.q.history, k);
    var lost := s.q.history[p.indices[k]];
    var e := lost.(magic := lost.magic + 1);
    more := WriteMany(e, now, slot - c + 1);
    WriteManyClocked(e, now, slot - c + 1);
    OverwritesFrom(s, now, io, e, slot - c + 1, c);
    assert !HoldsAt(Restart(s, now, io, more).f.disk[path], p, s.q.history, k);
  }

  // For every outcome of the restarted kernel's attempt to open the day's file: everything the old
  // kernel had put there stays there in every run that follows, if and only if the attempt fails, or
  // reads a header that counts it all.
  lemma {:induction false} RestartKeepsIff(s: State, now: int, io: OpenIo)
    requires MidDay(s, now)
    ensures LogPathAt(now) in s.f.disk
    ensures (forall more :: AllClocked(more) ==> StillThere(s, Restart(s, now, io, more), LogPathAt(now)))
            <==> Harmless(s, now, io)
  {
    hide QueueInv, DiskInv, LogPathAt, InCalendar, Restart, Harmless, AllClocked, StillThere;
    if Harmless(s, now, io) {
      forall more | AllClocked(more) ensures StillThere(s, Restart(s, now, io, more), LogPathAt(now)) {
        HarmlessKeeps(s, now, io, more);
      }
    } else {
      var more := EarlyStartLoses(s, now, io);
    }
  }

  // A header that counts everything but cannot be read is written anew with 0: the next entry goes over
  // the file's first.
  lemma FailedReadLoses(s: State, now: int)
    requires MidDay(s, now) && LogPathAt(now) in s.f.disk
    ensures !Harmless(s, now, OpenIo(true, true, false, HeaderOk))
  {
    hide QueueInv, DiskInv, LogPathAt, InCalendar;
  }

  // A first entry written to a new file, before its header is: the next kernel starts at slot 0 again.
  lemma CrashBeforeHeader(e: Entry, now: int)
    requires now > 0 && InCalendar(now)
    ensures
      var s := Boot(map[], [Attach(now, ALL_WELL), Enqueue(e), Rotate(now, ALL_WELL), Drain, Persist(RecordOk)]);
      && MidDay(s, now) && LogPathAt(now) in s.f.disk && s.f.count == 1
      && s.f.disk[LogPathAt(now)].header == Some(Header(DayStart(now), 0)) && !Harmless(s, now, ALL_WELL)
  {
    hide Inv, Next, Boot, LogPathAt, DayStart, InCalendar, Offset;
    var a := Attach(now, ALL_WELL);
    var path := LogPathAt(now);
    OneStepBoot(map[], a);
    NewFileReady(now);
    var t := Boot(map[], [a]);
    BootSnoc(map[], [a], Enqueue(e));
    BootSnoc(map[], [a] + [Enqueue(e)], Rotate(now, ALL_WELL));
    BootSnoc(map[], [a] + [Enqueue(e)] + [Rotate(now, ALL_WELL)], Drain);
    BootSnoc(map[], [a] + [Enqueue(e)] + [Rotate(now, ALL_WELL)] + [Drain], Persist(RecordOk));
    FeedEntry(t, path, now, 0, e);
    var u := Next(t, Enqueue(e));
    DrainEntry(u, path, now, 0, e);
    PersistLeavesHeader(Next(Next(u, Rotate(now, ALL_WELL)), Drain), path, now, e);
    assert [a, Enqueue(e), Rotate(now, ALL_WELL), Drain, Persist(RecordOk)] ==
           [a] + [Enqueue(e)] + [Rotate(now, ALL_WELL)] + [Drain] + [Persist(RecordOk)];
  }

  lemma NewFileReady(now: int)
    requires now > 0
    ensures
      var t := Boot(map[], [Attach(now, ALL_WELL)]);
      && Ready(t, LogPathAt(now), DayStart(now), 0) && t.f.placed[LogPathAt(now)] == Placement(0, [])
      && t.f.disk[LogPathAt(now)].header == Some(Header(DayStart(now), 0))
  {
    hide QueueInv, DiskInv, LogPathAt, DayStart, Boot;
    OneStepBoot(map[], Attach(now, ALL_WELL));
  }

  lemma PersistLeavesHeader(t: State, path: string, now: int, e: Entry)
    requires Inv(t) && Carrying(t, path, DayStart(now), 0, e) && t.phase == Persisting
    requires t.q.lo == |t.q.history| - 1 && t.q.hi == t.q.cursor == |t.q.history|
    ensures
      var u := Next(t, Persist(RecordOk));
      && Inv(u) && u.f.current == Some(path) && u.f.count == 1 && path in u.f.placed && path in u.f.disk
      && u.f.placed[path].indices != [] && u.f.disk[path].header == t.f.disk[path].header
  {
    hide CountInv, OrderInv, DiskInv, DayStart;
    NextKeepsInv(t, Persist(RecordOk));
  }
}
