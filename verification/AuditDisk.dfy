/**
 Where the audit log's entries are: while the clock reads years 1970 to 9999, every entry
 the flusher counts as written stands in exactly one slot of one log file, and reading the
 files day by day, slot by slot, gives the entries in the order they were enqueued.  A file
 is never opened twice in a run, because a rotation opens the file of a later day.
 */
module AuditDisk {
  import opened Calendar
  import opened AuditLog
  import opened Options

  ghost predicate InCalendar(now: int) { 0 <= now && DateOfInstant(now).year <= 9999 }

  // The file of a day that had come by `day`.
  ghost predicate OpenedBy(path: string, day: int) {
    exists w :: InCalendar(w) && DayStart(w) <= day && path == LogPathAt(w)
  }

  // Files of two days, the first one earlier.
  ghost predicate Earlier(p: string, q: string) {
    exists v, w :: InCalendar(v) && InCalendar(w) && DayStart(v) < DayStart(w) && p == LogPathAt(v) && q == LogPathAt(w)
  }

  ghost predicate At(placed: map<string, Placement>, path: string, k: nat, i: nat) {
    path in placed && k < |placed[path].indices| && placed[path].indices[k] == i
  }

  ghost predicate Somewhere(placed: map<string, Placement>, i: nat) { exists path, k :: At(placed, path, k, i) }

  // Each written entry is in a file, and no two files share one.
  ghost predicate Located(placed: map<string, Placement>, persisted: seq<nat>) {
    && (forall i :: i in persisted ==> Somewhere(placed, i))
    && (forall p, q, k, l, i :: At(placed, p, k, i) && At(placed, q, l, i) ==> p == q)
  }

  // An entry enqueued before one in another file is in the file of an earlier day.
  ghost predicate InDayOrder(placed: map<string, Placement>) {
    forall p, q, k, l, i: nat, j: nat :: At(placed, p, k, i) && At(placed, q, l, j) && i < j && p != q ==> Earlier(p, q)
  }

  ghost predicate OthersEarlier(placed: map<string, Placement>, path: string) {
    forall p :: p in placed && p != path ==> Earlier(p, path)
  }

  // The files used so far are of days up to f.day, all but the current one of earlier days than it.
  ghost predicate Dated(f: Files, attached: bool) {
    && (!attached ==> f.placed == map[])
    && (forall path :: path in f.placed ==> OpenedBy(path, f.day))
    && (f.current.Some? ==> OthersEarlier(f.placed, f.current.value))
  }

  lemma NewDayNewFile(path: string, day: int, now: int)
    requires InCalendar(now) && OpenedBy(path, day) && day < DayStart(now)
    ensures path != LogPathAt(now) && Earlier(path, LogPathAt(now))
  {
    hide LogPathAt, DateOfInstant;
    var w :| InCalendar(w) && DayStart(w) <= day && path == LogPathAt(w);
    SameFileSameDay(w, now);
  }

  // A path is the file of one day only.
  lemma EarlierIsStrict(p: string, q: string)
    requires Earlier(p, q)
    ensures p != q && !Earlier(q, p)
  {
    hide LogPathAt, DateOfInstant;
    var v, w :| InCalendar(v) && InCalendar(w) && DayStart(v) < DayStart(w) && p == LogPathAt(v) && q == LogPathAt(w);
    SameFileSameDay(v, w);
    if Earlier(q, p) {
      var x, y :| InCalendar(x) && InCalendar(y) && DayStart(x) < DayStart(y) && q == LogPathAt(x) && p == LogPathAt(y);
      SameFileSameDay(v, y);
      SameFileSameDay(w, x);
    }
  }

  lemma OpenKeepsLocated(f: Files, attached: bool, now: int, io: OpenIo, persisted: seq<nat>)
    requires Located(f.placed, persisted) && InDayOrder(f.placed) && Dated(f, attached) && InCalendar(now)
    requires attached ==> f.day < DayStart(now)
    ensures
      var g := OpenLog(f.(current := None), now, io);
      Located(g.placed, persisted) && InDayOrder(g.placed) && Dated(g, attached || g.current.Some?)
  {
    hide OpenLog, LogPathAt, DayStart, InCalendar, Earlier;
    OpenEffect(f, now, io);
    var g, path := OpenLog(f.(current := None), now, io), LogPathAt(now);
    if g.current.Some? {
      forall p | p in f.placed ensures p != path && Earlier(p, path) { NewDayNewFile(p, f.day, now); }
      AddingKeepsLocated(f.placed, path, g.placed[path], persisted);
      assert OpenedBy(path, g.day);
      forall p | p in f.placed ensures OpenedBy(p, g.day) {
        var w :| InCalendar(w) && DayStart(w) <= f.day && p == LogPathAt(w);
      }
    }
  }

  lemma AddingKeepsLocated(placed: map<string, Placement>, path: string, p: Placement, persisted: seq<nat>)
    requires Located(placed, persisted) && InDayOrder(placed) && path !in placed && p.indices == []
    ensures Located(placed[path := p], persisted) && InDayOrder(placed[path := p])
  {
    hide Earlier;
    var after := placed[path := p];
    assert forall q, k, i :: At(after, q, k, i) ==> At(placed, q, k, i);
    forall i | i in persisted ensures Somewhere(after, i) {
      var q, k :| At(placed, q, k, i);
      assert At(after, q, k, i);
    }
  }

  lemma AppendKeepsLocated(placed: map<string, Placement>, path: string, persisted: seq<nat>, i: nat)
    requires Located(placed, persisted) && InDayOrder(placed) && OthersEarlier(placed, path) && path in placed
    requires forall q, k, j: nat :: At(placed, q, k, j) ==> j < i
    ensures
      var after := placed[path := placed[path].(indices := placed[path].indices + [i])];
      Located(after, persisted + [i]) && InDayOrder(after) && OthersEarlier(after, path)
  {
    hide Earlier;
    var n := |placed[path].indices|;
    var after := placed[path := placed[path].(indices := placed[path].indices + [i])];
    assert forall q, k, j: nat :: At(after, q, k, j) ==> At(placed, q, k, j) || (j == i && q == path);
    assert At(after, path, n, i);
    forall j | j in persisted ensures Somewhere(after, j) {
      var q, k :| At(placed, q, k, j);
      assert At(after, q, k, j);
    }
  }

  // Everything placed so far comes before the flusher's next entry.
  lemma PlacedComeBefore(s: State)
    requires Inv(s) && s.q.lo < s.q.hi
    ensures forall path, k, i: nat :: At(s.f.placed, path, k, i) ==> i < s.q.lo
  {
    hide CountInv, CursorInv, FileInv;
    forall path, k, i: nat | At(s.f.placed, path, k, i) ensures i < s.q.lo {
      assert i in s.q.persisted;
      var m :| 0 <= m < |s.q.persisted| && s.q.persisted[m] == i;
    }
  }

  ghost predicate Clocked(a: Step) {
    match a
    case Attach(now, _) => InCalendar(now)
    case Rotate(now, _) => InCalendar(now)
    case _ => true
  }

  ghost predicate Kept(s: State) {
    Located(s.f.placed, s.q.persisted) && InDayOrder(s.f.placed) && Dated(s.f, s.attached)
  }

  lemma StepKeepsLocated(s: State, a: Step)
    requires Inv(s) && Kept(s) && Clocked(a)
    ensures Kept(Next(s, a))
  {
    hide CountInv, OrderInv, DiskInv, OpenLog, LogPathAt, DayStart, InCalendar, Located, InDayOrder, OthersEarlier, OpenedBy;
    match a
    case Attach(now, io) =>
      if !s.attached && now > 0 { OpenKeepsLocated(s.f, s.attached, now, io, s.q.persisted); }
    case Rotate(now, io) =>
      if s.attached && s.phase == AtTop && s.f.day < DayStart(now) {
        OpenKeepsLocated(s.f, s.attached, now, io, s.q.persisted);
      }
    case Persist(write) =>
      if s.phase == Persisting {
        PlacedComeBefore(s);
        if s.f.current.Some? { AppendKeepsLocated(s.f.placed, s.f.current.value, s.q.persisted, s.q.lo); }
      }
    case _ =>
  }

  lemma {:induction false} RunKeepsLocated(disk: map<string, LogFile>, steps: seq<Step>)
    requires forall j :: 0 <= j < |steps| ==> Clocked(steps[j])
    ensures Kept(Boot(disk, steps))
    decreases |steps|
  {
    hide Inv, Next, Clocked;
    if steps == [] {
      assert Kept(Init(disk));
    } else {
      var init := steps[..|steps| - 1];
      RunKeepsLocated(disk, init);
      StepKeepsLocated(Boot(disk, init), steps[|steps| - 1]);
    }
  }

  // Entry i of the run is the record in slot base + k of the file.
  ghost predicate StoredAt(t: State, path: string, k: nat, i: nat) {
    && At(t.f.placed, path, k, i) && path in t.f.disk && i < |t.q.history|
    && var slot := Offset(t.f.placed[path].base + k);
       slot in t.f.disk[path].records && t.f.disk[path].records[slot] == t.q.history[i]
  }

  lemma PlacedIsStored(t: State, path: string, k: nat, i: nat)
    requires Inv(t) && At(t.f.placed, path, k, i)
    ensures StoredAt(t, path, k, i)
  {
    hide QueueInv, FileInv, Offset;
    assert HoldsAt(t.f.disk[path], t.f.placed[path], t.q.history, k);
  }

  // What the flusher counts as written is on the disk, each entry in one place only.
  lemma {:induction false} PersistedIsStoredOnce(disk: map<string, LogFile>, steps: seq<Step>, i: nat)
    requires (forall j :: 0 <= j < |steps| ==> Clocked(steps[j])) && i in Boot(disk, steps).q.persisted
    ensures exists path, k :: StoredAt(Boot(disk, steps), path, k, i)
    ensures forall p, k, q, l ::
      StoredAt(Boot(disk, steps), p, k, i) && StoredAt(Boot(disk, steps), q, l, i) ==> p == q && k == l
  {
    hide Boot, Inv, Clocked;
    RunKeepsLocated(disk, steps);
    var t := Boot(disk, steps);
    var path, k :| At(t.f.placed, path, k, i);
    PlacedIsStored(t, path, k, i);
    forall p, m, q, l | StoredAt(t, p, m, i) && StoredAt(t, q, l, i) ensures p == q && m == l {
      OneSlotPerEntry(t, p, m, l, i);
    }
  }

  // Reading the files in the order of their days, and each in the order of its slots, gives the
  // written entries in the order they were enqueued.
  lemma {:induction false} DiskOrderIsEnqueueOrder(
      disk: map<string, LogFile>, steps: seq<Step>, p: string, k: nat, i: nat, q: string, l: nat, j: nat)
    requires forall m :: 0 <= m < |steps| ==> Clocked(steps[m])
    requires StoredAt(Boot(disk, steps), p, k, i) && StoredAt(Boot(disk, steps), q, l, j)
    ensures i < j <==> (p == q && k < l) || Earlier(p, q)
  {
    hide Boot, Inv, Clocked, Earlier;
    RunKeepsLocated(disk, steps);
    var t := Boot(disk, steps);
    if p == q {
      SlotsFollowIndices(t, p, k, i, l, j);
      if Earlier(p, q) { EarlierIsStrict(p, q); }
    } else {
      OrderAcrossFiles(t.f.placed, t.q.persisted, p, k, i, q, l, j);
    }
  }

  lemma OrderAcrossFiles(placed: map<string, Placement>, persisted: seq<nat>, p: string, k: nat, i: nat, q: string, l: nat, j: nat)
    requires Located(placed, persisted) && InDayOrder(placed) && At(placed, p, k, i) && At(placed, q, l, j) && p != q
    ensures i < j <==> Earlier(p, q)
  {
    hide Earlier;
    if i >= j && Earlier(p, q) {
      assert i != j;
      EarlierIsStrict(p, q);
    }
  }

  lemma SlotsFollowIndices(t: State, path: string, k: nat, i: nat, l: nat, j: nat)
    requires Inv(t) && At(t.f.placed, path, k, i) && At(t.f.placed, path, l, j)
    ensures i < j <==> k < l
  {
    hide QueueInv, FileInv;
    assert Increasing(t.f.placed[path].indices);
  }

  lemma OneSlotPerEntry(t: State, path: string, k: nat, l: nat, i: nat)
    requires Inv(t) && At(t.f.placed, path, k, i)
    ensures At(t.f.placed, path, l, i) ==> k == l
  {
    hide QueueInv, FileInv;
    if path in t.f.placed { assert Increasing(t.f.placed[path].indices); }
  }
}
