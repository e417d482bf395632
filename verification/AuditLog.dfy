/**
 The audit pipeline of kernel/audit.c as a step system.

 Producers append to an overwrite-oldest queue; one flusher drains it in batches and
 writes each entry to the log file of the day.  Every section the source runs under the
 queue lock, and every file-system call, is one step; a failed write and the count of its
 loss, which only the flusher touches, are one step too.  A run is any sequence of steps,
 so it covers every interleaving of producers with the flusher.  File-system calls succeed
 or fail as the step says.

 `history`, `fates`, `persisted` and `placed` are bookkeeping the source does not keep:
 everything ever enqueued, what became of each entry, and where the written ones went.
 */
module AuditLog {
  import opened Calendar
  import opened Options

  const QUEUE_SIZE := 1024
  const FLUSH_BATCH := 32
  const HEADER_SIZE := 32
  const ENTRY_SIZE := 256
  const FILE_CAP := 48 * 1024

  // The fields the pipeline looks at; the remaining bytes of the record are carried along.
  datatype Entry = Entry(magic: nat, eventType: nat, ns: nat, rest: string)

  datatype Fate = Pending | Drained | Persisted | Dropped | Overwritten

  // The queue: total_written is |history|, disk_cursor is cursor, and history[lo..hi] is the
  // part of the flusher's batch it has not processed yet.
  datatype Queue = Queue(
    history: seq<Entry>, fates: seq<Fate>, cursor: nat, overwritten: nat, dropped: nat,
    lo: nat, hi: nat, persisted: seq<nat>)

  datatype Header = Header(daySeconds: int, count: nat)

  // A log file: its header, unless missing or corrupt, and the record stored at each byte offset.
  datatype LogFile = LogFile(header: Option<Header>, records: map<nat, Entry>)

  // The entries of this run written to a file since it was opened with `base` entries in it.
  datatype Placement = Placement(base: nat, indices: seq<nat>)

  // The disk, and what the flusher remembers of the file it appends to.
  datatype Files = Files(
    disk: map<string, LogFile>, current: Option<string>, day: int, size: nat, count: nat,
    placed: map<string, Placement>)

  // Where the flusher is in its loop.
  datatype Phase = AtTop | Rotated | Persisting | Syncing

  datatype State = State(q: Queue, f: Files, attached: bool, phase: Phase, wrote: bool)

  // What the file system answers while a log is opened: whether the new file can be created and
  // found, whether an existing header can be read, and the outcome of writing a fresh one.
  datatype OpenIo = OpenIo(createOk: bool, findOk: bool, readOk: bool, write: HeaderWrite)

  // A failed write leaves anything behind.
  datatype HeaderWrite = HeaderOk | HeaderTorn(left: Option<Header>)
  datatype RecordWrite = RecordOk | RecordTorn(left: Option<Entry>)

  datatype Step =
    | Enqueue(e: Entry)
    | Attach(now: int, open: OpenIo)
    | Rotate(now: int, open: OpenIo)
    | Drain
    | Persist(write: RecordWrite)
    | SyncHeader(header: HeaderWrite)

  // ---------------------------------------------------------------------------
  // Invariants
  // ---------------------------------------------------------------------------

  function Count(f: seq<Fate>, x: Fate): nat {
    if f == [] then 0 else Count(f[..|f| - 1], x) + if f[|f| - 1] == x then 1 else 0
  }

  // The flusher's position in the queue.
  ghost predicate CursorInv(q: Queue) {
    && |q.fates| == |q.history|
    && q.cursor <= |q.history| <= q.cursor + QUEUE_SIZE
    && q.lo <= q.hi <= q.cursor && q.hi - q.lo <= FLUSH_BATCH
    && (forall i :: q.cursor <= i < |q.fates| ==> q.fates[i] == Pending)
    && (forall i :: q.lo <= i < q.hi ==> q.fates[i] == Drained)
  }

  // The counters are the numbers of entries with each fate.
  ghost predicate CountInv(q: Queue) {
    && Count(q.fates, Overwritten) == q.overwritten
    && Count(q.fates, Dropped) == q.dropped
    && Count(q.fates, Persisted) == |q.persisted|
    && Count(q.fates, Drained) == q.hi - q.lo
    && Count(q.fates, Pending) == |q.history| - q.cursor
  }

  ghost predicate Increasing(t: seq<nat>) { forall i, j :: 0 <= i < j < |t| ==> t[i] < t[j] }

  // The writes follow enqueue order without repetition, and stay behind the current batch.
  ghost predicate OrderInv(q: Queue) {
    && Increasing(q.persisted)
    && forall k :: 0 <= k < |q.persisted| ==>
         && q.persisted[k] < (if q.lo < q.hi then q.lo else q.cursor)
         && q.persisted[k] < |q.fates| && q.fates[q.persisted[k]] == Persisted
  }

  ghost predicate QueueInv(q: Queue) { CursorInv(q) && CountInv(q) && OrderInv(q) }

  function Offset(slot: nat): nat { HEADER_SIZE + slot * ENTRY_SIZE }

  // The file holds the k-th entry placed in it.
  ghost predicate HoldsAt(f: LogFile, p: Placement, history: seq<Entry>, k: nat)
    requires k < |p.indices|
  {
    && p.indices[k] < |history|
    && Offset(p.base + k) in f.records
    && f.records[Offset(p.base + k)] == history[p.indices[k]]
  }

  // The file holds, from slot `base` on, the entries placed in it, in enqueue order.
  ghost predicate Holds(f: LogFile, p: Placement, history: seq<Entry>) {
    Increasing(p.indices) && forall k :: 0 <= k < |p.indices| ==> HoldsAt(f, p, history, k)
  }

  ghost predicate DiskInv(f: Files, history: seq<Entry>, persisted: seq<nat>) {
    forall path :: path in f.placed ==>
      && path in f.disk
      && Holds(f.disk[path], f.placed[path], history)
      && forall k :: 0 <= k < |f.placed[path].indices| ==> f.placed[path].indices[k] in persisted
  }

  const MAX_ENTRIES := (FILE_CAP - HEADER_SIZE) / ENTRY_SIZE

  // The current file's size and entry count, and the bound the size cap puts on them.
  ghost predicate FileInv(f: Files) {
    f.current.Some? ==>
      && f.current.value in f.disk && f.current.value in f.placed
      && f.size == Offset(f.count)
      && var p := f.placed[f.current.value];
         f.count == p.base + |p.indices| && (f.count <= MAX_ENTRIES || p.indices == [])
  }

  ghost predicate Inv(s: State) {
    && QueueInv(s.q)
    && DiskInv(s.f, s.q.history, s.q.persisted)
    && FileInv(s.f)
    && (s.phase == Persisting <==> s.q.lo < s.q.hi)
    && (!s.attached ==> s.phase == AtTop)
  }

  // ---------------------------------------------------------------------------
  // Steps on the queue
  // ---------------------------------------------------------------------------

  function Mark(f: seq<Fate>, lo: nat, hi: nat, x: Fate): (r: seq<Fate>)
    ensures |r| == |f|
    ensures forall i :: 0 <= i < |f| ==> r[i] == if lo <= i < hi then x else f[i]
  {
    seq(|f|, i requires 0 <= i < |f| => if lo <= i < hi then x else f[i])
  }

  // audit_enqueue: append, and skip the flusher past an entry that no longer fits.
  function QEnqueue(q: Queue, e: Entry): Queue {
    var total := |q.history| + 1;
    var r := q.(history := q.history + [e], fates := q.fates + [Pending]);
    if total - q.cursor > QUEUE_SIZE then
      var lost := total - q.cursor - QUEUE_SIZE;
      r.(overwritten := q.overwritten + lost, cursor := q.cursor + lost,
         fates := Mark(r.fates, q.cursor, q.cursor + lost, Overwritten))
    else r
  }

  function BatchSize(q: Queue): nat
    requires q.cursor <= |q.history|
  {
    if |q.history| - q.cursor < FLUSH_BATCH then |q.history| - q.cursor else FLUSH_BATCH
  }

  // The locked loop of the flusher: take the oldest pending entries, at most a batch.
  function QDrain(q: Queue): Queue
    requires q.cursor <= |q.history|
  {
    var next := q.cursor + BatchSize(q);
    q.(lo := q.cursor, hi := next, cursor := next, fates := Mark(q.fates, q.cursor, next, Drained))
  }

  function QDrop(q: Queue): Queue {
    q.(lo := q.lo + 1, dropped := q.dropped + 1, fates := Mark(q.fates, q.lo, q.lo + 1, Dropped))
  }

  function QPersist(q: Queue): Queue {
    q.(lo := q.lo + 1, persisted := q.persisted + [q.lo], fates := Mark(q.fates, q.lo, q.lo + 1, Persisted))
  }

  // ---------------------------------------------------------------------------
  // Steps on the files
  // ---------------------------------------------------------------------------

  function Store(f: Files, path: string, log: LogFile): Files { f.(disk := f.disk[path := log]) }

  // The tail of open_today_log: the file becomes the current one, holding `existing` entries.
  function UseFile(f: Files, path: string, now: int, existing: nat): Files {
    f.(current := Some(path), day := DayStart(now), size := HEADER_SIZE + existing * ENTRY_SIZE, count := existing,
       placed := f.placed[path := Placement(existing, [])])
  }

  function WithFreshHeader(f: Files, path: string, now: int, log: LogFile, write: HeaderWrite): Files {
    match write
    case HeaderOk => UseFile(Store(f, path, log.(header := Some(Header(DayStart(now), 0)))), path, now, 0)
    case HeaderTorn(left) => Store(f, path, log.(header := left))
  }

  // open_today_log with no current file; on failure there is still none.
  function OpenLog(f: Files, now: int, io: OpenIo): Files {
    var path := LogPathAt(now);
    if path !in f.disk then
      if !io.createOk then f
      else if !io.findOk then Store(f, path, LogFile(None, map[]))
      else WithFreshHeader(f, path, now, LogFile(None, map[]), io.write)
    else if io.readOk && f.disk[path].header.Some? then
      UseFile(f, path, now, f.disk[path].header.value.count)
    else
      WithFreshHeader(f, path, now, f.disk[path], io.write)
  }

  // The write of persist_one_entry at the append offset, and its effect on the file's counters.
  function FAppend(f: Files, e: Entry, index: nat): Files
    requires f.current.Some? && f.current.value in f.disk && f.current.value in f.placed
  {
    var path := f.current.value;
    var p := f.placed[path];
    Store(f, path, f.disk[path].(records := f.disk[path].records[f.size := e]))
    .(size := f.size + ENTRY_SIZE, count := f.count + 1, placed := f.placed[path := p.(indices := p.indices + [index])])
  }

  function FTorn(f: Files, left: Option<Entry>): Files
    requires f.current.Some? && f.current.value in f.disk
  {
    var records := f.disk[f.current.value].records;
    Store(f, f.current.value, f.disk[f.current.value].(
      records := if left.Some? then records[f.size := left.value] else records - {f.size}))
  }

  // update_header_count
  function FSync(f: Files, header: HeaderWrite): Files
    requires f.current.Some? && f.current.value in f.disk
  {
    var h := match header case HeaderOk => Some(Header(f.day, f.count)) case HeaderTorn(left) => left;
    Store(f, f.current.value, f.disk[f.current.value].(header := h))
  }

  // ---------------------------------------------------------------------------
  // The step system
  // ---------------------------------------------------------------------------

  // The next phase once an entry of the batch has been processed.
  function AfterEntry(q: Queue, wrote: bool): Phase {
    if q.lo < q.hi then Persisting else if wrote then Syncing else AtTop
  }

  // persist_one_entry for the next entry of the batch, and the drop count when it fails.
  function PersistStep(s: State, write: RecordWrite): State
    requires Inv(s) && s.phase == Persisting
  {
    if s.f.current.Some? && s.f.size + ENTRY_SIZE <= FILE_CAP && write.RecordOk? then
      var q := QPersist(s.q);
      s.(q := q, f := FAppend(s.f, s.q.history[s.q.lo], s.q.lo), wrote := true, phase := AfterEntry(q, true))
    else
      var torn := s.f.current.Some? && s.f.size + ENTRY_SIZE <= FILE_CAP;
      var q := QDrop(s.q);
      s.(q := q, f := if torn then FTorn(s.f, write.left) else s.f, phase := AfterEntry(q, s.wrote))
  }

  // A step that is not the flusher's next one leaves the state as it is.
  function Next(s: State, a: Step): State
    requires Inv(s)
  {
    match a
    case Enqueue(e) => s.(q := QEnqueue(s.q, e))
    case Attach(now, io) =>
      if s.attached || now <= 0 then s
      else
        var f := OpenLog(s.f.(current := None), now, io);
        s.(f := f, attached := f.current.Some?)
    case Rotate(now, io) =>
      if !s.attached || s.phase != AtTop then s
      else if DayStart(now) <= s.f.day then s.(phase := Rotated)
      else s.(f := OpenLog(s.f.(current := None), now, io), phase := Rotated)
    case Drain =>
      if s.phase != Rotated then s
      else if BatchSize(s.q) == 0 then s.(phase := AtTop)
      else s.(q := QDrain(s.q), phase := Persisting, wrote := false)
    case Persist(write) =>
      if s.phase == Persisting then PersistStep(s, write) else s
    case SyncHeader(header) =>
      if s.phase != Syncing then s
      else if s.f.current.None? then s.(phase := AtTop)
      else s.(f := FSync(s.f, header), phase := AtTop)
  }

  // audit_init over whatever the disk already holds.
  function Init(disk: map<string, LogFile>): State {
    State(Queue([], [], 0, 0, 0, 0, 0, []), Files(disk, None, 0, 0, 0, map[]), false, AtTop, false)
  }

  // ---------------------------------------------------------------------------
  // Counting fates
  // ---------------------------------------------------------------------------

  lemma {:induction false} CountTotal(f: seq<Fate>)
    ensures Count(f, Pending) + Count(f, Drained) + Count(f, Persisted) + Count(f, Dropped) + Count(f, Overwritten) == |f|
  {
    if f != [] { CountTotal(f[..|f| - 1]); }
  }

  lemma CountAppend(f: seq<Fate>, x: Fate, y: Fate)
    ensures Count(f + [x], y) == Count(f, y) + if x == y then 1 else 0
  {
    assert (f + [x])[..|f|] == f;
  }

  function Moved(n: nat, was: Fate, x: Fate, y: Fate): int {
    (if x == y then n else 0) - if was == y then n else 0
  }

  lemma CountLast(f: seq<Fate>, y: Fate)
    requires f != []
    ensures Count(f, y) == Count(f[..|f| - 1], y) + if f[|f| - 1] == y then 1 else 0
  {
  }

  lemma MarkPrefix(f: seq<Fate>, lo: nat, hi: nat, x: Fate, n: nat)
    requires n <= |f|
    ensures Mark(f, lo, hi, x)[..n] == Mark(f[..n], lo, if hi <= n then hi else n, x)
  {
    hide Mark;
  }

  // Marking a stretch that had one fate moves its length from that count to the new one.
  lemma {:induction false} CountMark(f: seq<Fate>, lo: nat, hi: nat, was: Fate, x: Fate, y: Fate)
    requires lo <= hi <= |f| && forall i :: lo <= i < hi ==> f[i] == was
    ensures Count(Mark(f, lo, hi, x), y) == Count(f, y) + Moved(hi - lo, was, x, y)
    decreases |f|
  {
    hide Mark, Count;
    var m := Mark(f, lo, hi, x);
    if lo == hi {
      assert m == f;
    } else {
      var n := |f| - 1;
      MarkPrefix(f, lo, hi, x, n);
      CountMark(f[..n], lo, if hi <= n then hi else n, was, x, y);
      CountLast(m, y);
      CountLast(f, y);
    }
  }

  // ---------------------------------------------------------------------------
  // Every step keeps the invariants
  // ---------------------------------------------------------------------------

  lemma EnqueueKeepsQueue(q: Queue, e: Entry)
    requires QueueInv(q)
    ensures QueueInv(QEnqueue(q, e))
  {
    hide Count;
    var fates := q.fates + [Pending];
    forall y { CountAppend(q.fates, Pending, y); }
    if |q.history| + 1 - q.cursor > QUEUE_SIZE {
      forall y { CountMark(fates, q.cursor, q.cursor + 1, Pending, Overwritten, y); }
    }
  }

  lemma DrainKeepsQueue(q: Queue)
    requires QueueInv(q) && q.lo == q.hi && BatchSize(q) > 0
    ensures QueueInv(QDrain(q))
  {
    hide Count;
    forall y { CountMark(q.fates, q.cursor, q.cursor + BatchSize(q), Pending, Drained, y); }
  }

  lemma DropKeepsQueue(q: Queue)
    requires QueueInv(q) && q.lo < q.hi
    ensures QueueInv(QDrop(q))
  {
    hide Count;
    forall y { CountMark(q.fates, q.lo, q.lo + 1, Drained, Dropped, y); }
  }

  lemma PersistKeepsQueue(q: Queue)
    requires QueueInv(q) && q.lo < q.hi
    ensures QueueInv(QPersist(q))
  {
    hide Count;
    forall y { CountMark(q.fates, q.lo, q.lo + 1, Drained, Persisted, y); }
  }

  // What a file holds of a placement stays when the history grows and no record changes but the one
  // right behind the placement.
  lemma StillHolds(a: LogFile, b: LogFile, p: Placement, history: seq<Entry>, longer: seq<Entry>)
    requires Holds(a, p, history) && history <= longer
    requires forall o :: o in a.records && o != Offset(p.base + |p.indices|) ==> o in b.records && b.records[o] == a.records[o]
    ensures Holds(b, p, longer)
  {
    hide Increasing;
    forall k | 0 <= k < |p.indices| ensures HoldsAt(b, p, longer, k) {
      assert HoldsAt(a, p, history, k);
      var o := Offset(p.base + k);
      assert o in a.records && o != Offset(p.base + |p.indices|);
    }
  }

  // Appending the next entry of the history behind the placement extends it.
  lemma HoldsAppended(a: LogFile, p: Placement, history: seq<Entry>, index: nat)
    requires Holds(a, p, history) && index < |history| && forall k :: 0 <= k < |p.indices| ==> p.indices[k] < index
    ensures
      var slot := Offset(p.base + |p.indices|);
      Holds(a.(records := a.records[slot := history[index]]), p.(indices := p.indices + [index]), history)
  {
    var n := |p.indices|;
    var b := a.(records := a.records[Offset(p.base + n) := history[index]]);
    var q := p.(indices := p.indices + [index]);
    StillHolds(a, b, p, history, history);
    assert Increasing(q.indices);
    forall k | 0 <= k < |q.indices| ensures HoldsAt(b, q, history, k) {
      if k < n { assert HoldsAt(b, p, history, k) && q.indices[k] == p.indices[k]; }
    }
  }

  // What DiskInv says of one file.
  ghost predicate FileHolds(f: Files, path: string, history: seq<Entry>, persisted: seq<nat>) {
    && path in f.placed && path in f.disk && Holds(f.disk[path], f.placed[path], history)
    && forall k :: 0 <= k < |f.placed[path].indices| ==> f.placed[path].indices[k] in persisted
  }

  lemma DiskOfFiles(f: Files, history: seq<Entry>, persisted: seq<nat>)
    ensures DiskInv(f, history, persisted) <==> forall path :: path in f.placed ==> FileHolds(f, path, history, persisted)
  {
    hide Holds;
  }

  lemma EnqueueKeepsDisk(f: Files, q: Queue, e: Entry)
    requires DiskInv(f, q.history, q.persisted)
    ensures DiskInv(f, q.history + [e], q.persisted)
  {
    hide Holds, DiskInv;
    DiskOfFiles(f, q.history, q.persisted);
    DiskOfFiles(f, q.history + [e], q.persisted);
    forall path | path in f.placed ensures FileHolds(f, path, q.history + [e], q.persisted) {
      assert FileHolds(f, path, q.history, q.persisted);
      StillHolds(f.disk[path], f.disk[path], f.placed[path], q.history, q.history + [e]);
    }
  }

  // Opening a log either fails, or adds an empty placement for the file of the day; it keeps all records.
  lemma OpenEffect(f: Files, now: int, io: OpenIo)
    ensures
      var g := OpenLog(f.(current := None), now, io);
      || (g.placed == f.placed && g.day == f.day && g.current.None?)
      || (g.current == Some(LogPathAt(now)) && g.day == DayStart(now) && g.size == Offset(g.count)
          && LogPathAt(now) in g.disk && g.placed == f.placed[LogPathAt(now) := Placement(g.count, [])])
  {
    hide LogPathAt, DayStart;
  }

  lemma OpenKeepsRecords(f: Files, now: int, io: OpenIo, path: string)
    requires path in f.disk
    ensures
      var g := OpenLog(f.(current := None), now, io);
      path in g.disk && g.disk[path].records == f.disk[path].records
  {
    hide LogPathAt, DayStart;
  }

  lemma OpenKeepsFiles(f: Files, now: int, io: OpenIo, q: Queue)
    requires DiskInv(f, q.history, q.persisted)
    ensures DiskInv(OpenLog(f.(current := None), now, io), q.history, q.persisted)
    ensures FileInv(OpenLog(f.(current := None), now, io))
  {
    hide LogPathAt, DayStart, OpenLog, Holds, DiskInv, Offset;
    var g := OpenLog(f.(current := None), now, io);
    OpenEffect(f, now, io);
    DiskOfFiles(f, q.history, q.persisted);
    DiskOfFiles(g, q.history, q.persisted);
    forall path | path in g.placed ensures FileHolds(g, path, q.history, q.persisted) {
      if path in f.placed && g.placed[path] == f.placed[path] {
        assert FileHolds(f, path, q.history, q.persisted);
        OpenKeepsRecords(f, now, io, path);
        SameRecordsHold(f.disk[path], g.disk[path], f.placed[path], q.history);
      } else {
        NothingPlacedHolds(g.disk[path], g.placed[path], q.history);
      }
    }
  }

  lemma NothingPlacedHolds(a: LogFile, p: Placement, history: seq<Entry>)
    requires p.indices == []
    ensures Holds(a, p, history)
  {
  }

  lemma SameRecordsHold(a: LogFile, b: LogFile, p: Placement, history: seq<Entry>)
    requires Holds(a, p, history) && a.records == b.records
    ensures Holds(b, p, history)
  {
    hide Holds;
    StillHolds(a, b, p, history, history);
  }

  lemma PlacedBeforeBatch(f: Files, q: Queue, path: string)
    requires FileHolds(f, path, q.history, q.persisted) && OrderInv(q) && q.lo < q.hi
    ensures forall k :: 0 <= k < |f.placed[path].indices| ==> f.placed[path].indices[k] < q.lo
  {
    hide Holds, Increasing;
    var p := f.placed[path];
    forall k | 0 <= k < |p.indices| ensures p.indices[k] < q.lo {
      assert p.indices[k] in q.persisted;
      var m :| 0 <= m < |q.persisted| && q.persisted[m] == p.indices[k];
    }
  }

  lemma AppendKeepsFiles(f: Files, q: Queue)
    requires DiskInv(f, q.history, q.persisted) && FileInv(f) && f.current.Some? && f.size + ENTRY_SIZE <= FILE_CAP
    requires CursorInv(q) && OrderInv(q) && q.lo < q.hi
    ensures DiskInv(FAppend(f, q.history[q.lo], q.lo), q.history, q.persisted + [q.lo])
    ensures FileInv(FAppend(f, q.history[q.lo], q.lo))
  {
    hide Holds, DiskInv, OrderInv;
    var g, path := FAppend(f, q.history[q.lo], q.lo), f.current.value;
    DiskOfFiles(f, q.history, q.persisted);
    DiskOfFiles(g, q.history, q.persisted + [q.lo]);
    assert FileHolds(f, path, q.history, q.persisted);
    PlacedBeforeBatch(f, q, path);
    HoldsAppended(f.disk[path], f.placed[path], q.history, q.lo);
    forall other | other in g.placed ensures FileHolds(g, other, q.history, q.persisted + [q.lo]) {
      assert FileHolds(f, other, q.history, q.persisted);
    }
  }

  lemma TornKeepsFiles(f: Files, left: Option<Entry>, q: Queue)
    requires DiskInv(f, q.history, q.persisted) && FileInv(f) && f.current.Some?
    ensures DiskInv(FTorn(f, left), q.history, q.persisted) && FileInv(FTorn(f, left))
  {
    hide Holds, DiskInv, Offset;
    var g, path := FTorn(f, left), f.current.value;
    DiskOfFiles(f, q.history, q.persisted);
    DiskOfFiles(g, q.history, q.persisted);
    assert FileHolds(f, path, q.history, q.persisted);
    StillHolds(f.disk[path], g.disk[path], f.placed[path], q.history, q.history);
    forall other | other in g.placed ensures FileHolds(g, other, q.history, q.persisted) {
      assert FileHolds(f, other, q.history, q.persisted);
    }
  }

  lemma SyncKeepsFiles(f: Files, header: HeaderWrite, q: Queue)
    requires DiskInv(f, q.history, q.persisted) && FileInv(f) && f.current.Some?
    ensures DiskInv(FSync(f, header), q.history, q.persisted) && FileInv(FSync(f, header))
  {
    hide Holds, DiskInv, Offset;
    var g, path := FSync(f, header), f.current.value;
    DiskOfFiles(f, q.history, q.persisted);
    DiskOfFiles(g, q.history, q.persisted);
    assert FileHolds(f, path, q.history, q.persisted);
    SameRecordsHold(f.disk[path], g.disk[path], f.placed[path], q.history);
    forall other | other in g.placed ensures FileHolds(g, other, q.history, q.persisted) {
      assert FileHolds(f, other, q.history, q.persisted);
    }
  }

  lemma EnqueueKeepsInv(s: State, e: Entry)
    requires Inv(s)
    ensures Inv(Next(s, Enqueue(e)))
  {
    hide CountInv, OrderInv, DiskInv, FileInv;
    EnqueueKeepsQueue(s.q, e);
    EnqueueKeepsDisk(s.f, s.q, e);
  }

  lemma OpenStepsKeepInv(s: State, now: int, io: OpenIo)
    requires Inv(s)
    ensures Inv(Next(s, Attach(now, io))) && Inv(Next(s, Rotate(now, io)))
  {
    hide QueueInv, DiskInv, FileInv, OpenLog, DayStart;
    OpenKeepsFiles(s.f, now, io, s.q);
  }

  lemma DrainKeepsInv(s: State)
    requires Inv(s)
    ensures Inv(Next(s, Drain))
  {
    hide CountInv, OrderInv, DiskInv, FileInv;
    if BatchSize(s.q) > 0 && s.phase == Rotated { DrainKeepsQueue(s.q); }
  }

  lemma PersistKeepsInv(s: State, write: RecordWrite)
    requires Inv(s)
    ensures Inv(Next(s, Persist(write)))
  {
    hide CountInv, OrderInv, DiskInv, FAppend, FTorn;
    if s.phase == Persisting {
      DropKeepsQueue(s.q);
      PersistKeepsQueue(s.q);
      if s.f.current.Some? && s.f.size + ENTRY_SIZE <= FILE_CAP {
        AppendKeepsFiles(s.f, s.q);
        if write.RecordTorn? { TornKeepsFiles(s.f, write.left, s.q); }
      }
    }
  }

  lemma SyncKeepsInv(s: State, header: HeaderWrite)
    requires Inv(s)
    ensures Inv(Next(s, SyncHeader(header)))
  {
    hide QueueInv, DiskInv, FSync;
    if s.f.current.Some? { SyncKeepsFiles(s.f, header, s.q); }
  }

  lemma {:induction false} NextKeepsInv(s: State, a: Step)
    requires Inv(s)
    ensures Inv(Next(s, a))
  {
    hide Inv, Next;
    match a
    case Enqueue(e) => EnqueueKeepsInv(s, e);
    case Attach(now, io) => OpenStepsKeepInv(s, now, io);
    case Rotate(now, io) => OpenStepsKeepInv(s, now, io);
    case Drain => DrainKeepsInv(s);
    case Persist(write) => PersistKeepsInv(s, write);
    case SyncHeader(header) => SyncKeepsInv(s, header);
  }

  lemma InitInv(disk: map<string, LogFile>)
    ensures Inv(Init(disk))
  {
    hide QueueInv;
    EmptyQueueInv(Init(disk).q);
  }

  lemma EmptyQueueInv(q: Queue)
    requires q.history == [] && q.fates == [] && q.persisted == []
    requires q.cursor == q.overwritten == q.dropped == q.lo == q.hi == 0
    ensures QueueInv(q)
  {
  }

  // ---------------------------------------------------------------------------
  // Whole runs
  // ---------------------------------------------------------------------------

  function Run(s: State, steps: seq<Step>): (t: State)
    requires Inv(s)
    ensures Inv(t)
    decreases |steps|
  {
    hide Inv, Next;
    if steps == [] then s
    else
      var u := Run(s, steps[..|steps| - 1]);
      NextKeepsInv(u, steps[|steps| - 1]);
      Next(u, steps[|steps| - 1])
  }

  // The run of the kernel from boot.
  function Boot(disk: map<string, LogFile>, steps: seq<Step>): (t: State)
    ensures Inv(t)
  {
    hide Inv, Next, Run;
    InitInv(disk);
    Run(Init(disk), steps)
  }

  lemma RunSnoc(s: State, steps: seq<Step>, a: Step)
    requires Inv(s)
    ensures Run(s, steps + [a]) == Next(Run(s, steps), a)
  {
    hide Inv, Next;
    assert (steps + [a])[..|steps|] == steps;
  }

  lemma BootSnoc(disk: map<string, LogFile>, steps: seq<Step>, a: Step)
    ensures Boot(disk, steps + [a]) == Next(Boot(disk, steps), a)
  {
    hide Inv, Next, Run;
    InitInv(disk);
    RunSnoc(Init(disk), steps, a);
  }

  function Enqueued(steps: seq<Step>): seq<Entry> {
    if steps == [] then []
    else
      var last := steps[|steps| - 1];
      Enqueued(steps[..|steps| - 1]) + if last.Enqueue? then [last.e] else []
  }

  lemma StepHistory(s: State, a: Step)
    requires Inv(s)
    ensures Next(s, a).q.history == s.q.history + if a.Enqueue? then [a.e] else []
  {
    hide QueueInv, DiskInv, FileInv, OpenLog;
  }

  lemma {:induction false} HistoryIsWhatWasEnqueued(disk: map<string, LogFile>, steps: seq<Step>)
    ensures Boot(disk, steps).q.history == Enqueued(steps)
    decreases |steps|
  {
    hide Inv, Next;
    if steps != [] {
      HistoryIsWhatWasEnqueued(disk, steps[..|steps| - 1]);
      StepHistory(Boot(disk, steps[..|steps| - 1]), steps[|steps| - 1]);
    }
  }

  // No entry is lost uncounted, in any interleaving.
  lemma {:induction false} EveryEntryAccountedFor(disk: map<string, LogFile>, steps: seq<Step>)
    ensures
      var q := Boot(disk, steps).q;
      && |Enqueued(steps)| ==
           |q.persisted| + q.dropped + q.overwritten + (q.hi - q.lo) + (|Enqueued(steps)| - q.cursor)
      && 0 <= |Enqueued(steps)| - q.cursor <= QUEUE_SIZE
      && 0 <= q.hi - q.lo <= FLUSH_BATCH
  {
    HistoryIsWhatWasEnqueued(disk, steps);
    hide Boot, DiskInv, FileInv, Count;
    CountTotal(Boot(disk, steps).q.fates);
  }

  // The writes follow enqueue order without repetition, and each file holds, in consecutive slots, the
  // entries of an increasing part of the written indices.  The order across files is AuditDisk's.
  lemma {:induction false} DiskHoldsSubsequence(disk: map<string, LogFile>, steps: seq<Step>)
    ensures
      var t := Boot(disk, steps);
      && Increasing(t.q.persisted)
      && (forall k :: 0 <= k < |t.q.persisted| ==> t.q.persisted[k] < |Enqueued(steps)|)
      && DiskInv(t.f, Enqueued(steps), t.q.persisted)
  {
    hide Boot, CountInv, DiskInv, FileInv;
    HistoryIsWhatWasEnqueued(disk, steps);
  }

  // A file created by this kernel keeps its size formula and the file system's size cap.
  lemma {:induction false} FreshFileStaysWithinCap(disk: map<string, LogFile>, steps: seq<Step>)
    requires
      var f := Boot(disk, steps).f;
      f.current.Some? && f.placed[f.current.value].base == 0
    ensures
      var f := Boot(disk, steps).f;
      f.size == 32 + 256 * f.count <= 49152 && f.count <= 191
  {
    hide Boot, QueueInv, DiskInv;
  }

  // What a step may do to an entry's fate.
  predicate FateMayBecome(a: Fate, b: Fate) {
    || a == b
    || (a == Pending && (b == Drained || b == Overwritten))
    || (a == Drained && (b == Persisted || b == Dropped))
  }

  // Entries move pending -> drained -> persisted or dropped, or pending -> overwritten, and never back.
  lemma {:induction false} FatesOnlyAdvance(s: State, a: Step)
    requires Inv(s)
    ensures |s.q.fates| <= |Next(s, a).q.fates|
    ensures forall i :: 0 <= i < |s.q.fates| ==> FateMayBecome(s.q.fates[i], Next(s, a).q.fates[i])
  {
    hide CountInv, OrderInv, DiskInv, OpenLog;
    var t := Next(s, a);
    match a
    case Enqueue(_) =>
    case Drain =>
    case Persist(_) =>
    case _ => assert t.q == s.q;
  }

  // No step changes a record on the disk other than the one at the current append offset.
  lemma {:induction false} OnlyTheTailIsWritten(s: State, a: Step, path: string, offset: nat)
    requires Inv(s) && path in s.f.disk && offset in s.f.disk[path].records
    requires !(s.f.current == Some(path) && offset == s.f.size)
    ensures path in Next(s, a).f.disk && offset in Next(s, a).f.disk[path].records
    ensures Next(s, a).f.disk[path].records[offset] == s.f.disk[path].records[offset]
  {
    hide CountInv, OrderInv, DiskInv, LogPathAt, DayStart, OpenLog;
    match a
    case Enqueue(_) =>
    case Attach(now, io) => OpenKeepsRecords(s.f, now, io, path);
    case Rotate(now, io) => OpenKeepsRecords(s.f, now, io, path);
    case Drain =>
    case Persist(_) =>
    case SyncHeader(_) =>
  }

  // Reopening a file whose header was just written takes over its entry count.
  lemma SyncThenOpen(f: Files, now: int, io: OpenIo)
    requires FileInv(f) && f.current == Some(LogPathAt(now)) && io.readOk
    ensures
      var disk := FSync(f, HeaderOk).disk;
      var g := OpenLog(Files(disk, None, 0, 0, 0, map[]), now, io);
      && g.current == f.current && g.count == f.count && g.size == f.size
      && g.disk == disk && LogPathAt(now) in disk && disk[LogPathAt(now)].records == f.disk[LogPathAt(now)].records
  {
    hide LogPathAt, DayStart;
  }

  lemma OneStepBoot(disk: map<string, LogFile>, a: Step)
    ensures Inv(Init(disk)) && Boot(disk, [a]) == Next(Init(disk), a)
  {
    hide Inv, Next;
    InitInv(disk);
    assert [a][..0] == [];
    assert Run(Init(disk), []) == Init(disk);
  }

  // After a successful header write, a reboot on the same day resumes right behind the last entry.
  lemma {:induction false} RebootResumesAtTheEnd(s: State, now: int, io: OpenIo)
    requires Inv(s) && s.phase == Syncing && s.f.current == Some(LogPathAt(now)) && now > 0 && io.readOk
    ensures
      var synced := Next(s, SyncHeader(HeaderOk));
      var p := s.f.placed[LogPathAt(now)];
      var again := Boot(synced.f.disk, [Attach(now, io)]).f;
      && again.current == s.f.current && LogPathAt(now) in again.disk
      && again.count == s.f.count == p.base + |p.indices| && again.size == s.f.size == Offset(s.f.count)
      && Holds(again.disk[LogPathAt(now)], p, s.q.history)
  {
    hide QueueInv, LogPathAt, DayStart, Boot, OpenLog, Holds;
    var synced := Next(s, SyncHeader(HeaderOk));
    OneStepBoot(synced.f.disk, Attach(now, io));
    SyncThenOpen(s.f, now, io);
    SameRecordsHold(s.f.disk[LogPathAt(now)], synced.f.disk[LogPathAt(now)], s.f.placed[LogPathAt(now)], s.q.history);
  }

  function EnqueueAll(q: Queue, es: seq<Entry>): Queue {
    if es == [] then q else QEnqueue(EnqueueAll(q, es[..|es| - 1]), es[|es| - 1])
  }

  // A flusher that stands still loses exactly what exceeds the queue, and counts it.
  lemma {:induction false} StalledFlusherLosesTheExcess(q: Queue, es: seq<Entry>)
    requires QueueInv(q)
    ensures
      var r := EnqueueAll(q, es);
      var waiting := |q.history| - q.cursor + |es|;
      && QueueInv(r) && |r.history| == |q.history| + |es|
      && r.overwritten == q.overwritten + (if waiting > QUEUE_SIZE then waiting - QUEUE_SIZE else 0)
      && |r.history| - r.cursor == (if waiting > QUEUE_SIZE then QUEUE_SIZE else waiting)
  {
    if es != [] {
      hide CountInv, OrderInv, Count;
      StalledFlusherLosesTheExcess(q, es[..|es| - 1]);
      EnqueueKeepsQueue(EnqueueAll(q, es[..|es| - 1]), es[|es| - 1]);
    }
  }
}
