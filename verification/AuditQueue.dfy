/**
 The audit queue of kernel/audit.c in place: a ring of 1024 records, the counters
 beside it, the flusher's batch and the open log file.  Each method is one locked
 section or file-system call of the source and performs the matching step of
 AuditLog; the query reads the ring as the source does.
 */
module AuditQueue {
  import opened AuditLog
  import opened Calendar
  import opened Options
  import opened Numerals

  const ENTRY_MAGIC := 0x31445541

  predicate HasBit(mask: nat, k: nat) { mask / Pow(2, k) % 2 == 1 }

  // The filter of audit_query.
  predicate Wanted(e: Entry, since: nat, until: nat, mask: nat) {
    && e.magic == ENTRY_MAGIC
    && e.ns >= since
    && (until != 0 ==> e.ns < until)
    && (mask != 0 ==> e.eventType <= 31 && HasBit(mask, e.eventType))
  }

  function Matching(h: seq<Entry>, since: nat, until: nat, mask: nat): seq<Entry> {
    if h == [] then []
    else
      Matching(h[..|h| - 1], since, until, mask)
      + if Wanted(h[|h| - 1], since, until, mask) then [h[|h| - 1]] else []
  }

  // The entries the ring still holds, oldest first.
  function Resident(history: seq<Entry>): seq<Entry> {
    if |history| > QUEUE_SIZE then history[|history| - QUEUE_SIZE..] else history
  }

  lemma ResidentSize(history: seq<Entry>)
    ensures |Resident(history)| == if |history| > QUEUE_SIZE then QUEUE_SIZE else |history|
  {
  }

  function First(s: seq<Entry>, n: nat): seq<Entry> { if |s| <= n then s else s[..n] }

  lemma {:induction false} MatchingOfPrefix(h: seq<Entry>, k: nat, since: nat, until: nat, mask: nat)
    requires k <= |h|
    ensures Matching(h[..k], since, until, mask) <= Matching(h, since, until, mask)
    decreases |h|
  {
    if k < |h| {
      MatchingOfPrefix(h[..|h| - 1], k, since, until, mask);
      assert h[..|h| - 1][..k] == h[..k];
    } else {
      assert h[..k] == h;
    }
  }

  lemma MatchingNothing(since: nat, until: nat, mask: nat)
    ensures Matching([], since, until, mask) == []
  {
  }

  lemma MatchingStep(h: seq<Entry>, k: nat, since: nat, until: nat, mask: nat)
    requires k < |h|
    ensures Matching(h[..k + 1], since, until, mask) ==
            Matching(h[..k], since, until, mask) + if Wanted(h[k], since, until, mask) then [h[k]] else []
  {
    assert h[..k + 1][..k] == h[..k];
  }

  // A scan that stops at the end or at max matches has found the first max of them.
  lemma FirstOfMatching(h: seq<Entry>, k: nat, since: nat, until: nat, mask: nat, max: nat)
    requires k <= |h| && |Matching(h[..k], since, until, mask)| <= max
    requires k == |h| || |Matching(h[..k], since, until, mask)| == max
    ensures Matching(h[..k], since, until, mask) == First(Matching(h, since, until, mask), max)
  {
    MatchingOfPrefix(h, k, since, until, mask);
    if k == |h| { assert h[..k] == h; }
  }

  // The whole effect of a persist step, field by field.
  lemma PersistEffect(s: State, write: RecordWrite)
    requires Inv(s) && s.phase == Persisting
    ensures
      var t := Next(s, Persist(write));
      var fits := s.f.current.Some? && s.f.size + ENTRY_SIZE <= FILE_CAP;
      var ok := fits && write.RecordOk?;
      && FileInv(s.f) && t.q.history == s.q.history && t.q.lo == s.q.lo + 1 && t.q.hi == s.q.hi && s.q.lo < s.q.hi <= |s.q.history|
      && t.q.cursor == s.q.cursor && t.q.overwritten == s.q.overwritten
      && t.q.dropped == s.q.dropped + (if ok then 0 else 1)
      && t.f == (if ok then FAppend(s.f, s.q.history[s.q.lo], s.q.lo) else if fits then FTorn(s.f, write.left) else s.f)
      && t.attached == s.attached && t.wrote == (s.wrote || ok)
      && t.phase == (if t.q.lo < t.q.hi then Persisting else if t.wrote then Syncing else AtTop)
  {
    hide CountInv, OrderInv, DiskInv;
  }

  lemma EnqueueEffect(s: State, e: Entry)
    requires Inv(s)
    ensures
      var t := Next(s, Enqueue(e));
      var n := |s.q.history| + 1 - s.q.cursor;
      && t == s.(q := QEnqueue(s.q, e)) && t.q.history == s.q.history + [e] && t.q.dropped == s.q.dropped
      && t.q.cursor == s.q.cursor + (if n > QUEUE_SIZE then n - QUEUE_SIZE else 0)
      && t.q.overwritten == s.q.overwritten + (if n > QUEUE_SIZE then n - QUEUE_SIZE else 0)
  {
    hide CountInv, OrderInv, DiskInv, FileInv;
  }

  lemma AttachEffect(s: State, now: int, io: OpenIo)
    requires Inv(s) && !s.attached
    ensures
      var f := OpenLog(s.f.(current := None), now, io);
      Next(s, Attach(now, io)) == if now <= 0 then s else s.(f := f, attached := f.current.Some?)
  {
    hide Inv, OpenLog;
  }

  lemma RotateEffect(s: State, now: int, io: OpenIo)
    requires Inv(s) && s.attached && s.phase == AtTop
    ensures
      var f := OpenLog(s.f.(current := None), now, io);
      Next(s, Rotate(now, io)) == s.(f := if DayStart(now) > s.f.day then f else s.f, phase := Rotated)
  {
    hide Inv, OpenLog, DayStart;
  }

  // What draining does to the fields that the kernel keeps.
  ghost predicate DrainsTo(q: Queue, next: Queue) {
    var n := if |q.history| - q.cursor < FLUSH_BATCH then |q.history| - q.cursor else FLUSH_BATCH;
    && q.cursor <= |q.history| <= q.cursor + QUEUE_SIZE && q.lo == q.hi <= |q.history|
    && next.history == q.history && next.cursor == q.cursor + n
    && next.overwritten == q.overwritten && next.dropped == q.dropped
    && (if n > 0 then next.lo == q.cursor && next.hi == q.cursor + n else next.lo == next.hi == q.lo)
  }

  lemma DrainEffect(s: State)
    requires Inv(s) && s.phase == Rotated
    ensures
      var t := Next(s, Drain);
      var some := s.q.cursor < |s.q.history|;
      && DrainsTo(s.q, t.q) && t.q.history == s.q.history && t.f == s.f && t.attached == s.attached
      && t.phase == (if some then Persisting else AtTop) && t.wrote == (!some && s.wrote)
  {
    hide CountInv, OrderInv, DiskInv, FileInv;
  }

  lemma SlotsDiffer(i: nat, j: nat)
    requires i < j < i + QUEUE_SIZE
    ensures i % QUEUE_SIZE != j % QUEUE_SIZE
  {
    assert j % 1024 == (i % 1024 + (j - i)) % 1024;
  }

  class AuditState {
    const entries: array<Entry>
    var totalWritten: nat
    var diskCursor: nat
    var overwritten: nat
    var dropped: nat
    var fsAttached: bool
    var phase: Phase
    var batch: seq<Entry>
    var batchPos: nat
    var anyWritten: bool
    var disk: map<string, LogFile>
    var currentFile: Option<string>
    var currentDaySeconds: int
    var currentFileSize: nat
    var currentEntryCount: nat
    ghost var model: State

    ghost predicate RingHolds(history: seq<Entry>)
      reads entries
      requires entries.Length == QUEUE_SIZE
    {
      forall i :: 0 <= i < |history| && |history| - QUEUE_SIZE <= i ==> entries[i % QUEUE_SIZE] == history[i]
    }

    // batch[batchPos..] is what is left of the drained entries.
    ghost predicate BatchHolds(q: Queue)
      reads `batch, `batchPos
    {
      && q.lo <= q.hi <= |q.history| && batchPos <= |batch|
      && batch[batchPos..] == q.history[q.lo..q.hi]
    }

    ghost predicate CountersAre(q: Queue)
      reads `totalWritten, `diskCursor, `overwritten, `dropped
    {
      && totalWritten == |q.history| && diskCursor == q.cursor
      && overwritten == q.overwritten && dropped == q.dropped
    }

    ghost predicate FilesAre(f: Files)
      reads `disk, `currentFile, `currentDaySeconds, `currentFileSize, `currentEntryCount
    {
      && disk == f.disk && currentFile == f.current && currentDaySeconds == f.day
      && currentFileSize == f.size && currentEntryCount == f.count
    }

    ghost predicate Valid()
      reads this, entries
    {
      && entries.Length == QUEUE_SIZE
      && Inv(model)
      && CountersAre(model.q) && FilesAre(model.f)
      && fsAttached == model.attached && phase == model.phase && anyWritten == model.wrote
      && RingHolds(model.q.history) && BatchHolds(model.q)
    }

    // audit_init
    constructor (onDisk: map<string, LogFile>)
      ensures Valid() && fresh(entries) && model == Init(onDisk)
    {
      hide Inv;
      entries := new Entry[QUEUE_SIZE](_ => Entry(0, 0, 0, ""));
      totalWritten, diskCursor, overwritten, dropped := 0, 0, 0, 0;
      fsAttached, phase, batch, batchPos, anyWritten := false, AtTop, [], 0, false;
      disk, currentFile, currentDaySeconds, currentFileSize, currentEntryCount := onDisk, None, 0, 0, 0;
      model := Init(onDisk);
      InitInv(onDisk);
    }

    // The entry takes the slot of its number.
    method Store(e: Entry, ghost history: seq<Entry>)
      requires entries.Length == QUEUE_SIZE && RingHolds(history) && totalWritten == |history|
      modifies entries
      ensures RingHolds(history + [e])
    {
      var slot := totalWritten % QUEUE_SIZE;
      forall i: nat | totalWritten < i + QUEUE_SIZE && i < totalWritten
        ensures i % QUEUE_SIZE != slot
      {
        SlotsDiffer(i, totalWritten);
      }
      entries[slot] := e;
    }

    lemma BatchGrows(q: Queue, e: Entry)
      requires BatchHolds(q)
      ensures BatchHolds(QEnqueue(q, e))
    {
      assert (q.history + [e])[q.lo..q.hi] == q.history[q.lo..q.hi];
    }

    method Enqueue(e: Entry)
      requires Valid()
      modifies this, entries
      ensures Valid() && model == Next(old(model), AuditLog.Enqueue(e))
    {
      hide Next, Inv, FilesAre, RingHolds, BatchHolds;
      NextKeepsInv(model, AuditLog.Enqueue(e));
      EnqueueEffect(model, e);
      Store(e, model.q.history);
      BatchGrows(model.q, e);
      totalWritten := totalWritten + 1;
      if totalWritten - diskCursor > QUEUE_SIZE {
        overwritten := overwritten + (totalWritten - diskCursor - QUEUE_SIZE);
        diskCursor := totalWritten - QUEUE_SIZE;
      }
      model := Next(model, AuditLog.Enqueue(e));
    }

    // The current file is forgotten before another is opened.
    method Close(ghost f: Files)
      requires FilesAre(f)
      modifies `currentFile
      ensures FilesAre(f.(current := None)) && currentFile == None
    {
      currentFile := None;
    }

    lemma DayIs(f: Files)
      requires FilesAre(f)
      ensures currentDaySeconds == f.day
    {
    }

    // open_today_log
    method OpenTodayLog(now: int, io: OpenIo, ghost f: Files) returns (ok: bool)
      requires FilesAre(f) && currentFile == None
      modifies `disk, `currentFile, `currentDaySeconds, `currentFileSize, `currentEntryCount
      ensures FilesAre(OpenLog(f, now, io))
      ensures ok == OpenLog(f, now, io).current.Some?
    {
      hide LogPathAt, DayStart;
      var path := LogPathAt(now);
      var created := false;
      if path !in disk {
        if !io.createOk { return false; }
        disk := disk[path := LogFile(None, map[])];
        if !io.findOk { return false; }
        created := true;
      }
      var existing := 0;
      if !created && io.readOk && disk[path].header.Some? {
        existing := disk[path].header.value.count;
      } else if io.write.HeaderOk? {
        disk := disk[path := disk[path].(header := Some(Header(DayStart(now), 0)))];
      } else {
        disk := disk[path := disk[path].(header := io.write.left)];
        return false;
      }
      currentFile := Some(path);
      currentDaySeconds := DayStart(now);
      currentFileSize := HEADER_SIZE + existing * ENTRY_SIZE;
      currentEntryCount := existing;
      ok := true;
    }

    // audit_attach_fs: nothing is attached in a test boot or without a clock.
    method AttachFs(autorun: Option<string>, now: int, io: OpenIo)
      requires Valid() && !fsAttached
      modifies `fsAttached, `disk, `currentFile, `currentDaySeconds, `currentFileSize, `currentEntryCount, `model
      ensures Valid() && model == if autorun == Some("ktest") then old(model) else Next(old(model), Attach(now, io))
      ensures autorun == Some("ktest") || now <= 0 ==> !fsAttached && disk == old(disk)
    {
      hide Next, Inv, OpenLog, RingHolds, BatchHolds, CountersAre, FilesAre;
      NextKeepsInv(model, Attach(now, io));
      AttachEffect(model, now, io);
      fsAttached := false;
      if autorun == Some("ktest") { return; }
      if now <= 0 { return; }
      Close(model.f);
      fsAttached := OpenTodayLog(now, io, model.f.(current := None));
      model := Next(model, Attach(now, io));
    }

    // The top of the flusher's loop: rotate_if_needed
    method RotateIfNeeded(now: int, io: OpenIo)
      requires Valid() && fsAttached && phase == AtTop
      modifies `phase, `disk, `currentFile, `currentDaySeconds, `currentFileSize, `currentEntryCount, `model
      ensures Valid() && model == Next(old(model), Rotate(now, io))
    {
      hide Next, Inv, OpenLog, DayStart, RingHolds, BatchHolds, CountersAre, FilesAre;
      NextKeepsInv(model, Rotate(now, io));
      RotateEffect(model, now, io);
      phase := Rotated;
      DayIs(model.f);
      if DayStart(now) > currentDaySeconds {
        Close(model.f);
        var _ := OpenTodayLog(now, io, model.f.(current := None));
      }
      model := Next(model, Rotate(now, io));
    }

    // The loop of the locked section: copy out the oldest pending entries, at most a batch.
    method CopyBatch(ghost q: Queue, ghost next: Queue)
      requires entries.Length == QUEUE_SIZE && RingHolds(q.history) && CountersAre(q) && DrainsTo(q, next)
      modifies `batch, `batchPos, `diskCursor
      ensures CountersAre(next) && BatchHolds(next)
      ensures |batch| > 0 <==> q.cursor < |q.history|
    {
      ghost var h := q.history;
      batchPos := 0;
      ghost var start := diskCursor;
      batch := [];
      while |batch| < FLUSH_BATCH && diskCursor < totalWritten
        invariant |batch| <= FLUSH_BATCH && diskCursor == start + |batch| <= totalWritten
        invariant batch == h[start..diskCursor]
        modifies `batch, `diskCursor
        decreases totalWritten - diskCursor
      {
        batch := batch + [entries[diskCursor % QUEUE_SIZE]];
        diskCursor := diskCursor + 1;
      }
      assert batch[0..] == batch;
    }

    // The locked section of the flusher: drain up to a batch.
    method DrainBatch()
      requires Valid() && phase == Rotated
      modifies this
      ensures Valid() && model == Next(old(model), Drain)
    {
      hide Next, Inv, FilesAre, RingHolds, CountersAre, BatchHolds, DrainsTo;
      NextKeepsInv(model, Drain);
      DrainEffect(model);
      CopyBatch(model.q, Next(model, Drain).q);
      if |batch| > 0 { phase, anyWritten := Persisting, false; } else { phase := AtTop; }
      model := Next(model, Drain);
    }

    // persist_one_entry: 0 on success, -2 when the file is full, -1 on any other failure
    method PersistOneEntry(e: Entry, write: RecordWrite, ghost f: Files, ghost index: nat) returns (r: int)
      requires FilesAre(f) && FileInv(f)
      modifies `disk, `currentFileSize, `currentEntryCount
      ensures r == if f.current.None? then -1 else if f.size + ENTRY_SIZE > FILE_CAP then -2
                   else if write.RecordOk? then 0 else -1
      ensures r == 0 ==> FilesAre(FAppend(f, e, index))
      ensures r == -1 && f.current.Some? ==> FilesAre(FTorn(f, write.left))
      ensures r == -2 || f.current.None? ==> FilesAre(f)
    {
      if currentFile.None? { return -1; }
      var path, off := currentFile.value, currentFileSize;
      if off + ENTRY_SIZE > FILE_CAP { return -2; }
      var records := disk[path].records;
      if write.RecordTorn? {
        disk := disk[path := disk[path].(
          records := if write.left.Some? then records[off := write.left.value] else records - {off})];
        return -1;
      }
      disk := disk[path := disk[path].(records := records[off := e])];
      currentFileSize := off + ENTRY_SIZE;
      currentEntryCount := currentEntryCount + 1;
      r := 0;
    }

    lemma NextOfBatch(q: Queue)
      requires BatchHolds(q) && q.lo < q.hi
      ensures q.hi <= |q.history| && batchPos < |batch| && batch[batchPos] == q.history[q.lo]
    {
      assert |batch[batchPos..]| == q.hi - q.lo;
      assert batch[batchPos] == batch[batchPos..][0];
    }

    // The batch moves on by one entry, and the loop to its next part.
    method Advance(ghost q: Queue, ghost next: Queue)
      requires BatchHolds(q) && q.lo < q.hi && next.history == q.history && next.lo == q.lo + 1 && next.hi == q.hi
      modifies `batchPos, `phase
      ensures BatchHolds(next)
      ensures phase == if q.lo + 1 < q.hi then old(phase) else if anyWritten then Syncing else AtTop
    {
      assert |batch[batchPos..]| == q.hi - q.lo;
      batchPos := batchPos + 1;
      assert batch[batchPos..] == old(batch[batchPos..])[1..] == q.history[q.lo + 1..q.hi];
      if batchPos == |batch| { phase := if anyWritten then Syncing else AtTop; }
    }

    // The write of the batch's next entry and the counters beside it, which the queue's fields follow.
    method PersistAndCount(write: RecordWrite, ghost s: State)
      requires Inv(s) && s.phase == Persisting && FilesAre(s.f) && CountersAre(s.q) && anyWritten == s.wrote
      requires batchPos < |batch| && s.q.lo < |s.q.history| && batch[batchPos] == s.q.history[s.q.lo]
      modifies `disk, `currentFileSize, `currentEntryCount, `dropped, `anyWritten
      ensures
        var t := Next(s, Persist(write));
        FilesAre(t.f) && CountersAre(t.q) && anyWritten == t.wrote
    {
      hide Next, Inv, FileInv, FAppend, FTorn, FilesAre;
      PersistEffect(s, write);
      var r := PersistOneEntry(batch[batchPos], write, s.f, s.q.lo);
      if r < 0 { dropped := dropped + 1; } else { anyWritten := true; }
    }

    // One turn of the flusher's loop over its batch.
    method PersistNext(write: RecordWrite)
      requires Valid() && phase == Persisting
      modifies this
      ensures Valid() && model == Next(old(model), Persist(write))
    {
      hide Next, Inv, FilesAre, CountersAre, RingHolds, BatchHolds;
      NextKeepsInv(model, Persist(write));
      PersistEffect(model, write);
      NextOfBatch(model.q);
      PersistAndCount(write, model);
      Advance(model.q, Next(model, Persist(write)).q);
      model := Next(model, Persist(write));
    }

    method UpdateHeaderCount(header: HeaderWrite)
      requires Valid() && phase == Syncing
      modifies this
      ensures Valid() && model == Next(old(model), SyncHeader(header))
    {
      hide QueueInv, DiskInv;
      NextKeepsInv(model, SyncHeader(header));
      if currentFile.Some? {
        var h := if header.HeaderOk? then Some(Header(currentDaySeconds, currentEntryCount)) else header.left;
        disk := disk[currentFile.value := disk[currentFile.value].(header := h)];
      }
      phase := AtTop;
      model := Next(model, SyncHeader(header));
    }

    lemma ResidentAt(history: seq<Entry>, i: nat)
      requires entries.Length == QUEUE_SIZE && RingHolds(history) && i < |history|
      requires |history| > QUEUE_SIZE ==> |history| - QUEUE_SIZE <= i
      ensures
        var start := if |history| > QUEUE_SIZE then |history| - QUEUE_SIZE else 0;
        i - start < |Resident(history)| && entries[i % QUEUE_SIZE] == Resident(history)[i - start]
    {
    }

    // audit_query: the first `max` matching entries of the resident ones, for any flusher position.
    method Query(since: nat, until: nat, mask: nat, out: array<Entry>, max: nat) returns (written: nat)
      requires Valid() && out.Length >= max && out != entries
      modifies out
      ensures written <= max
      ensures out[..written] == First(Matching(Resident(model.q.history), since, until, mask), max)
      ensures out[written..] == old(out[written..])
    {
      hide Inv, Matching, Wanted, RingHolds, FilesAre, BatchHolds, Resident, First;
      assert Matching([], since, until, mask) == [] by { MatchingNothing(since, until, mask); }
      written := 0;
      ghost var resident := Resident(model.q.history);
      if max == 0 {
        assert resident[..0] == [];
        FirstOfMatching(resident, 0, since, until, mask, max);
        return;
      }
      var total := totalWritten;
      var start := if total > QUEUE_SIZE then total - QUEUE_SIZE else 0;
      ResidentSize(model.q.history);
      var i := start;
      while i < total && written < max
        invariant RingHolds(model.q.history)
        invariant start <= i <= total && written <= max
        invariant out[..written] == Matching(resident[..i - start], since, until, mask)
        invariant forall k :: written <= k < out.Length ==> out[k] == old(out[k])
      {
        var e := entries[i % QUEUE_SIZE];
        ResidentAt(model.q.history, i);
        MatchingStep(resident, i - start, since, until, mask);
        if Wanted(e, since, until, mask) {
          ghost var found := out[..written];
          out[written] := e;
          assert out[..written] == found;
          written := written + 1;
          assert out[..written] == found + [e];
        }
        i := i + 1;
      }
      FirstOfMatching(resident, i - start, since, until, mask, max);
    }
  }
}
