/**
 Whole runs of the subscriber table of kernel/audit.c, with any number of processes
 subscribing, unsubscribing, dying and reading while entries are broadcast, and the way an
 entry takes from the queue to its broadcast.
 */
module AuditTable {
  import opened AuditLog
  import opened AuditStream
  import opened Options

  function RunTable(t: seq<Sub>, steps: seq<TableStep>): (u: seq<Sub>)
    requires ValidTable(t)
    ensures ValidTable(u)
    decreases |steps|
  {
    if steps == [] then t else StepTable(RunTable(t, steps[..|steps| - 1]), steps[|steps| - 1])
  }

  // ---------------------------------------------------------------------------
  // One subscription inside a run
  // ---------------------------------------------------------------------------

  // The step ends the subscription of process pid in slot i.
  predicate Ends(a: TableStep, i: nat, pid: int) {
    (a.Unsubscribe? && a.slot == i) || (a.Reap? && a.pid == pid && pid > 0)
  }

  ghost predicate Lasts(steps: seq<TableStep>, i: nat, pid: int) { forall j :: 0 <= j < |steps| ==> !Ends(steps[j], i, pid) }

  // What the step means for that subscription, if anything.
  function ForSlot(a: TableStep, i: nat, pid: int): Option<SubStep> {
    if a.Announce? && a.slot == i then Some(Offer(a.e, a.locked))
    else if a.ReadOut? && a.slot == i && a.pid == pid && a.max > 0 then Some(Read(a.max))
    else None
  }

  function SlotSteps(steps: seq<TableStep>, i: nat, pid: int): seq<SubStep> {
    if steps == [] then []
    else
      var last := ForSlot(steps[|steps| - 1], i, pid);
      SlotSteps(steps[..|steps| - 1], i, pid) + if last.Some? then [last.value] else []
  }

  // The broadcasts of a run that come to slot i and that a filter passes.
  function Passing(steps: seq<TableStep>, i: nat, filter: nat): seq<Entry> {
    if steps == [] then []
    else
      var a := steps[|steps| - 1];
      Passing(steps[..|steps| - 1], i, filter) + if a.Announce? && a.slot == i && Passes(filter, a.e) then [a.e] else []
  }

  function SubAfter(s: Sub, a: SubStep): Sub
    requires WellFormed(s)
  {
    match a
    case Offer(e, locked) => Deliver(s, e, locked)
    case Read(max) => AfterRead(s, max)
  }

  // In the table a subscription changes by its own steps and by nothing else.
  lemma SlotStep(t: seq<Sub>, a: TableStep, i: nat, pid: int)
    requires ValidTable(t) && i < SUB_MAX && t[i].inUse && t[i].pid == pid && !Ends(a, i, pid)
    ensures
      var u, own := StepTable(t, a)[i], ForSlot(a, i, pid);
      u.inUse && u.pid == pid && u == if own.None? then t[i] else SubAfter(t[i], own.value)
  {
    hide Available, Passes;
  }

  lemma SessionSnoc(s: Session, steps: seq<SubStep>, a: SubStep)
    requires SessionInv(s)
    ensures RunSession(s, steps + [a]) == StepSession(RunSession(s, steps), a)
    ensures RunSession(s, steps + [a]).sub == SubAfter(RunSession(s, steps).sub, a)
  {
    hide SessionInv, LifeInv;
    assert (steps + [a])[..|steps|] == steps;
  }

  // The slot, seen from its subscribe on, is the session of its own steps.
  lemma {:induction false} SlotIsSession(t: seq<Sub>, i: nat, was: Sub, pid: int, filter: nat, steps: seq<TableStep>)
    requires ValidTable(t) && i < SUB_MAX && WellFormed(was) && t[i] == Subscribed(was, pid, filter) && Lasts(steps, i, pid)
    ensures
      var u := RunTable(t, steps)[i];
      u.inUse && u.pid == pid && u == RunSession(NewSession(was, pid, filter), SlotSteps(steps, i, pid)).sub
    decreases |steps|
  {
    hide StepTable, ValidTable, SessionInv, SubAfter, StepSession, Ends, ForSlot, WellFormed;
    TableLength(t);
    if steps != [] {
      var n := |steps| - 1;
      SlotIsSession(t, i, was, pid, filter, steps[..n]);
      var u := RunTable(t, steps[..n]);
      TableLength(u);
      TableLength(RunTable(t, steps));
      SlotStep(u, steps[n], i, pid);
      var own := ForSlot(steps[n], i, pid);
      var before := SlotSteps(steps[..n], i, pid);
      if own.Some? {
        SessionSnoc(NewSession(was, pid, filter), before, own.value);
      } else {
        assert before + [] == before;
      }
    }
  }

  lemma TableLength(t: seq<Sub>)
    requires ValidTable(t)
    ensures |t| == SUB_MAX
  {
  }

  lemma {:induction false} OfferedArePassing(steps: seq<TableStep>, i: nat, pid: int, filter: nat)
    ensures Broadcasts(SlotSteps(steps, i, pid), filter) == Passing(steps, i, filter)
    decreases |steps|
  {
    hide Passes;
    if steps != [] {
      var n := |steps| - 1;
      OfferedArePassing(steps[..n], i, pid, filter);
      var before, own := SlotSteps(steps[..n], i, pid), ForSlot(steps[n], i, pid);
      if own.Some? {
        assert (before + [own.value])[..|before|] == before;
      } else {
        assert before + [] == before;
      }
    }
  }

  // The account of a subscription in any run of the whole table, from its subscribe to its end:
  // the broadcasts its filter passes are read by it, counted as dropped, or still in its ring; its
  // reads come in broadcast order; and no other process's steps touch it.
  lemma {:induction false} TableAccount(before: seq<Sub>, pid: int, filter: nat, steps: seq<TableStep>)
    requires ValidTable(before) && FreeFrom(before, 0) < SUB_MAX && Lasts(steps, FreeFrom(before, 0), pid)
    ensures
      var i := FreeFrom(before, 0);
      var t := RunTable(StepTable(before, Subscribe(pid, filter)), steps)[i];
      var s := RunSession(NewSession(before[i], pid, filter), SlotSteps(steps, i, pid));
      var sent := Passing(steps, i, filter);
      && t == s.sub && t.inUse && t.pid == pid
      && |sent| == |s.received| + t.dropped + Available(t) && Available(t) <= RING_DEPTH
      && Increasing(s.life.pushed) && Increasing(s.life.taken) && |s.life.taken| == |s.received|
      && (forall k :: 0 <= k < |s.received| ==>
            && s.life.taken[k] < |s.life.pushed| && s.life.pushed[s.life.taken[k]] < |sent|
            && s.received[k] == sent[s.life.pushed[s.life.taken[k]]])
  {
    hide RunSession, NewSession, RunTable, Passing, SlotSteps, Available, WellFormed;
    var i := FreeFrom(before, 0);
    SlotIsSession(StepTable(before, Subscribe(pid, filter)), i, before[i], pid, filter, steps);
    SubscriptionAccount(before[i], pid, filter, SlotSteps(steps, i, pid));
    OfferedArePassing(steps, i, pid, filter);
    TableLength(RunTable(StepTable(before, Subscribe(pid, filter)), steps));
  }

  // ---------------------------------------------------------------------------
  // From the queue to the table
  // ---------------------------------------------------------------------------

  // A producer that has enqueued an entry and is broadcasting it: next is the slot it comes to next.
  datatype Broadcaster = Broadcaster(e: Entry, next: nat)

  // The audit subsystem: the queue with its flusher, the subscriber table, and the producers between
  // the release of the queue's lock and the end of their broadcast.
  datatype Audit = Audit(log: State, table: seq<Sub>, going: seq<Broadcaster>)

  // A step of the queue, one slot of the broadcast of some producer, or an operation on the table.
  datatype AuditStep = Log(a: Step) | GoOn(k: nat, locked: bool) | Manage(b: TableStep)

  function Going(going: seq<Broadcaster>, a: AuditStep): seq<Broadcaster> {
    match a
    case Log(b) => if b.Enqueue? then going + [Broadcaster(b.e, 0)] else going
    case GoOn(k, _) =>
      if k >= |going| then going
      else if going[k].next + 1 < SUB_MAX then going[k := going[k].(next := going[k].next + 1)]
      else going[..k] + going[k + 1..]
    case Manage(_) => going
  }

  function StepAudit(s: Audit, a: AuditStep): (t: Audit)
    requires Inv(s.log) && ValidTable(s.table)
    ensures Inv(t.log) && ValidTable(t.table)
  {
    hide Inv, Next, ValidTable, StepTable;
    match a
    case Log(b) =>
      NextKeepsInv(s.log, b);
      Audit(Next(s.log, b), s.table, Going(s.going, a))
    case GoOn(k, locked) =>
      if k >= |s.going| then s
      else Audit(s.log, StepTable(s.table, Announce(s.going[k].e, s.going[k].next, locked)), Going(s.going, a))
    case Manage(b) => if b.Announce? then s else s.(table := StepTable(s.table, b))
  }

  function RunAudit(disk: map<string, LogFile>, table: seq<Sub>, steps: seq<AuditStep>): (t: Audit)
    requires ValidTable(table)
    ensures Inv(t.log) && ValidTable(t.table)
    decreases |steps|
  {
    hide Inv, Next, ValidTable, StepTable, StepAudit, Boot;
    if steps == [] then Audit(Boot(disk, []), table, [])
    else StepAudit(RunAudit(disk, table, steps[..|steps| - 1]), steps[|steps| - 1])
  }

  // The producers still broadcasting after a run, the queue's own steps in it, and the table's.
  function GoingAfter(steps: seq<AuditStep>): seq<Broadcaster> {
    if steps == [] then [] else Going(GoingAfter(steps[..|steps| - 1]), steps[|steps| - 1])
  }

  function LogSteps(steps: seq<AuditStep>): seq<Step> {
    if steps == [] then [] else LogSteps(steps[..|steps| - 1]) + if steps[|steps| - 1].Log? then [steps[|steps| - 1].a] else []
  }

  function TableSteps(steps: seq<AuditStep>): seq<TableStep> {
    if steps == [] then []
    else
      var before, going := TableSteps(steps[..|steps| - 1]), GoingAfter(steps[..|steps| - 1]);
      match steps[|steps| - 1]
      case Log(_) => before
      case GoOn(k, locked) => if k >= |going| then before else before + [Announce(going[k].e, going[k].next, locked)]
      case Manage(b) => if b.Announce? then before else before + [b]
  }

  lemma TableSnoc(t: seq<Sub>, steps: seq<TableStep>, a: TableStep)
    requires ValidTable(t)
    ensures RunTable(t, steps + [a]) == StepTable(RunTable(t, steps), a)
  {
    hide StepTable, ValidTable;
    assert (steps + [a])[..|steps|] == steps;
  }

  // The parts of the subsystem run as the queue's and the table's own runs.
  lemma {:induction false} PartsRun(disk: map<string, LogFile>, table: seq<Sub>, steps: seq<AuditStep>)
    requires ValidTable(table)
    ensures RunAudit(disk, table, steps) ==
            Audit(Boot(disk, LogSteps(steps)), RunTable(table, TableSteps(steps)), GoingAfter(steps))
    decreases |steps|
  {
    hide Boot, RunTable, Next, StepTable, ValidTable, Inv, Going;
    if steps == [] {
      EmptyRun(table);
    } else {
      var n := |steps| - 1;
      PartsRun(disk, table, steps[..n]);
      match steps[n]
      case Log(a) =>
        BootSnoc(disk, LogSteps(steps[..n]), a);
      case GoOn(k, locked) =>
        var going := GoingAfter(steps[..n]);
        assert LogSteps(steps[..n]) + [] == LogSteps(steps[..n]);
        if k < |going| {
          TableSnoc(table, TableSteps(steps[..n]), Announce(going[k].e, going[k].next, locked));
        } else {
          NobodyGoesOn(going, k, locked);
        }
      case Manage(b) =>
        assert LogSteps(steps[..n]) + [] == LogSteps(steps[..n]);
        ManagedGoing(GoingAfter(steps[..n]), b);
        TableSnoc(table, TableSteps(steps[..n]), b);
    }
  }

  lemma EmptyRun(table: seq<Sub>)
    requires ValidTable(table)
    ensures RunTable(table, []) == table
  {
  }

  lemma NobodyGoesOn(going: seq<Broadcaster>, k: nat, locked: bool)
    requires k >= |going|
    ensures Going(going, GoOn(k, locked)) == going
  {
  }

  lemma ManagedGoing(going: seq<Broadcaster>, b: TableStep)
    ensures Going(going, Manage(b)) == going
  {
  }

  // The entries a run has brought to slot i, and those still on their way to it.
  function BroughtTo(trace: seq<TableStep>, i: nat): seq<Entry> {
    if trace == [] then []
    else
      var a := trace[|trace| - 1];
      BroughtTo(trace[..|trace| - 1], i) + if a.Announce? && a.slot == i then [a.e] else []
  }

  function OnTheWay(going: seq<Broadcaster>, i: nat): seq<Entry> {
    if going == [] then []
    else
      var g := going[|going| - 1];
      OnTheWay(going[..|going| - 1], i) + if g.next <= i then [g.e] else []
  }

  lemma BroughtSnoc(trace: seq<TableStep>, a: TableStep, i: nat)
    ensures BroughtTo(trace + [a], i) == BroughtTo(trace, i) + if a.Announce? && a.slot == i then [a.e] else []
  {
    assert (trace + [a])[..|trace|] == trace;
  }

  lemma {:induction false} OnTheWayConcat(x: seq<Broadcaster>, y: seq<Broadcaster>, i: nat)
    ensures OnTheWay(x + y, i) == OnTheWay(x, i) + OnTheWay(y, i)
    decreases |y|
  {
    if y == [] {
      assert x + y == x;
    } else {
      assert (x + y)[..|x + y| - 1] == x + y[..|y| - 1];
      OnTheWayConcat(x, y[..|y| - 1], i);
    }
  }

  lemma OneOnTheWay(g: Broadcaster, i: nat)
    ensures OnTheWay([g], i) == if g.next <= i then [g.e] else []
  {
    assert [g][..0] == [];
    assert OnTheWay([], i) == [];
  }

  lemma OnTheWaySplit(going: seq<Broadcaster>, k: nat, i: nat)
    requires k < |going|
    ensures multiset(OnTheWay(going, i)) ==
            multiset(OnTheWay(going[..k], i)) + multiset(OnTheWay([going[k]], i)) + multiset(OnTheWay(going[k + 1..], i))
  {
    hide OnTheWay;
    assert going == going[..k] + [going[k]] + going[k + 1..];
    OnTheWayConcat(going[..k] + [going[k]], going[k + 1..], i);
    OnTheWayConcat(going[..k], [going[k]], i);
  }

  ghost predicate AllInTable(going: seq<Broadcaster>) { forall k :: 0 <= k < |going| ==> going[k].next < SUB_MAX }

  // A producer that goes on takes its entry past one slot and leaves the account of the others alone.
  lemma GoOnAccount(going: seq<Broadcaster>, k: nat, locked: bool, i: nat)
    requires AllInTable(going) && k < |going| && i < SUB_MAX
    ensures AllInTable(Going(going, GoOn(k, locked)))
    ensures multiset(OnTheWay(going, i)) ==
            multiset(OnTheWay(Going(going, GoOn(k, locked)), i)) + multiset(if going[k].next == i then [going[k].e] else [])
  {
    hide OnTheWay;
    var g := going[k];
    var after := Going(going, GoOn(k, locked));
    OnTheWaySplit(going, k, i);
    OneOnTheWay(g, i);
    if g.next + 1 < SUB_MAX {
      OnTheWaySplit(after, k, i);
      assert after[..k] == going[..k] && after[k + 1..] == going[k + 1..];
      OneOnTheWay(after[k], i);
    } else {
      OnTheWayConcat(going[..k], going[k + 1..], i);
    }
  }

  // Everything enqueued has been brought to slot i or is on its way there.
  ghost predicate Balanced(log: seq<Step>, trace: seq<TableStep>, going: seq<Broadcaster>, i: nat) {
    AllInTable(going) && multiset(Enqueued(log)) == multiset(BroughtTo(trace, i)) + multiset(OnTheWay(going, i))
  }

  lemma LogKeepsBalance(log: seq<Step>, trace: seq<TableStep>, going: seq<Broadcaster>, a: Step, i: nat)
    requires Balanced(log, trace, going, i)
    ensures Balanced(log + [a], trace, Going(going, Log(a)), i)
  {
    hide BroughtTo, OnTheWay, Enqueued, Going, AllInTable;
    EnqueuedSnoc(log, a);
    LoggedGoing(going, a, i);
  }

  lemma GoOnKeepsBalance(log: seq<Step>, trace: seq<TableStep>, going: seq<Broadcaster>, k: nat, locked: bool, i: nat)
    requires Balanced(log, trace, going, i) && k < |going| && i < SUB_MAX
    ensures Balanced(log, trace + [Announce(going[k].e, going[k].next, locked)], Going(going, GoOn(k, locked)), i)
  {
    hide BroughtTo, OnTheWay, Enqueued, Going, AllInTable;
    GoOnAccount(going, k, locked, i);
    BroughtSnoc(trace, Announce(going[k].e, going[k].next, locked), i);
  }

  lemma ManageKeepsBalance(log: seq<Step>, trace: seq<TableStep>, going: seq<Broadcaster>, b: TableStep, i: nat)
    requires Balanced(log, trace, going, i) && !b.Announce?
    ensures Balanced(log, trace + [b], going, i)
  {
    hide OnTheWay, Enqueued, AllInTable;
    BroughtSnoc(trace, b, i);
  }

  lemma NothingBalanced(i: nat)
    ensures Balanced([], [], [], i)
  {
  }

  lemma {:induction false} SlotAccount(steps: seq<AuditStep>, i: nat)
    requires i < SUB_MAX
    ensures Balanced(LogSteps(steps), TableSteps(steps), GoingAfter(steps), i)
    decreases |steps|
  {
    hide Balanced, Going;
    if steps == [] {
      NothingBalanced(i);
    } else {
      var n := |steps| - 1;
      SlotAccount(steps[..n], i);
      var going, trace, log := GoingAfter(steps[..n]), TableSteps(steps[..n]), LogSteps(steps[..n]);
      match steps[n]
      case Log(a) => LogKeepsBalance(log, trace, going, a, i);
      case GoOn(k, locked) =>
        assert log + [] == log;
        if k < |going| { GoOnKeepsBalance(log, trace, going, k, locked, i); } else { NobodyGoesOn(going, k, locked); }
      case Manage(b) =>
        assert log + [] == log;
        ManagedGoing(going, b);
        if !b.Announce? { ManageKeepsBalance(log, trace, going, b, i); }
    }
  }

  lemma EnqueuedSnoc(steps: seq<Step>, a: Step)
    ensures Enqueued(steps + [a]) == Enqueued(steps) + if a.Enqueue? then [a.e] else []
  {
    assert (steps + [a])[..|steps|] == steps;
  }

  lemma LoggedGoing(going: seq<Broadcaster>, a: Step, i: nat)
    requires AllInTable(going)
    ensures AllInTable(Going(going, Log(a)))
    ensures OnTheWay(Going(going, Log(a)), i) == OnTheWay(going, i) + if a.Enqueue? then [a.e] else []
  {
    hide OnTheWay;
    if a.Enqueue? {
      OnTheWayConcat(going, [Broadcaster(a.e, 0)], i);
      OneOnTheWay(Broadcaster(a.e, 0), i);
    }
  }

  // In any run of the audit subsystem, with any number of producers broadcasting at once: to each slot
  // of the table, every entry of the queue's history has been brought once or is still on its way.
  lemma {:induction false} EveryEntryIsBroadcastOnce(disk: map<string, LogFile>, table: seq<Sub>, steps: seq<AuditStep>, i: nat)
    requires ValidTable(table) && i < SUB_MAX
    ensures
      var s := RunAudit(disk, table, steps);
      && s.table == RunTable(table, TableSteps(steps))
      && multiset(s.log.q.history) == multiset(BroughtTo(TableSteps(steps), i)) + multiset(OnTheWay(s.going, i))
  {
    hide RunAudit, Boot, RunTable, TableSteps, OnTheWay, BroughtTo, GoingAfter, LogSteps, Enqueued, ValidTable;
    PartsRun(disk, table, steps);
    SlotAccount(steps, i);
    HistoryIsWhatWasEnqueued(disk, LogSteps(steps));
  }
}
