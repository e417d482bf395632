/**
 The process index of kernel/pid_hash.c: 2048 hash chains threaded through
 hash_next and one doubly linked list, in creation order, threaded through
 global_next and global_prev, over the same task objects.

 `live` is the list the links spell; `chains` are the chains.  Insert and Remove
 relink in place and are proved against sequence operations on them.
 */
module PidHash {

  const PID_HASH_BUCKETS := 2048

  class Task {
    const id: int
    var hashNext: Task?
    var globalNext: Task?
    var globalPrev: Task?

    constructor (id: int)
      ensures this.id == id
    {
      this.id := id;
      hashNext, globalNext, globalPrev := null, null, null;
    }
  }

  // (uint32_t)id & (N - 1), for ids of either sign
  function BucketFor(id: int): nat { id % PID_HASH_BUCKETS }

  // The node at a position of a list, or null off either end.
  ghost function At(s: seq<Task>, i: int): Task? { if 0 <= i < |s| then s[i] else null }

  ghost predicate Distinct(s: seq<Task>) { forall i, j :: 0 <= i < j < |s| ==> s[i] != s[j] }

  ghost function IndexOf(s: seq<Task>, t: Task): (k: nat)
    requires t in s
    ensures k < |s| && s[k] == t && t !in s[..k]
  {
    if s[0] == t then 0 else 1 + IndexOf(s[1..], t)
  }

  ghost function Without(s: seq<Task>, t: Task): (w: seq<Task>)
    requires t in s
    ensures |w| == |s| - 1
    ensures forall i :: 0 <= i < |w| ==> w[i] == s[if i < IndexOf(s, t) then i else i + 1]
  {
    s[..IndexOf(s, t)] + s[IndexOf(s, t) + 1..]
  }

  lemma WithoutKeepsOthers(s: seq<Task>, t: Task)
    requires t in s && Distinct(s)
    ensures Distinct(Without(s, t)) && t !in Without(s, t)
    ensures forall u :: u in Without(s, t) <==> u in s && u != t
  {
    var k := IndexOf(s, t);
    var w := Without(s, t);
    forall u | u in s && u != t ensures u in w {
      var i :| 0 <= i < |s| && s[i] == u;
      assert u == if i < k then w[i] else w[i - 1];
    }
  }

  // The chains and the list hold the same tasks, each task once, in the bucket of its id.
  ghost predicate SameTasks(s: seq<Task>, cs: seq<seq<Task>>) {
    && |cs| == PID_HASH_BUCKETS
    && Distinct(s)
    && (forall i, j :: 0 <= i < j < |s| ==> s[i].id != s[j].id)
    && (forall b :: 0 <= b < |cs| ==> Distinct(cs[b]))
    && (forall b, t :: 0 <= b < |cs| && t in cs[b] ==> t in s && BucketFor(t.id) == b)
    && (forall t :: t in s ==> t in cs[BucketFor(t.id)])
  }

  ghost predicate ChainsSeparate(cs: seq<seq<Task>>) {
    && (forall b :: 0 <= b < |cs| ==> Distinct(cs[b]))
    && forall b, t :: 0 <= b < |cs| && t in cs[b] ==> BucketFor(t.id) == b
  }

  lemma SameTasksInserted(s: seq<Task>, cs: seq<seq<Task>>, t: Task)
    requires SameTasks(s, cs) && t !in s && forall u :: u in s ==> u.id != t.id
    ensures SameTasks(s + [t], cs[BucketFor(t.id) := [t] + cs[BucketFor(t.id)]])
  {
  }

  lemma SameTasksRemoved(s: seq<Task>, cs: seq<seq<Task>>, t: Task)
    requires SameTasks(s, cs) && t in s
    ensures Distinct(s) && ChainsSeparate(cs) && t in cs[BucketFor(t.id)]
    ensures SameTasks(Without(s, t), cs[BucketFor(t.id) := Without(cs[BucketFor(t.id)], t)])
  {
    hide Without, Distinct;
    var b := BucketFor(t.id);
    var rest, chain := Without(s, t), Without(cs[b], t);
    WithoutKeepsOthers(s, t);
    WithoutKeepsOthers(cs[b], t);
    WithoutKeepsIds(s, t);
    var after := cs[b := chain];
    forall c, u | 0 <= c < |after| && u in after[c] ensures u in rest && BucketFor(u.id) == c {
      assert u in cs[c];
      assert u != t;
    }
  }

  lemma WithoutKeepsIds(s: seq<Task>, t: Task)
    requires t in s && forall i, j :: 0 <= i < j < |s| ==> s[i].id != s[j].id
    ensures forall i, j :: 0 <= i < j < |Without(s, t)| ==> Without(s, t)[i].id != Without(s, t)[j].id
  {
  }

  // ---------------------------------------------------------------------------
  // What a run of insertions and removals leaves: a plain map and a creation order
  // ---------------------------------------------------------------------------

  datatype PidOp = Born(id: int) | Died(id: int)

  // The live ids with the time of their insertion.
  function MapAfter(ops: seq<PidOp>): map<int, nat> {
    if ops == [] then map[]
    else
      var n := |ops| - 1;
      match ops[n]
      case Born(id) => MapAfter(ops[..n])[id := n]
      case Died(id) => MapAfter(ops[..n]) - {id}
  }

  // Callers insert unused ids and remove live ones.
  predicate Legal(ops: seq<PidOp>) {
    ops == [] ||
    var n := |ops| - 1;
    Legal(ops[..n]) && (ops[n].Born? <==> ops[n].id !in MapAfter(ops[..n]))
  }

  // The list holds exactly the ids of the map, oldest first.
  ghost predicate InCreationOrder(ids: seq<int>, m: map<int, nat>) {
    && (forall id :: id in ids <==> id in m)
    && forall i, j :: 0 <= i < j < |ids| ==> m[ids[i]] < m[ids[j]]
  }

  function RemoveAt(ids: seq<int>, k: nat): (r: seq<int>)
    requires k < |ids|
    ensures |r| == |ids| - 1
    ensures forall i :: 0 <= i < |r| ==> r[i] == ids[if i < k then i else i + 1]
  {
    ids[..k] + ids[k + 1..]
  }

  lemma MapTimes(ops: seq<PidOp>, id: int)
    requires id in MapAfter(ops)
    ensures MapAfter(ops)[id] < |ops|
  {
    var n := |ops| - 1;
    if id in MapAfter(ops[..n]) { MapTimes(ops[..n], id); }
  }

  lemma {:induction false} BirthKeepsOrder(ids: seq<int>, ops: seq<PidOp>, id: int)
    requires InCreationOrder(ids, MapAfter(ops)) && id !in MapAfter(ops)
    ensures InCreationOrder(ids + [id], MapAfter(ops + [Born(id)]))
  {
    assert (ops + [Born(id)])[..|ops|] == ops;
    forall i | 0 <= i < |ids| ensures ids[i] in MapAfter(ops) && MapAfter(ops)[ids[i]] < |ops| {
      assert ids[i] in ids;
      MapTimes(ops, ids[i]);
    }
  }

  lemma {:induction false} DeathKeepsOrder(ids: seq<int>, ops: seq<PidOp>, k: nat)
    requires InCreationOrder(ids, MapAfter(ops)) && k < |ids|
    ensures InCreationOrder(RemoveAt(ids, k), MapAfter(ops + [Died(ids[k])]))
  {
    assert (ops + [Died(ids[k])])[..|ops|] == ops;
    var r := RemoveAt(ids, k);
    forall id | id in ids && id != ids[k] ensures id in r {
      var i :| 0 <= i < |ids| && ids[i] == id;
      assert id == if i < k then r[i] else r[i - 1];
    }
  }

  ghost function Ids(s: seq<Task>): (ids: seq<int>)
    ensures |ids| == |s| && forall i :: 0 <= i < |s| ==> ids[i] == s[i].id
  {
    seq(|s|, i requires 0 <= i < |s| => s[i].id)
  }

  lemma LegalStep(ops: seq<PidOp>, op: PidOp)
    requires Legal(ops) && (op.Born? <==> op.id !in MapAfter(ops))
    ensures Legal(ops + [op])
  {
    assert (ops + [op])[..|ops|] == ops;
  }

  ghost predicate HistoryOk(s: seq<Task>, ops: seq<PidOp>) { Legal(ops) && InCreationOrder(Ids(s), MapAfter(ops)) }

  lemma HistoryOfInsert(s: seq<Task>, ops: seq<PidOp>, t: Task)
    requires HistoryOk(s, ops) && forall u :: u in s ==> u.id != t.id
    ensures HistoryOk(s + [t], ops + [Born(t.id)])
  {
    hide MapAfter;
    assert t.id !in Ids(s);
    BirthKeepsOrder(Ids(s), ops, t.id);
    LegalStep(ops, Born(t.id));
    assert Ids(s + [t]) == Ids(s) + [t.id];
  }

  lemma HistoryOfRemove(s: seq<Task>, ops: seq<PidOp>, t: Task)
    requires HistoryOk(s, ops) && t in s
    ensures HistoryOk(Without(s, t), ops + [Died(t.id)])
  {
    hide MapAfter;
    var k := IndexOf(s, t);
    assert Ids(s)[k] == t.id;
    DeathKeepsOrder(Ids(s), ops, k);
    LegalStep(ops, Died(t.id));
    assert Ids(Without(s, t)) == RemoveAt(Ids(s), k);
  }

  lemma HistoryIds(s: seq<Task>, ops: seq<PidOp>, id: int)
    requires HistoryOk(s, ops)
    ensures id in MapAfter(ops) <==> exists t :: t in s && t.id == id
  {
    hide MapAfter;
    if id in MapAfter(ops) {
      var k :| 0 <= k < |Ids(s)| && Ids(s)[k] == id;
      assert s[k] in s;
    } else {
      forall t | t in s ensures t.id != id { assert Ids(s)[IndexOf(s, t)] == t.id; }
    }
  }

  class PidIndex {
    const buckets: array<Task?>
    var globalHead: Task?
    var globalTail: Task?
    var globalCount: nat
    ghost var live: seq<Task>
    ghost var chains: seq<seq<Task>>
    ghost var ops: seq<PidOp>  // every insertion and removal so far

    // The forward and backward links spell s and its reverse.
    ghost predicate ListOk(s: seq<Task>)
      reads `globalHead, `globalTail, (set t | t in s)`globalNext, (set t | t in s)`globalPrev
    {
      && globalHead == At(s, 0) && globalTail == At(s, |s| - 1)
      && (|s| > 0 ==> s[0].globalPrev == null && s[|s| - 1].globalNext == null)
      && forall i, j :: 0 <= i < j < |s| && j == i + 1 ==> s[i].globalNext == s[j] && s[j].globalPrev == s[i]
    }

    ghost predicate ChainOk(b: nat, chain: seq<Task>)
      reads buckets, (set t | t in chain)`hashNext
      requires b < buckets.Length
    {
      && buckets[b] == At(chain, 0)
      && (|chain| > 0 ==> chain[|chain| - 1].hashNext == null)
      && forall i, j :: 0 <= i < j < |chain| && j == i + 1 ==> chain[i].hashNext == chain[j]
    }

    ghost predicate ChainsOk(cs: seq<seq<Task>>, all: set<Task>)
      reads buckets, all`hashNext
    {
      && |cs| == buckets.Length == PID_HASH_BUCKETS
      && (forall b, t :: 0 <= b < |cs| && t in cs[b] ==> t in all)
      && forall b :: 0 <= b < |cs| ==> ChainOk(b, cs[b])
    }

    ghost predicate Valid()
      reads this, buckets, set t | t in live
    {
      && buckets.Length == PID_HASH_BUCKETS == |chains|
      && SameTasks(live, chains)
      && ListOk(live)
      && ChainsOk(chains, set t | t in live)
      && globalCount == |live|
      && HistoryOk(live, ops)
    }

    // pid_hash_init
    constructor ()
      ensures Valid() && live == [] && ops == [] && fresh(buckets)
    {
      buckets := new Task?[PID_HASH_BUCKETS](_ => null);
      globalHead, globalTail, globalCount := null, null, 0;
      live, chains, ops := [], seq(PID_HASH_BUCKETS, _ => []), [];
    }

    method InsertInChain(t: Task, ghost all: set<Task>)
      requires ChainsOk(chains, all) && t !in all
      modifies buckets, t`hashNext, `chains
      ensures chains == old(chains)[BucketFor(t.id) := [t] + old(chains[BucketFor(t.id)])]
      ensures ChainsOk(chains, all + {t})
    {
      var b := BucketFor(t.id);
      t.hashNext := buckets[b];
      buckets[b] := t;
      chains := chains[b := [t] + chains[b]];
    }

    method AppendToList(t: Task)
      requires ListOk(live) && t !in live
      modifies `globalHead, `globalTail, `globalCount, `live, t`globalNext, t`globalPrev, (set u | u in live)`globalNext
      ensures live == old(live) + [t] && ListOk(live) && globalCount == old(globalCount) + 1
    {
      t.globalNext := null;
      t.globalPrev := globalTail;
      if globalTail != null {
        globalTail.globalNext := t;
      } else {
        globalHead := t;
      }
      globalTail := t;
      globalCount := globalCount + 1;
      live := live + [t];
    }

    method Insert(t: Task)
      requires Valid() && t !in live
      requires forall u :: u in live ==> u.id != t.id
      modifies this, buckets, t, set u | u in live
      ensures Valid() && live == old(live) + [t] && ops == old(ops) + [Born(t.id)]
    {
      hide HistoryOk, SameTasks, ListOk, ChainsOk, BucketFor;
      SameTasksInserted(live, chains, t);
      HistoryOfInsert(live, ops, t);
      ghost var all := set u | u in live;
      assert (set u | u in live + [t]) == all + {t};
      InsertInChain(t, all);
      assert ListOk(live);
      AppendToList(t);
      assert ChainsOk(chains, all + {t});
      ops := ops + [Born(t.id)];
      assert SameTasks(live, chains);
    }

    // What pprev points at: the bucket while prev is null, and prev.hashNext afterwards.
    method UnlinkBehind(b: nat, prev: Task?, t: Task, ghost chain: seq<Task>)
      requires b < buckets.Length && ChainOk(b, chain) && Distinct(chain) && t in chain
      requires prev == At(chain, IndexOf(chain, t) - 1)
      modifies buckets, (set u | u in chain)`hashNext
      ensures ChainOk(b, Without(chain, t))
      ensures forall c :: 0 <= c < buckets.Length && c != b ==> buckets[c] == old(buckets[c])
    {
      if prev == null { buckets[b] := t.hashNext; } else { prev.hashNext := t.hashNext; }
      t.hashNext := null;
    }

    method UnlinkFromChain(t: Task, ghost all: set<Task>)
      requires ChainsOk(chains, all) && ChainsSeparate(chains)
      requires t in chains[BucketFor(t.id)]
      modifies buckets, all`hashNext, `chains
      ensures chains == old(chains)[BucketFor(t.id) := Without(old(chains[BucketFor(t.id)]), t)]
      ensures ChainsOk(chains, all - {t})
    {
      hide Without, IndexOf;
      var b := BucketFor(t.id);
      ghost var chain := chains[b];
      ghost var k := IndexOf(chain, t);
      var prev: Task? := null;
      var cur := buckets[b];
      ghost var j: int := 0;
      while cur != null && cur != t
        invariant 0 <= j <= k && cur == At(chain, j) && prev == At(chain, j - 1)
        decreases k - j
      {
        prev := cur;
        cur := cur.hashNext;
        j := j + 1;
      }
      WithoutKeepsOthers(chain, t);
      UnlinkBehind(b, prev, t, chain);
      forall c | 0 <= c < |chains| && c != b ensures ChainOk(c, chains[c]) && t !in chains[c] {
        forall u | u in chains[c] ensures u !in chain && u.hashNext == old(u.hashNext) {
          assert BucketFor(u.id) == c;
        }
        assert old(ChainOk(c, chains[c]));
      }
      chains := chains[b := Without(chain, t)];
    }

    method UnlinkFromList(t: Task)
      requires ListOk(live) && t in live && Distinct(live) && globalCount > 0
      modifies `globalHead, `globalTail, `globalCount, `live, (set u | u in live)`globalNext, (set u | u in live)`globalPrev
      ensures live == Without(old(live), t) && ListOk(live) && globalCount == old(globalCount) - 1
    {
      hide IndexOf, Without;
      ghost var s := live;
      ghost var k: int := IndexOf(live, t);
      assert t.globalPrev == At(s, k - 1) && t.globalNext == At(s, k + 1);
      if t.globalPrev != null {
        t.globalPrev.globalNext := t.globalNext;
      } else if globalHead == t {
        globalHead := t.globalNext;
      }
      if t.globalNext != null {
        t.globalNext.globalPrev := t.globalPrev;
      } else if globalTail == t {
        globalTail := t.globalPrev;
      }
      t.globalNext := null;
      t.globalPrev := null;
      if globalCount > 0 { globalCount := globalCount - 1; }
      live := Without(live, t);
    }

    method Remove(t: Task)
      requires Valid() && t in live
      modifies this, buckets, set u | u in live
      ensures Valid() && live == Without(old(live), t) && ops == old(ops) + [Died(t.id)]
    {
      hide HistoryOk, SameTasks, ListOk, ChainsOk, ChainsSeparate, Without, Distinct;
      SameTasksRemoved(live, chains, t);
      HistoryOfRemove(live, ops, t);
      WithoutKeepsOthers(live, t);
      ghost var all := set u | u in live;
      assert (set u | u in Without(live, t)) == all - {t};
      UnlinkFromChain(t, all);
      assert ListOk(live);
      UnlinkFromList(t);
      assert ChainsOk(chains, all - {t});
      ops := ops + [Died(t.id)];
      assert SameTasks(live, chains);
    }

    // The live task with this id, if any.
    method Lookup(id: int) returns (t: Task?)
      requires Valid()
      ensures t != null ==> t in live && t.id == id
      ensures t == null ==> forall u :: u in live ==> u.id != id
      ensures t != null <==> id in MapAfter(ops)
    {
      hide HistoryOk, ListOk;
      HistoryIds(live, ops, id);
      var b := BucketFor(id);
      t := buckets[b];
      ghost var j := 0;
      while t != null && t.id != id
        invariant 0 <= j <= |chains[b]| && t == At(chains[b], j)
        invariant forall i :: 0 <= i < j ==> chains[b][i].id != id
        decreases |chains[b]| - j
      {
        t := t.hashNext;
        j := j + 1;
      }
      assert t == null ==> j == |chains[b]|;
    }

    // pid_hash_enumerate with a callback that records its argument: every live task once, oldest first.
    method Enumerate() returns (visited: seq<Task>)
      requires Valid()
      ensures visited == live
    {
      hide SameTasks, ChainOk;
      visited := [];
      var t := globalHead;
      while t != null
        invariant |visited| <= |live| && visited == live[..|visited|] && t == At(live, |visited|)
        decreases |live| - |visited|
      {
        var next := t.globalNext;
        visited := visited + [t];
        t := next;
      }
    }

    method Count() returns (n: nat)
      requires Valid()
      ensures n == |live|
    {
      n := globalCount;
    }
  }
}
