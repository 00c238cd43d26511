/**
 * Which tasks a lifecycle operation on one task owns (src/mms/MmsProfileServices.ts, `lifecycleOwnedTasks`): everything below
 * it, less what was trashed on its own. Parent links are arbitrary and may be cyclic.
 */
module TaskLineage {
  import opened Options

  /** `Pending` stands for every state of an unfinished lifecycle operation. */
  datatype TaskState = Active | Trashed | Purged | Pending

  datatype Task = Task(taskId: string, parentTaskId: Option<string>, state: TaskState)

  datatype Outcome = Owned(tasks: seq<Task>) | NeedsRecovery | ParentMissing

  /** The lifecycle store holds one record a task. */
  predicate UniqueIds(records: seq<Task>)
  {
    forall i, j :: 0 <= i < j < |records| ==> records[i].taskId != records[j].taskId
  }

  /** `new Map(records.map((record) => [record.taskId, record]))` */
  function ById(records: seq<Task>): map<string, Task>
  {
    if records == [] then map[]
    else ById(records[..|records| - 1])[records[|records| - 1].taskId := records[|records| - 1]]
  }

  lemma {:induction false} ByIdFinds(records: seq<Task>)
    requires UniqueIds(records)
    ensures forall i :: 0 <= i < |records| ==> records[i].taskId in ById(records) && ById(records)[records[i].taskId] == records[i]
    ensures forall id :: id in ById(records) ==> ById(records)[id] in records && ById(records)[id].taskId == id
  {
    if records != [] {
      var init := records[..|records| - 1];
      ByIdFinds(init);
      assert forall i :: 0 <= i < |init| ==> records[i] == init[i];
    }
  }

  // ---------------------------------------------------------------------------------------------
  // Being below a task
  // ---------------------------------------------------------------------------------------------

  /** Following parents from `id` first meets `root` after exactly `n` steps. */
  predicate Below(byId: map<string, Task>, root: string, id: string, n: nat)
    decreases n
  {
    if n == 0 then id == root
    else
      && id != root && id in byId && byId[id].parentTaskId.Some?
      && Below(byId, root, byId[id].parentTaskId.value, n - 1)
  }

  ghost predicate IsBelow(byId: map<string, Task>, root: string, id: string) { exists n: nat :: Below(byId, root, id, n) }

  lemma {:induction false} BelowUnique(byId: map<string, Task>, root: string, id: string, m: nat, n: nat)
    requires Below(byId, root, id, m) && Below(byId, root, id, n)
    ensures m == n
    decreases m
  {
    if m > 0 {
      BelowUnique(byId, root, byId[id].parentTaskId.value, m - 1, n - 1);
    }
  }

  /** The set the first loop grows: it holds only tasks below the root. */
  ghost predicate AllBelow(byId: map<string, Task>, root: string, ids: set<string>)
  {
    forall id :: id in ids ==> IsBelow(byId, root, id)
  }

  /** Adding the children of what is in the set changes nothing any more. */
  predicate Closed(records: seq<Task>, ids: set<string>)
  {
    forall i :: 0 <= i < |records| ==>
      records[i].parentTaskId.Some? && records[i].parentTaskId.value in ids ==> records[i].taskId in ids
  }

  lemma {:induction false} ClosedHoldsAllBelow(records: seq<Task>, root: string, ids: set<string>, id: string, n: nat)
    requires UniqueIds(records) && root in ids && Closed(records, ids)
    requires Below(ById(records), root, id, n)
    ensures id in ids
    decreases n
  {
    if n > 0 {
      ByIdFinds(records);
      hide ById;
      var record := ById(records)[id];
      ClosedHoldsAllBelow(records, root, ids, record.parentTaskId.value, n - 1);
      var i :| 0 <= i < |records| && records[i] == record;
    }
  }

  function Ids(records: seq<Task>): set<string> { set i | 0 <= i < |records| :: records[i].taskId }

  /** The growing loop: ends with exactly the tasks below the root, the root among them. */
  method TasksBelow(records: seq<Task>, taskId: string) returns (ids: set<string>)
    requires UniqueIds(records)
    ensures taskId in ids
    ensures forall id :: id in ids <==> IsBelow(ById(records), taskId, id)
  {
    ByIdFinds(records);
    hide ById, Below;
    ghost var byId := ById(records);
    ids := {taskId};
    RootIsBelow(byId, taskId);
    var changed := true;
    while changed
      invariant taskId in ids && AllBelow(byId, taskId, ids)
      invariant !changed ==> Closed(records, ids)
      decreases Ids(records) - ids, changed
    {
      changed := false;
      ghost var before := ids;
      for i := 0 to |records|
        invariant taskId in ids && before <= ids && AllBelow(byId, taskId, ids)
        invariant changed ==> exists k :: 0 <= k < |records| && records[k].taskId in ids - before
        invariant !changed ==> ids == before
        invariant !changed ==> forall k :: 0 <= k < i ==>
                                 records[k].parentTaskId.Some? && records[k].parentTaskId.value in ids ==> records[k].taskId in ids
      {
        var record := records[i];
        if record.parentTaskId.Some? && record.parentTaskId.value in ids && record.taskId !in ids {
          ChildIsBelow(byId, taskId, record);
          ids := ids + {record.taskId};
          changed := true;
          assert records[i].taskId in ids - before;
        }
      }
      if changed {
        ghost var k :| 0 <= k < |records| && records[k].taskId in ids - before;
        assert records[k].taskId in Ids(records) - before;
        assert records[k].taskId !in Ids(records) - ids;
        assert Ids(records) - ids < Ids(records) - before;
      }
    }
    forall id | IsBelow(byId, taskId, id)
      ensures id in ids
    {
      var n: nat :| Below(byId, taskId, id, n);
      ClosedHoldsAllBelow(records, taskId, ids, id, n);
    }
  }

  lemma RootIsBelow(byId: map<string, Task>, root: string)
    ensures IsBelow(byId, root, root)
  {
    assert Below(byId, root, root, 0);
  }

  lemma ChildIsBelow(byId: map<string, Task>, root: string, record: Task)
    requires record.taskId in byId && byId[record.taskId] == record && record.parentTaskId.Some?
    requires IsBelow(byId, root, record.parentTaskId.value)
    ensures IsBelow(byId, root, record.taskId)
  {
    if record.taskId == root {
      RootIsBelow(byId, root);
    } else {
      var n: nat :| Below(byId, root, record.parentTaskId.value, n);
      assert Below(byId, root, record.taskId, n + 1);
    }
  }

  // ---------------------------------------------------------------------------------------------
  // Walking up
  // ---------------------------------------------------------------------------------------------

  datatype Verdict = Include | Exclude | FailRecovery | FailMissing

  /** What the walk from a task `n` steps below the root decides. */
  function Walk(byId: map<string, Task>, root: string, id: string, n: nat): Verdict
    requires Below(byId, root, id, n)
    decreases n
  {
    if n == 0 then Include
    else
      var task := byId[id];
      if task.state == Trashed || task.state == Purged then Exclude
      else if task.state != Active then FailRecovery
      else if task.parentTaskId.value !in byId then FailMissing
      else Walk(byId, root, task.parentTaskId.value, n - 1)
  }

  /** Every task from this one up to, but not including, the root is active. */
  predicate ChainActive(byId: map<string, Task>, root: string, id: string, n: nat)
    requires Below(byId, root, id, n)
    decreases n
  {
    n > 0 ==> byId[id].state == Active && ChainActive(byId, root, byId[id].parentTaskId.value, n - 1)
  }

  /** Some task between this one and the root is in an unfinished operation, and all between it and this one are active. */
  predicate ChainStuck(byId: map<string, Task>, root: string, id: string, n: nat)
    requires Below(byId, root, id, n)
    decreases n
  {
    n > 0 && (byId[id].state == Pending || (byId[id].state == Active && ChainStuck(byId, root, byId[id].parentTaskId.value, n - 1)))
  }

  /** The walk's answers in terms of the chain: a parent can be missing only if it is the root itself. */
  lemma {:induction false} WalkDecides(byId: map<string, Task>, root: string, id: string, n: nat)
    requires Below(byId, root, id, n)
    ensures Walk(byId, root, id, n) == Include <==> ChainActive(byId, root, id, n) && (n > 0 ==> root in byId)
    ensures Walk(byId, root, id, n) == FailMissing <==> ChainActive(byId, root, id, n) && n > 0 && root !in byId
    ensures Walk(byId, root, id, n) == FailRecovery <==> ChainStuck(byId, root, id, n)
    decreases n
  {
    if n > 0 {
      WalkDecides(byId, root, byId[id].parentTaskId.value, n - 1);
    }
  }

  /** The walk from one task, as the source's inner loop does it. */
  method WalkUp(byId: map<string, Task>, taskId: string, record: Task, ghost n: nat) returns (v: Verdict)
    requires forall id :: id in byId ==> byId[id].taskId == id
    requires record.taskId in byId && byId[record.taskId] == record
    requires Below(byId, taskId, record.taskId, n)
    ensures v == Walk(byId, taskId, record.taskId, n)
  {
    var child := record;
    ghost var left := n;
    while child.taskId != taskId
      invariant child.taskId in byId && byId[child.taskId] == child
      invariant Below(byId, taskId, child.taskId, left)
      invariant Walk(byId, taskId, child.taskId, left) == Walk(byId, taskId, record.taskId, n)
      decreases left
    {
      if child.state == Trashed || child.state == Purged {
        return Exclude;
      }
      if child.state != Active {
        return FailRecovery;
      }
      if child.parentTaskId.value !in byId {
        return FailMissing;
      }
      child := byId[child.parentTaskId.value];
      left := left - 1;
    }
    return Include;
  }

  // ---------------------------------------------------------------------------------------------
  // The whole operation
  // ---------------------------------------------------------------------------------------------

  /** Below the root with every task in between active: what the operation owns. */
  ghost predicate OwnedBy(records: seq<Task>, root: string, id: string)
  {
    exists n: nat :: Below(ById(records), root, id, n) && ChainActive(ById(records), root, id, n)
  }

  /** Below the root, and the first task up the chain that is not active is in an unfinished operation. */
  ghost predicate StuckUnder(records: seq<Task>, root: string, id: string)
  {
    exists n: nat :: Below(ById(records), root, id, n) && ChainStuck(ById(records), root, id, n)
  }

  predicate HasRecord(records: seq<Task>, id: string) { exists i | 0 <= i < |records| :: records[i].taskId == id }

  /** The records among the first `n` that the root owns, in order. */
  ghost function OwnedAmong(records: seq<Task>, root: string, n: nat): seq<Task>
    requires n <= |records|
  {
    if n == 0 then []
    else OwnedAmong(records, root, n - 1) + (if OwnedBy(records, root, records[n - 1].taskId) then [records[n - 1]] else [])
  }

  lemma VerdictMeans(records: seq<Task>, root: string, id: string, n: nat)
    requires UniqueIds(records) && Below(ById(records), root, id, n)
    ensures var v := Walk(ById(records), root, id, n);
            && (v == Include ==> OwnedBy(records, root, id) && (id != root ==> HasRecord(records, root)))
            && (v == Exclude ==> !OwnedBy(records, root, id))
            && (v == FailRecovery ==> StuckUnder(records, root, id) && !OwnedBy(records, root, id))
            && (v == FailMissing ==> !HasRecord(records, root) && OwnedBy(records, root, id) && id != root)
            && (v == Include || v == Exclude ==> !StuckUnder(records, root, id))
            && (v == FailMissing ==> !StuckUnder(records, root, id))
  {
    WalkDecides(ById(records), root, id, n);
    ByIdFinds(records);
    forall m: nat | Below(ById(records), root, id, m)
      ensures m == n
    {
      BelowUnique(ById(records), root, id, m, n);
    }
    hide ById, Walk, ChainActive, ChainStuck;
    if root in ById(records) {
      var task := ById(records)[root];
      var i :| 0 <= i < |records| && records[i] == task;
    }
  }

  /**
   * The tasks a lifecycle operation on `taskId` owns, for any parent links: exactly the records whose whole chain below the
   * root is active, in record order. It fails for recovery only when some task is stuck under the root, and for a missing
   * parent only when the root has no record of its own.
   */
  method LifecycleOwnedTasks(records: seq<Task>, taskId: string) returns (r: Outcome)
    requires UniqueIds(records)
    ensures r.Owned? ==> r.tasks == OwnedAmong(records, taskId, |records|)
    ensures r.Owned? ==> forall i :: 0 <= i < |records| ==>
                           !StuckUnder(records, taskId, records[i].taskId)
                           && (OwnedBy(records, taskId, records[i].taskId) && records[i].taskId != taskId ==> HasRecord(records, taskId))
    ensures r.NeedsRecovery? ==> exists i :: 0 <= i < |records| && StuckUnder(records, taskId, records[i].taskId)
    ensures r.ParentMissing? ==> !HasRecord(records, taskId) && exists i :: 0 <= i < |records| && OwnedBy(records, taskId, records[i].taskId)
  {
    var ids := TasksBelow(records, taskId);
    ByIdFinds(records);
    var byId := ById(records);
    hide ById, Walk, StuckUnder, OwnedBy, HasRecord;
    var owned: seq<Task> := [];
    for i := 0 to |records|
      invariant owned == OwnedAmong(records, taskId, i)
      invariant forall k :: 0 <= k < i ==>
                  !StuckUnder(records, taskId, records[k].taskId)
                  && (OwnedBy(records, taskId, records[k].taskId) && records[k].taskId != taskId ==> HasRecord(records, taskId))
    {
      var record := records[i];
      if record.taskId !in ids {
        NotBelowNotOwned(records, taskId, record.taskId);
        continue;
      }
      ghost var n: nat :| Below(byId, taskId, record.taskId, n);
      VerdictMeans(records, taskId, record.taskId, n);
      var v := WalkUp(byId, taskId, record, n);
      match v {
        case FailRecovery => return NeedsRecovery;
        case FailMissing => return ParentMissing;
        case Include => owned := owned + [record];
        case Exclude =>
      }
    }
    return Owned(owned);
  }

  lemma NotBelowNotOwned(records: seq<Task>, root: string, id: string)
    requires !IsBelow(ById(records), root, id)
    ensures !OwnedBy(records, root, id) && !StuckUnder(records, root, id)
  {
  }

  /** What is owned is closed under taking parents, up to the root. */
  lemma OwnedIsClosedUpward(records: seq<Task>, root: string, id: string)
    requires OwnedBy(records, root, id) && id != root
    ensures id in ById(records) && ById(records)[id].parentTaskId.Some?
    ensures OwnedBy(records, root, ById(records)[id].parentTaskId.value)
    ensures ById(records)[id].state == Active
  {
    var n: nat :| Below(ById(records), root, id, n) && ChainActive(ById(records), root, id, n);
    assert Below(ById(records), root, ById(records)[id].parentTaskId.value, n - 1);
  }

  /** `k` parent steps lead from one task to another, and no task on the way is the root. */
  predicate Climbs(byId: map<string, Task>, root: string, from: string, k: nat, to: string)
    decreases k
  {
    && from != root
    && if k == 0 then from == to
       else from in byId && byId[from].parentTaskId.Some? && Climbs(byId, root, byId[from].parentTaskId.value, k - 1, to)
  }

  /** A task below the root passes on its way up through every task it climbs to. */
  lemma {:induction false} ClimbsOnTheWay(byId: map<string, Task>, root: string, from: string, k: nat, to: string, n: nat)
    requires Climbs(byId, root, from, k, to) && Below(byId, root, from, n)
    ensures k < n && Below(byId, root, to, n - k)
    decreases k
  {
    if k > 0 {
      ClimbsOnTheWay(byId, root, byId[from].parentTaskId.value, k - 1, to, n - 1);
    }
  }

  /**
   * A task on a cycle of parents of any length, or one whose parents lead into a cycle, is never below a root outside it:
   * it is not owned, whatever the states, and stops no operation.
   */
  lemma CyclesAreNotOwned(records: seq<Task>, root: string, id: string, j: nat, a: string, k: nat)
    requires Climbs(ById(records), root, id, j, a) && k > 0 && Climbs(ById(records), root, a, k, a)
    ensures !IsBelow(ById(records), root, id)
    ensures !OwnedBy(records, root, id) && !StuckUnder(records, root, id)
  {
    var byId := ById(records);
    forall n: nat
      ensures !Below(byId, root, id, n)
    {
      if Below(byId, root, id, n) {
        ClimbsOnTheWay(byId, root, id, j, a, n);
        ClimbsOnTheWay(byId, root, a, k, a, n - j);
        BelowUnique(byId, root, a, n - j, n - j - k);
      }
    }
    NotBelowNotOwned(records, root, id);
  }
}
