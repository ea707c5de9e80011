/**
 * The memory-safety guards of improver.cpp (lines 281-340): inside one group
 * of register descriptors that share memory, the producer of the first
 * descriptor gets a control register ("out_ctrl_shared_mem_safe_guard") that
 * every sink among the consumers of the other descriptors consumes, so that
 * the first descriptor is not written again before they are done with the
 * memory.
 */
module CtrlGuard {
  import opened Wrappers
  import opened PlanProto

  const GuardName: string := "out_ctrl_shared_mem_safe_guard"
  const InCtrlName: string := "in_ctrl"

  // ---------------------------------------------------------------------------
  // Finding entries by name

  lemma IndexOfKeyAppend<V>(entries: seq<(string, V)>, key: string, value: V)
    requires IndexOfKey(entries, key).None?
    ensures IndexOfKey(entries + [(key, value)], key) == Some(|entries|)
  {
    if entries != [] {
      assert (entries + [(key, value)])[1..] == entries[1..] + [(key, value)];
      IndexOfKeyAppend(entries[1..], key, value);
    }
  }

  /** Replacing a value and keeping every name leaves every lookup where it was. */
  lemma IndexOfKeySameNames<V>(entries: seq<(string, V)>, other: seq<(string, V)>, key: string)
    requires |entries| == |other|
    requires forall i :: 0 <= i < |entries| ==> entries[i].0 == other[i].0
    ensures IndexOfKey(entries, key) == IndexOfKey(other, key)
  {
    if entries != [] {
      IndexOfKeySameNames(entries[1..], other[1..], key);
    }
  }

  /** The control register descriptor FindOrCreateProducedCtrlRegstDesc makes: no consumer yet. */
  function NewCtrlRegst(regstDescId: int, producerTaskId: int): RegstDesc {
    RegstDesc(regstDescId, producerTaskId, [], false, 1, 1, 1, NoMemSharedId, HostMem)
  }

  /** The guard register the task produces, if it has one. */
  function GuardOf(task: TaskProto): Option<RegstDesc> {
    match IndexOfKey(task.produced, GuardName)
    case Some(k) => Some(task.produced[k].1)
    case None => None
  }

  /** The ids in the task's "in_ctrl" consumed set; a task without one consumes none. */
  function InCtrl(task: TaskProto): seq<int> {
    match IndexOfKey(task.consumed, InCtrlName)
    case Some(k) => task.consumed[k].1
    case None => []
  }

  /** FindOrCreateProducedCtrlRegstDesc for the guard: adds a new guard with id `newId` if the task has none. */
  function WithGuard(task: TaskProto, newId: int): (r: TaskProto)
    ensures GuardOf(task).Some? ==> r == task
    ensures GuardOf(task).None? ==> GuardOf(r) == Some(NewCtrlRegst(newId, task.taskId))
    ensures r.taskId == task.taskId && r.consumed == task.consumed
  {
    if GuardOf(task).Some? then task else
      IndexOfKeyAppend(task.produced, GuardName, NewCtrlRegst(newId, task.taskId));
      task.(produced := task.produced + [(GuardName, NewCtrlRegst(newId, task.taskId))])
  }

  /** add_consumer_task_id on the task's guard. */
  function AddGuardConsumer(task: TaskProto, consumerTaskId: int): (r: TaskProto)
    requires GuardOf(task).Some?
    ensures GuardOf(r) == Some(GuardOf(task).value.(consumerTaskIds := GuardOf(task).value.consumerTaskIds + [consumerTaskId]))
    ensures r.taskId == task.taskId && InCtrl(r) == InCtrl(task)
  {
    var k := IndexOfKey(task.produced, GuardName).value;
    var guard := task.produced[k].1;
    var produced := task.produced[k := (GuardName, guard.(consumerTaskIds := guard.consumerTaskIds + [consumerTaskId]))];
    IndexOfKeySameNames(task.produced, produced, GuardName);
    task.(produced := produced)
  }

  /**
   * FindOrCreateConsumedCtrlRegstDescIdSet for "in_ctrl" followed by
   * add_regst_desc_id: the set is created empty if missing, then `id` appended.
   */
  function AddInCtrl(task: TaskProto, id: int): (r: TaskProto)
    ensures InCtrl(r) == InCtrl(task) + [id]
    ensures r.taskId == task.taskId && GuardOf(r) == GuardOf(task)
  {
    var consumed := if IndexOfKey(task.consumed, InCtrlName).Some? then task.consumed else
      (IndexOfKeyAppend(task.consumed, InCtrlName, []);
       task.consumed + [(InCtrlName, [])]);
    var k := IndexOfKey(consumed, InCtrlName).value;
    var updated := consumed[k := (InCtrlName, consumed[k].1 + [id])];
    IndexOfKeySameNames(consumed, updated, InCtrlName);
    task.(consumed := updated)
  }

  // ---------------------------------------------------------------------------
  // TryConnectWithMemSafeGuardCtrlRegstDesc, on values

  /**
   * The effect of TryConnectWithMemSafeGuardCtrlRegstDesc(tasks[src],
   * tasks[dst]) on the tasks and on the next fresh register descriptor id.
   * The CHECK fails when dst is not yet a consumer of the guard but already
   * lists the guard's id in its "in_ctrl" set.
   */
  function Connect(tasks: seq<TaskProto>, src: nat, dst: nat, nextId: int): Result<(seq<TaskProto>, int), Error>
    requires src < |tasks| && dst < |tasks|
  {
    var dstTaskId := tasks[dst].taskId;
    var next := if GuardOf(tasks[src]).None? then nextId + 1 else nextId;
    var withGuard := tasks[src := WithGuard(tasks[src], nextId)];
    var guard := GuardOf(withGuard[src]).value;
    if dstTaskId in guard.consumerTaskIds then Success((withGuard, next))
    else if guard.regstDescId in InCtrl(withGuard[src := AddGuardConsumer(withGuard[src], dstTaskId)][dst]) then
      Failure(CheckFailed("guard already in in_ctrl"))
    else Success((LinkTasks(withGuard, src, dst), next))
  }

  /** `dst` consumes the guard of `src`. */
  predicate Linked(tasks: seq<TaskProto>, src: nat, dst: nat)
    requires src < |tasks| && dst < |tasks|
  {
    GuardOf(tasks[src]).Some? && tasks[dst].taskId in GuardOf(tasks[src]).value.consumerTaskIds
  }

  /** Connect edits only `src` and `dst`, keeps every task id, and takes at most one fresh id. */
  lemma ConnectOnlyTouchesEnds(tasks: seq<TaskProto>, src: nat, dst: nat, nextId: int)
    requires src < |tasks| && dst < |tasks|
    requires Connect(tasks, src, dst, nextId).Success?
    ensures var (after, next) := Connect(tasks, src, dst, nextId).value;
      && |after| == |tasks|
      && (forall k :: 0 <= k < |tasks| ==> after[k].taskId == tasks[k].taskId)
      && (forall k :: 0 <= k < |tasks| && k != src && k != dst ==> after[k] == tasks[k])
      && next == (if GuardOf(tasks[src]).None? then nextId + 1 else nextId)
  {
  }

  /**
   * After a successful Connect, dst consumes the guard of src; if it did not
   * before, the guard's id is now in dst's "in_ctrl" set exactly once.
   */
  lemma ConnectLinks(tasks: seq<TaskProto>, src: nat, dst: nat, nextId: int)
    requires src < |tasks| && dst < |tasks|
    requires Connect(tasks, src, dst, nextId).Success?
    ensures var after := Connect(tasks, src, dst, nextId).value.0;
      && Linked(after, src, dst)
      && (!Linked(tasks, src, dst) ==>
            multiset(InCtrl(after[dst]))[GuardOf(after[src]).value.regstDescId] == 1)
  {
    if !Linked(tasks, src, dst) {
      var withGuard := tasks[src := WithGuard(tasks[src], nextId)];
      var guard := GuardOf(withGuard[src]).value;
      if GuardOf(tasks[src]).Some? {
        assert GuardOf(withGuard[src]) == GuardOf(tasks[src]);
      }
      assert tasks[dst].taskId !in guard.consumerTaskIds;
    }
  }

  /** Connect is idempotent: a second call with the same ends changes nothing. */
  lemma ConnectIdempotent(tasks: seq<TaskProto>, src: nat, dst: nat, nextId: int)
    requires src < |tasks| && dst < |tasks|
    requires Connect(tasks, src, dst, nextId).Success?
    ensures var (after, next) := Connect(tasks, src, dst, nextId).value;
      Connect(after, src, dst, next) == Success((after, next))
  {
    ConnectLinks(tasks, src, dst, nextId);
    var (after, next) := Connect(tasks, src, dst, nextId).value;
    assert after[src := WithGuard(after[src], next)] == after;
  }

  /** Connect never takes a consumer away from a guard. */
  lemma ConnectKeepsLinks(tasks: seq<TaskProto>, src: nat, dst: nat, nextId: int, i: nat, j: nat)
    requires src < |tasks| && dst < |tasks| && i < |tasks| && j < |tasks|
    requires Connect(tasks, src, dst, nextId).Success?
    requires Linked(tasks, i, j)
    ensures Linked(Connect(tasks, src, dst, nextId).value.0, i, j)
  {
    ConnectOnlyTouchesEnds(tasks, src, dst, nextId);
  }

  // ---------------------------------------------------------------------------
  // When the CHECK cannot fail

  /** The same tasks, by position and id, whatever else was edited. */
  predicate SameTaskIds(tasks: seq<TaskProto>, other: seq<TaskProto>) {
    |tasks| == |other| && forall k :: 0 <= k < |tasks| ==> tasks[k].taskId == other[k].taskId
  }

  predicate TaskIdsUnique(tasks: seq<TaskProto>) {
    forall i, j :: 0 <= i < j < |tasks| ==> tasks[i].taskId != tasks[j].taskId
  }

  /** The guard of tasks[i] and the "in_ctrl" set of tasks[j] agree: the id is there once iff j consumes it. */
  ghost predicate PairAgrees(tasks: seq<TaskProto>, i: nat, j: nat)
    requires i < |tasks| && j < |tasks|
  {
    GuardOf(tasks[i]).Some? ==>
      multiset(InCtrl(tasks[j]))[GuardOf(tasks[i]).value.regstDescId] ==
        if tasks[j].taskId in GuardOf(tasks[i]).value.consumerTaskIds then 1 else 0
  }

  ghost predicate IdsBelow(task: TaskProto, nextId: int) {
    && (GuardOf(task).Some? ==> GuardOf(task).value.regstDescId < nextId)
    && (forall x :: x in InCtrl(task) ==> x < nextId)
  }

  /**
   * The guards of the plan are consistent with the "in_ctrl" sets: task ids
   * are unique, guard ids are distinct and, like every "in_ctrl" id, below
   * the next fresh id, and every guard is listed once exactly in the
   * "in_ctrl" set of each of its consumers and nowhere else.
   */
  ghost predicate GuardsAgree(tasks: seq<TaskProto>, nextId: int) {
    && TaskIdsUnique(tasks)
    && (forall i :: 0 <= i < |tasks| ==> IdsBelow(tasks[i], nextId))
    && (forall i, j ::
          0 <= i < |tasks| && 0 <= j < |tasks| && i != j && GuardOf(tasks[i]).Some? && GuardOf(tasks[j]).Some? ==>
          GuardOf(tasks[i]).value.regstDescId != GuardOf(tasks[j]).value.regstDescId)
    && (forall i, j :: 0 <= i < |tasks| && 0 <= j < |tasks| ==> PairAgrees(tasks, i, j))
  }

  /** A plan without guards whose task ids are unique and whose "in_ctrl" ids are below the next id agrees. */
  lemma NoGuardsAgree(tasks: seq<TaskProto>, nextId: int)
    requires TaskIdsUnique(tasks)
    requires forall i :: 0 <= i < |tasks| ==> GuardOf(tasks[i]).None? && IdsBelow(tasks[i], nextId)
    ensures GuardsAgree(tasks, nextId)
  {
  }

  /** Creating the guard of `src` with the next id keeps the agreement. */
  lemma CreateGuardAgrees(tasks: seq<TaskProto>, src: nat, nextId: int)
    requires src < |tasks| && GuardOf(tasks[src]).None?
    requires GuardsAgree(tasks, nextId)
    ensures GuardsAgree(tasks[src := WithGuard(tasks[src], nextId)], nextId + 1)
  {
    var after := tasks[src := WithGuard(tasks[src], nextId)];
    forall i, j | 0 <= i < |after| && 0 <= j < |after| ensures PairAgrees(after, i, j) {
      assert InCtrl(after[j]) == InCtrl(tasks[j]);
      if i == src {
        assert IdsBelow(tasks[j], nextId);
        assert nextId !in InCtrl(tasks[j]);
      } else {
        assert PairAgrees(tasks, i, j);
      }
    }
    forall i | 0 <= i < |after| ensures IdsBelow(after[i], nextId + 1) {
      assert IdsBelow(tasks[i], nextId);
      assert InCtrl(after[i]) == InCtrl(tasks[i]);
    }
    forall i, j | 0 <= i < |after| && 0 <= j < |after| && i != j &&
      GuardOf(after[i]).Some? && GuardOf(after[j]).Some?
      ensures GuardOf(after[i]).value.regstDescId != GuardOf(after[j]).value.regstDescId
    {
      assert IdsBelow(tasks[i], nextId) && IdsBelow(tasks[j], nextId);
    }
  }

  /** The tasks once dst consumes the guard of src and lists its id in "in_ctrl". */
  function LinkTasks(tasks: seq<TaskProto>, src: nat, dst: nat): (after: seq<TaskProto>)
    requires src < |tasks| && dst < |tasks| && GuardOf(tasks[src]).Some?
  {
    var linked := tasks[src := AddGuardConsumer(tasks[src], tasks[dst].taskId)];
    linked[dst := AddInCtrl(linked[dst], GuardOf(tasks[src]).value.regstDescId)]
  }

  /** One pair (guard of i, "in_ctrl" of j) after LinkTasks. */
  lemma LinkPairAgrees(tasks: seq<TaskProto>, src: nat, dst: nat, nextId: int, i: nat, j: nat)
    requires src < |tasks| && dst < |tasks| && i < |tasks| && j < |tasks| && GuardOf(tasks[src]).Some?
    requires tasks[dst].taskId !in GuardOf(tasks[src]).value.consumerTaskIds
    requires GuardsAgree(tasks, nextId)
    ensures PairAgrees(LinkTasks(tasks, src, dst), i, j)
  {
    var guard := GuardOf(tasks[src]).value;
    var dstTaskId := tasks[dst].taskId;
    var after := LinkTasks(tasks, src, dst);
    assert PairAgrees(tasks, i, j);
    assert after[j].taskId == tasks[j].taskId;
    if j == dst {
      assert InCtrl(after[j]) == InCtrl(tasks[j]) + [guard.regstDescId];
    } else {
      assert InCtrl(after[j]) == InCtrl(tasks[j]);
    }
    if i == src {
      assert GuardOf(after[i]).value.consumerTaskIds == guard.consumerTaskIds + [dstTaskId];
      if j == dst {
        assert PairAgrees(tasks, src, dst);
      } else {
        assert tasks[j].taskId != dstTaskId by {
          if j < dst { assert tasks[j].taskId != tasks[dst].taskId; }
          else { assert tasks[dst].taskId != tasks[j].taskId; }
        }
      }
    } else {
      assert GuardOf(after[i]) == GuardOf(tasks[i]);
      if GuardOf(tasks[i]).Some? {
        assert GuardOf(tasks[i]).value.regstDescId != guard.regstDescId;
      }
    }
  }

  /** Linking dst to an existing guard of src it does not consume yet passes the CHECK and keeps the agreement. */
  lemma LinkAgrees(tasks: seq<TaskProto>, src: nat, dst: nat, nextId: int)
    requires src < |tasks| && dst < |tasks| && GuardOf(tasks[src]).Some?
    requires tasks[dst].taskId !in GuardOf(tasks[src]).value.consumerTaskIds
    requires GuardsAgree(tasks, nextId)
    ensures GuardOf(tasks[src]).value.regstDescId !in InCtrl(tasks[dst])
    ensures GuardsAgree(LinkTasks(tasks, src, dst), nextId)
  {
    var guard := GuardOf(tasks[src]).value;
    var after := LinkTasks(tasks, src, dst);
    assert PairAgrees(tasks, src, dst);
    forall i, j | 0 <= i < |after| && 0 <= j < |after| ensures PairAgrees(after, i, j) {
      LinkPairAgrees(tasks, src, dst, nextId, i, j);
    }
    forall i | 0 <= i < |after| ensures IdsBelow(after[i], nextId) {
      assert IdsBelow(tasks[i], nextId);
      assert IdsBelow(tasks[src], nextId);
      assert GuardOf(after[i]).Some? ==> GuardOf(after[i]).value.regstDescId == GuardOf(tasks[i]).value.regstDescId;
    }
    forall i, j | 0 <= i < |after| && 0 <= j < |after| && i != j &&
      GuardOf(after[i]).Some? && GuardOf(after[j]).Some?
      ensures GuardOf(after[i]).value.regstDescId != GuardOf(after[j]).value.regstDescId
    {
      assert GuardOf(after[i]).value.regstDescId == GuardOf(tasks[i]).value.regstDescId;
      assert GuardOf(after[j]).value.regstDescId == GuardOf(tasks[j]).value.regstDescId;
    }
    assert TaskIdsUnique(after) by {
      assert forall k :: 0 <= k < |after| ==> after[k].taskId == tasks[k].taskId;
    }
  }

  /**
   * On a plan whose guards agree, Connect never fails its CHECK, keeps the
   * agreement, and leaves dst's "in_ctrl" set holding src's guard id once.
   */
  lemma ConnectAgrees(tasks: seq<TaskProto>, src: nat, dst: nat, nextId: int)
    requires src < |tasks| && dst < |tasks|
    requires GuardsAgree(tasks, nextId)
    ensures Connect(tasks, src, dst, nextId).Success?
    ensures var (after, next) := Connect(tasks, src, dst, nextId).value;
      && GuardsAgree(after, next)
      && multiset(InCtrl(after[dst]))[GuardOf(after[src]).value.regstDescId] == 1
  {
    var next := if GuardOf(tasks[src]).None? then nextId + 1 else nextId;
    var withGuard := tasks[src := WithGuard(tasks[src], nextId)];
    if GuardOf(tasks[src]).None? {
      CreateGuardAgrees(tasks, src, nextId);
    } else {
      assert withGuard == tasks;
    }
    assert GuardsAgree(withGuard, next);
    var guard := GuardOf(withGuard[src]).value;
    if tasks[dst].taskId !in guard.consumerTaskIds {
      assert withGuard[dst].taskId == tasks[dst].taskId;
      LinkAgrees(withGuard, src, dst, next);
    } else {
      assert PairAgrees(withGuard, src, dst);
    }
  }

  // ---------------------------------------------------------------------------
  // CollectTailRegstConsumerTaskIds and CollectSinkTaskIds

  /** `taskId` consumes one of the group's descriptors other than the first. */
  ghost predicate IsTailConsumer(group: seq<RegstDesc>, taskId: int) {
    exists i :: 1 <= i < |group| && taskId in group[i].consumerTaskIds
  }

  /**
   * CollectTailRegstConsumerTaskIds: the union of the consumers of every
   * descriptor but the first. The source skips the descriptor that is the
   * same object as the front one; a group holds each descriptor once, so
   * that is the one at position 0.
   */
  method CollectTailRegstConsumerTaskIds(group: seq<RegstDesc>) returns (taskIds: set<int>)
    ensures forall t :: t in taskIds <==> IsTailConsumer(group, t)
  {
    taskIds := {};
    var i := 0;
    while i < |group|
      invariant 0 <= i <= |group|
      invariant forall t :: t in taskIds <==> exists p :: 1 <= p < i && t in group[p].consumerTaskIds
    {
      if i != 0 {
        var consumers := group[i].consumerTaskIds;
        var c := 0;
        while c < |consumers|
          invariant 0 <= c <= |consumers|
          invariant forall t :: t in taskIds <==>
            (exists p :: 1 <= p < i && t in group[p].consumerTaskIds) || t in consumers[..c]
        {
          assert consumers[..c + 1] == consumers[..c] + [consumers[c]];
          taskIds := taskIds + {consumers[c]};
          c := c + 1;
        }
        assert consumers[..c] == consumers;
      }
      i := i + 1;
    }
  }

  /** From `src` some other task of `taskIds` is reachable. */
  ghost predicate ReachesOther(src: int, taskIds: set<int>, isReachable: (int, int) -> bool) {
    exists dst :: dst in taskIds && dst != src && isReachable(src, dst)
  }

  /** The lambda IsReachableToAnyOherTask inside CollectSinkTaskIds. */
  method IsReachableToAnyOtherTask(src: int, taskIds: set<int>, isReachable: (int, int) -> bool)
    returns (reaches: bool)
    ensures reaches <==> ReachesOther(src, taskIds, isReachable)
  {
    var rest := taskIds;
    while rest != {}
      invariant rest <= taskIds
      invariant forall dst :: dst in taskIds - rest && dst != src ==> !isReachable(src, dst)
      decreases rest
    {
      NonEmptyHasMember(rest);
      var dst :| dst in rest;
      if dst != src && isReachable(src, dst) {
        return true;
      }
      rest := rest - {dst};
    }
    return false;
  }

  /**
   * CollectSinkTaskIds: the output list is cleared, then holds, once each,
   * exactly the ids of `taskIds` from which no other id of the set is
   * reachable.
   */
  method CollectSinkTaskIds(taskIds: set<int>, isReachable: (int, int) -> bool) returns (sinkTaskIds: seq<int>)
    ensures forall t :: t in sinkTaskIds <==> t in taskIds && !ReachesOther(t, taskIds, isReachable)
    ensures Distinct(sinkTaskIds)
  {
    sinkTaskIds := [];
    var rest := taskIds;
    while rest != {}
      invariant rest <= taskIds
      invariant forall t :: t in sinkTaskIds <==> t in taskIds - rest && !ReachesOther(t, taskIds, isReachable)
      invariant Distinct(sinkTaskIds)
      decreases rest
    {
      NonEmptyHasMember(rest);
      var src :| src in rest;
      var reaches := IsReachableToAnyOtherTask(src, taskIds, isReachable);
      if !reaches {
        sinkTaskIds := sinkTaskIds + [src];
      }
      rest := rest - {src};
    }
  }

  /** The ids the handler connects to the header: the sinks among the tail consumers. */
  ghost predicate IsSinkOf(group: seq<RegstDesc>, isReachable: (int, int) -> bool, taskId: int) {
    IsTailConsumer(group, taskId) &&
      !(exists dst :: IsTailConsumer(group, dst) && dst != taskId && isReachable(taskId, dst))
  }

  // ---------------------------------------------------------------------------
  // MakeSetterAddCtrlRegst

  /** task_id2task_proto maps every task id to the position of its task. */
  ghost predicate IndexesTasks(index: map<int, nat>, tasks: seq<TaskProto>) {
    && (forall id :: id in index ==> index[id] < |tasks| && tasks[index[id]].taskId == id)
    && (forall i :: 0 <= i < |tasks| ==> tasks[i].taskId in index)
  }

  /**
   * The first half of MakeSetterAddCtrlRegst: the map from task id to task,
   * whose emplace CHECK fails exactly when two tasks share an id.
   */
  method IndexTasks(plan: Plan) returns (r: Result<map<int, nat>, Error>)
    ensures r.Success? <==> TaskIdsUnique(plan)
    ensures r.Success? ==> IndexesTasks(r.value, plan)
  {
    var index: map<int, nat> := map[];
    var i := 0;
    while i < |plan|
      invariant 0 <= i <= |plan|
      invariant TaskIdsUnique(plan[..i])
      invariant forall id :: id in index <==> exists p :: 0 <= p < i && plan[p].taskId == id
      invariant forall id :: id in index ==> index[id] < i && plan[index[id]].taskId == id
    {
      var taskId := plan[i].taskId;
      if taskId in index {
        assert !TaskIdsUnique(plan) by {
          var p :| 0 <= p < i && plan[p].taskId == taskId;
          assert plan[p].taskId == plan[i].taskId;
        }
        return Failure(CheckFailed("task_id2task_proto emplace"));
      }
      index := index[taskId := i];
      i := i + 1;
    }
    assert plan[..i] == plan;
    return Success(index);
  }

  // ---------------------------------------------------------------------------
  // The handler's loop, on values

  /** Every id of the task map points at a task. */
  predicate IndexInRange(index: map<int, nat>, tasks: seq<TaskProto>) {
    forall id :: id in index ==> index[id] < |tasks|
  }

  /**
   * The handler's loop on values: looks up each sink in the task map, in
   * order, and connects it to the guard of `header`. A sink missing from the
   * map fails the `at` lookup with OutOfRange, after the earlier sinks are
   * connected.
   */
  function ConnectEach(tasks: seq<TaskProto>, header: nat, sinkTaskIds: seq<int>, index: map<int, nat>, nextId: int)
    : (r: Result<(seq<TaskProto>, int), Error>)
    requires header < |tasks| && IndexInRange(index, tasks)
    ensures r.Success? ==> |r.value.0| == |tasks|
    decreases |sinkTaskIds|
  {
    if sinkTaskIds == [] then Success((tasks, nextId)) else
      var n := |sinkTaskIds|;
      var prefix := ConnectEach(tasks, header, sinkTaskIds[..n - 1], index, nextId);
      if prefix.Failure? then prefix
      else if sinkTaskIds[n - 1] !in index then Failure(OutOfRange("sink task id"))
      else
        var sink := index[sinkTaskIds[n - 1]];
        assert forall id :: id in index ==> index[id] < |tasks|;
        var c := Connect(prefix.value.0, header, sink, prefix.value.1);
        if c.Failure? then c
        else (ConnectOnlyTouchesEnds(prefix.value.0, header, sink, prefix.value.1); c)
  }

  /** A failure part-way through the loop is the failure of the whole loop. */
  lemma {:induction false} ConnectEachFailurePropagates(
    tasks: seq<TaskProto>, header: nat, sinkTaskIds: seq<int>, index: map<int, nat>, nextId: int, k: nat)
    requires header < |tasks| && IndexInRange(index, tasks)
    requires k <= |sinkTaskIds|
    requires ConnectEach(tasks, header, sinkTaskIds[..k], index, nextId).Failure?
    ensures ConnectEach(tasks, header, sinkTaskIds, index, nextId) == ConnectEach(tasks, header, sinkTaskIds[..k], index, nextId)
    decreases |sinkTaskIds|
  {
    if k == |sinkTaskIds| {
      assert sinkTaskIds[..k] == sinkTaskIds;
    } else {
      var n := |sinkTaskIds|;
      var init := sinkTaskIds[..n - 1];
      assert init[..k] == sinkTaskIds[..k];
      ConnectEachFailurePropagates(tasks, header, init, index, nextId, k);
      var prefix := ConnectEach(tasks, header, init, index, nextId);
      assert prefix.Failure?;
      assert ConnectEach(tasks, header, sinkTaskIds, index, nextId) == prefix;
    }
  }

  /**
   * On a plan whose guards agree, the loop succeeds whenever every sink is in
   * the task map, fails only on a missing sink, and keeps the agreement.
   */
  lemma {:induction false} ConnectEachAgrees(
    tasks: seq<TaskProto>, header: nat, sinkTaskIds: seq<int>, index: map<int, nat>, nextId: int)
    requires header < |tasks| && IndexInRange(index, tasks)
    requires GuardsAgree(tasks, nextId)
    ensures (forall t :: t in sinkTaskIds ==> t in index) ==> ConnectEach(tasks, header, sinkTaskIds, index, nextId).Success?
    ensures ConnectEach(tasks, header, sinkTaskIds, index, nextId).Failure? ==>
      ConnectEach(tasks, header, sinkTaskIds, index, nextId).error.OutOfRange?
    ensures ConnectEach(tasks, header, sinkTaskIds, index, nextId).Success? ==>
      var (after, next) := ConnectEach(tasks, header, sinkTaskIds, index, nextId).value;
      GuardsAgree(after, next)
    decreases |sinkTaskIds|
  {
    if sinkTaskIds != [] {
      var n := |sinkTaskIds|;
      var init, last := sinkTaskIds[..n - 1], sinkTaskIds[n - 1];
      ConnectEachAgrees(tasks, header, init, index, nextId);
      var prefix := ConnectEach(tasks, header, init, index, nextId);
      if prefix.Failure? {
        assert ConnectEach(tasks, header, sinkTaskIds, index, nextId) == prefix;
        assert forall t :: t in init ==> t in sinkTaskIds;
      } else if last in index {
        var (t, next) := prefix.value;
        ConnectAgrees(t, header, index[last], next);
        assert ConnectEach(tasks, header, sinkTaskIds, index, nextId) == Connect(t, header, index[last], next);
      }
    }
  }

  /** After the loop, every sink consumes the guard of `header`. */
  lemma {:induction false} ConnectEachLinks(
    tasks: seq<TaskProto>, header: nat, sinkTaskIds: seq<int>, index: map<int, nat>, nextId: int)
    requires header < |tasks| && IndexInRange(index, tasks)
    requires ConnectEach(tasks, header, sinkTaskIds, index, nextId).Success?
    ensures var after := ConnectEach(tasks, header, sinkTaskIds, index, nextId).value.0;
      forall t :: t in sinkTaskIds ==> t in index && Linked(after, header, index[t])
    decreases |sinkTaskIds|
  {
    if sinkTaskIds != [] {
      var n := |sinkTaskIds|;
      var init := sinkTaskIds[..n - 1];
      ConnectEachLinks(tasks, header, init, index, nextId);
      var (t, next) := ConnectEach(tasks, header, init, index, nextId).value;
      var sink := index[sinkTaskIds[n - 1]];
      assert forall id :: id in index ==> index[id] < |tasks|;
      assert ConnectEach(tasks, header, sinkTaskIds, index, nextId) == Connect(t, header, sink, next);
      var after := Connect(t, header, sink, next).value.0;
      ConnectLinks(t, header, sink, next);
      forall x | x in init
        ensures Linked(after, header, index[x])
      {
        ConnectKeepsLinks(t, header, sink, next, header, index[x]);
      }
      assert forall x :: x in sinkTaskIds ==> x in init || x == sinkTaskIds[n - 1];
    }
  }

  /** Task `k` is neither the header nor the task of a listed sink. */
  predicate Untouched(k: nat, header: nat, sinkTaskIds: seq<int>, index: map<int, nat>) {
    k != header && forall t :: t in sinkTaskIds && t in index ==> index[t] != k
  }

  /** The loop edits only the header and the sinks. */
  lemma {:induction false} ConnectEachFrame(
    tasks: seq<TaskProto>, header: nat, sinkTaskIds: seq<int>, index: map<int, nat>, nextId: int)
    requires header < |tasks| && IndexInRange(index, tasks)
    requires ConnectEach(tasks, header, sinkTaskIds, index, nextId).Success?
    ensures var after := ConnectEach(tasks, header, sinkTaskIds, index, nextId).value.0;
      forall k :: 0 <= k < |tasks| && Untouched(k, header, sinkTaskIds, index) ==> after[k] == tasks[k]
    decreases |sinkTaskIds|
  {
    if sinkTaskIds != [] {
      var n := |sinkTaskIds|;
      var init, last := sinkTaskIds[..n - 1], sinkTaskIds[n - 1];
      ConnectEachFrame(tasks, header, init, index, nextId);
      var (t, next) := ConnectEach(tasks, header, init, index, nextId).value;
      assert forall id :: id in index ==> index[id] < |tasks|;
      var sink := index[last];
      ConnectOnlyTouchesEnds(t, header, sink, next);
      var after := Connect(t, header, sink, next).value.0;
      assert ConnectEach(tasks, header, sinkTaskIds, index, nextId).value.0 == after;
      forall k | 0 <= k < |tasks| && Untouched(k, header, sinkTaskIds, index)
        ensures after[k] == tasks[k]
      {
        assert forall x :: x in init ==> x in sinkTaskIds;
        assert Untouched(k, header, init, index);
        assert last in sinkTaskIds;
      }
    }
  }

  /**
   * The state MakeSetterAddCtrlRegst's handler works on: the plan's tasks,
   * which it edits in place through the task id map, and the next register
   * descriptor id the id manager hands out.
   */
  class GuardSetter {
    var tasks: seq<TaskProto>
    var nextRegstDescId: int
    const index: map<int, nat>

    ghost predicate Valid()
      reads this
    {
      IndexesTasks(index, tasks)
    }

    constructor(plan: Plan, index: map<int, nat>, nextRegstDescId: int)
      requires IndexesTasks(index, plan)
      ensures Valid()
      ensures tasks == plan && this.index == index && this.nextRegstDescId == nextRegstDescId
    {
      tasks := plan;
      this.index := index;
      this.nextRegstDescId := nextRegstDescId;
    }

    /** TryConnectWithMemSafeGuardCtrlRegstDesc(tasks[src], tasks[dst]), editing the tasks in place. */
    method TryConnect(src: nat, dst: nat) returns (r: Outcome<Error>)
      requires src < |tasks| && dst < |tasks|
      modifies this
      ensures r.Pass? <==> Connect(old(tasks), src, dst, old(nextRegstDescId)).Success?
      ensures r.Pass? ==> (tasks, nextRegstDescId) == Connect(old(tasks), src, dst, old(nextRegstDescId)).value
      ensures r.Fail? ==> r.error == Connect(old(tasks), src, dst, old(nextRegstDescId)).error
      ensures SameTaskIds(tasks, old(tasks))
    {
      ghost var before, nextBefore := tasks, nextRegstDescId;
      var dstTaskId := tasks[dst].taskId;
      var created := GuardOf(tasks[src]).None?;
      tasks := tasks[src := WithGuard(tasks[src], nextRegstDescId)];
      if created {
        nextRegstDescId := nextRegstDescId + 1;
      }
      ghost var withGuard := tasks;
      var guard := GuardOf(tasks[src]).value;
      if dstTaskId !in guard.consumerTaskIds {
        tasks := tasks[src := AddGuardConsumer(tasks[src], dstTaskId)];
        if guard.regstDescId in InCtrl(tasks[dst]) {
          assert Connect(before, src, dst, nextBefore).Failure?;
          return Fail(CheckFailed("guard already in in_ctrl"));
        }
        tasks := tasks[dst := AddInCtrl(tasks[dst], guard.regstDescId)];
        assert tasks == LinkTasks(withGuard, src, dst);
      }
      assert Connect(before, src, dst, nextBefore) == Success((tasks, nextRegstDescId));
      return Pass;
    }

    /**
     * The handler MakeSetterAddCtrlRegst returns, applied to one critical
     * section. A one-member group changes nothing. Otherwise the header is
     * the producer of the first member, and `sinkTaskIds` are the sinks
     * among the consumers of the later members; the new state is that of
     * ConnectEach over them. A header missing from the task map fails the
     * `at` lookup.
     */
    method AddCtrlRegst(group: seq<RegstDesc>, isReachable: (int, int) -> bool)
      returns (r: Outcome<Error>, ghost sinkTaskIds: seq<int>)
      requires Valid()
      requires |group| > 0
      modifies this
      ensures Valid()
      ensures |group| == 1 ==> r.Pass? && tasks == old(tasks) && nextRegstDescId == old(nextRegstDescId)
      ensures |group| > 1 ==> Distinct(sinkTaskIds) && forall t :: t in sinkTaskIds <==> IsSinkOf(group, isReachable, t)
      ensures |group| > 1 && group[0].producerTaskId !in index ==> r == Fail(OutOfRange("header task id"))
      ensures |group| > 1 && group[0].producerTaskId in index ==>
        var c := ConnectEach(old(tasks), index[group[0].producerTaskId], sinkTaskIds, index, old(nextRegstDescId));
        && (r.Pass? <==> c.Success?)
        && (r.Pass? ==> (tasks, nextRegstDescId) == c.value)
        && (r.Fail? ==> r.error == c.error)
      ensures r.Pass? && |group| > 1 ==>
        && group[0].producerTaskId in index
        && (forall t :: IsSinkOf(group, isReachable, t) ==> t in index && Linked(tasks, index[group[0].producerTaskId], index[t]))
        && (forall k :: 0 <= k < |tasks| && Untouched(k, index[group[0].producerTaskId], sinkTaskIds, index) ==>
              tasks[k] == old(tasks)[k])
      ensures old(GuardsAgree(tasks, nextRegstDescId)) ==> r.Pass? || r.error.OutOfRange?
      ensures old(GuardsAgree(tasks, nextRegstDescId)) && r.Pass? ==> GuardsAgree(tasks, nextRegstDescId)
      ensures
        && old(GuardsAgree(tasks, nextRegstDescId))
        && group[0].producerTaskId in index
        && (forall t :: IsSinkOf(group, isReachable, t) ==> t in index)
        ==> r.Pass?
    {
      if |group| == 1 {
        return Pass, [];
      }
      var headerTaskId := group[0].producerTaskId;
      var tailIds := CollectTailRegstConsumerTaskIds(group);
      var sinks := CollectSinkTaskIds(tailIds, isReachable);
      SinksAreGroupSinks(group, isReachable, tailIds, sinks);
      sinkTaskIds := sinks;
      if headerTaskId !in index {
        return Fail(OutOfRange("header task id")), sinkTaskIds;
      }
      var header := index[headerTaskId];
      ghost var before, nextBefore := tasks, nextRegstDescId;
      r := ConnectSinks(header, sinks);
      if GuardsAgree(before, nextBefore) {
        HandlerOnAgreeingPlan(before, nextBefore, index, group, isReachable, sinks, header);
      } else if r.Pass? {
        ConnectEachLinks(before, header, sinks, index, nextBefore);
        ConnectEachFrame(before, header, sinks, index, nextBefore);
      }
    }

    /** The loop of the handler: connects each sink in turn to the guard of `header`. */
    method ConnectSinks(header: nat, sinkTaskIds: seq<int>) returns (r: Outcome<Error>)
      requires Valid() && header < |tasks|
      modifies this
      ensures Valid() && header < |tasks|
      ensures r.Pass? <==> ConnectEach(old(tasks), header, sinkTaskIds, index, old(nextRegstDescId)).Success?
      ensures r.Pass? ==> (tasks, nextRegstDescId) == ConnectEach(old(tasks), header, sinkTaskIds, index, old(nextRegstDescId)).value
      ensures r.Fail? ==> r.error == ConnectEach(old(tasks), header, sinkTaskIds, index, old(nextRegstDescId)).error
    {
      ghost var tasks0, next0 := tasks, nextRegstDescId;
      var k := 0;
      while k < |sinkTaskIds|
        invariant 0 <= k <= |sinkTaskIds|
        invariant Valid() && header < |tasks|
        invariant ConnectEach(tasks0, header, sinkTaskIds[..k], index, next0) == Success((tasks, nextRegstDescId))
      {
        assert sinkTaskIds[..k + 1][..k] == sinkTaskIds[..k];
        var sinkTaskId := sinkTaskIds[k];
        if sinkTaskId !in index {
          ConnectEachFailurePropagates(tasks0, header, sinkTaskIds, index, next0, k + 1);
          return Fail(OutOfRange("sink task id"));
        }
        r := TryConnect(header, index[sinkTaskId]);
        if r.Fail? {
          ConnectEachFailurePropagates(tasks0, header, sinkTaskIds, index, next0, k + 1);
          return;
        }
        k := k + 1;
      }
      assert sinkTaskIds[..k] == sinkTaskIds;
      return Pass;
    }
  }

  /** The sinks of the tail consumers are exactly the group's sinks. */
  lemma SinksAreGroupSinks(group: seq<RegstDesc>, isReachable: (int, int) -> bool, tailIds: set<int>, sinkTaskIds: seq<int>)
    requires forall t :: t in tailIds <==> IsTailConsumer(group, t)
    requires forall t :: t in sinkTaskIds <==> t in tailIds && !ReachesOther(t, tailIds, isReachable)
    ensures forall t :: t in sinkTaskIds <==> IsSinkOf(group, isReachable, t)
  {
  }

  /**
   * What the handler promises on a plan whose guards agree: it fails only
   * on an id missing from the task map, and never when the header and every
   * sink are there; on success the agreement is kept, every sink consumes
   * the header's guard, and every task other than the header and the sinks
   * is unchanged.
   */
  lemma HandlerOnAgreeingPlan(
    tasks: seq<TaskProto>, nextId: int, index: map<int, nat>, group: seq<RegstDesc>,
    isReachable: (int, int) -> bool, sinkTaskIds: seq<int>, header: nat)
    requires IndexesTasks(index, tasks) && GuardsAgree(tasks, nextId)
    requires |group| > 1 && group[0].producerTaskId in index && header == index[group[0].producerTaskId]
    requires forall t :: t in sinkTaskIds <==> IsSinkOf(group, isReachable, t)
    ensures (forall t :: IsSinkOf(group, isReachable, t) ==> t in index) ==>
      ConnectEach(tasks, header, sinkTaskIds, index, nextId).Success?
    ensures ConnectEach(tasks, header, sinkTaskIds, index, nextId).Failure? ==>
      ConnectEach(tasks, header, sinkTaskIds, index, nextId).error.OutOfRange?
    ensures ConnectEach(tasks, header, sinkTaskIds, index, nextId).Success? ==>
      var (after, next) := ConnectEach(tasks, header, sinkTaskIds, index, nextId).value;
      && GuardsAgree(after, next)
      && (forall t :: IsSinkOf(group, isReachable, t) ==> t in index && Linked(after, header, index[t]))
      && (forall k :: 0 <= k < |tasks| && Untouched(k, header, sinkTaskIds, index) ==> after[k] == tasks[k])
  {
    ConnectEachAgrees(tasks, header, sinkTaskIds, index, nextId);
    if ConnectEach(tasks, header, sinkTaskIds, index, nextId).Success? {
      ConnectEachLinks(tasks, header, sinkTaskIds, index, nextId);
      ConnectEachFrame(tasks, header, sinkTaskIds, index, nextId);
    }
  }

  /**
   * MakeSetterAddCtrlRegst: fails when two tasks share an id; otherwise the
   * handler's state, over the plan's own tasks.
   */
  method MakeSetterAddCtrlRegst(plan: Plan, nextRegstDescId: int) returns (r: Result<GuardSetter, Error>)
    ensures r.Success? <==> TaskIdsUnique(plan)
    ensures r.Success? ==>
      fresh(r.value) && r.value.Valid() && r.value.tasks == plan && r.value.nextRegstDescId == nextRegstDescId
  {
    var index := IndexTasks(plan);
    if index.Failure? {
      return Failure(index.error);
    }
    var setter := new GuardSetter(plan, index.value, nextRegstDescId);
    return Success(setter);
  }
}
