/**
 * The part of an execution plan that the plan improver reads and rewrites:
 * tasks, the register descriptors each task produces, and the register
 * descriptor id sets each task consumes.
 */
module PlanProto {
  import opened Wrappers

  /** A failed CHECK aborts the process; a HashMap::at miss throws. */
  datatype Error = CheckFailed(what: string) | OutOfRange(what: string)

  /** Where a register lives: host memory or the memory of one CUDA device. */
  datatype MemCase = HostMem | DeviceCudaMem(deviceId: int)

  /** The mem_shared_id of a register descriptor that shares no memory. */
  const NoMemSharedId: int := -1

  /** A register descriptor (RegstDescProto), with the fields the improver uses. */
  datatype RegstDesc = RegstDesc(
    regstDescId: int,
    producerTaskId: int,
    consumerTaskIds: seq<int>,
    enableMemSharing: bool,
    registerNum: int,
    minRegisterNum: int,
    maxRegisterNum: int,
    memSharedId: int,
    memCase: MemCase)

  /**
   * A task (TaskProto). A protobuf map field is modelled as the list of its
   * entries in iteration order: `produced` maps a name to a register
   * descriptor, `consumed` maps a name to a set of register descriptor ids.
   * `chainId` and `orderInGraph` come from the task's task_set_info.
   */
  datatype TaskProto = TaskProto(
    taskId: int,
    machineId: int,
    chainId: int,
    orderInGraph: int,
    produced: seq<(string, RegstDesc)>,
    consumed: seq<(string, seq<int>)>)

  type Plan = seq<TaskProto>

  /** Every register descriptor names the task that produces it as its producer. */
  ghost predicate WellFormed(plan: Plan) {
    forall i, j :: 0 <= i < |plan| && 0 <= j < |plan[i].produced| ==>
      plan[i].produced[j].1.producerTaskId == plan[i].taskId
  }

  /** The index of the first entry whose name is `key`, if any. */
  function IndexOfKey<V>(entries: seq<(string, V)>, key: string): (k: Option<nat>)
    ensures k.Some? ==> k.value < |entries| && entries[k.value].0 == key
    ensures k.Some? ==> forall i :: 0 <= i < k.value ==> entries[i].0 != key
    ensures k.None? ==> forall i :: 0 <= i < |entries| ==> entries[i].0 != key
  {
    if entries == [] then None
    else if entries[0].0 == key then Some(0)
    else match IndexOfKey(entries[1..], key)
      case None => None
      case Some(k) => Some(k + 1)
  }

  /** The register descriptors among `entries` that `keep` accepts, in iteration order. */
  function ProducedWhere(entries: seq<(string, RegstDesc)>, keep: RegstDesc -> bool): seq<RegstDesc> {
    if entries == [] then [] else
      var last := entries[|entries| - 1].1;
      ProducedWhere(entries[..|entries| - 1], keep) + (if keep(last) then [last] else [])
  }

  lemma {:induction false} ProducedWhereMembers(entries: seq<(string, RegstDesc)>, keep: RegstDesc -> bool)
    ensures forall r :: r in ProducedWhere(entries, keep) <==>
      keep(r) && exists j :: 0 <= j < |entries| && entries[j].1 == r
  {
    if entries != [] {
      var init := entries[..|entries| - 1];
      ProducedWhereMembers(init, keep);
      assert forall j :: 0 <= j < |init| ==> init[j] == entries[j];
    }
  }

  /** The descriptors `keep` accepts across `tasks`, task by task. */
  function ProducedWhereAll(tasks: seq<TaskProto>, keep: RegstDesc -> bool): seq<RegstDesc> {
    if tasks == [] then [] else
      ProducedWhereAll(tasks[..|tasks| - 1], keep) + ProducedWhere(tasks[|tasks| - 1].produced, keep)
  }

  lemma {:induction false} ProducedWhereAllMembers(tasks: seq<TaskProto>, keep: RegstDesc -> bool)
    ensures forall r :: r in ProducedWhereAll(tasks, keep) ==>
      keep(r) && exists k, j :: 0 <= k < |tasks| && 0 <= j < |tasks[k].produced| && tasks[k].produced[j].1 == r
  {
    if tasks != [] {
      var init := tasks[..|tasks| - 1];
      ProducedWhereAllMembers(init, keep);
      ProducedWhereMembers(tasks[|tasks| - 1].produced, keep);
      assert forall k :: 0 <= k < |init| ==> init[k] == tasks[k];
    }
  }

  const I32Modulus: int := 0x1_0000_0000

  /** A signed 64-bit value assigned to an int32_t: two's complement wrap. */
  function ToI32(x: int): (v: int)
    ensures -I32Modulus / 2 <= v < I32Modulus / 2
    ensures -I32Modulus / 2 <= x < I32Modulus / 2 ==> v == x
  {
    (x + I32Modulus / 2) % I32Modulus - I32Modulus / 2
  }

  /** The list a HashMap of lists holds under `key`; operator[] starts it empty. */
  function GroupOf<T>(m: map<int, seq<T>>, key: int): seq<T> {
    if key in m then m[key] else []
  }

  /** No key occurs twice: a HashMap visits each of its keys once. */
  predicate Distinct(keys: seq<int>) {
    forall i, j :: 0 <= i < j < |keys| ==> keys[i] != keys[j]
  }

  /** A non-empty set has a member: what picking the next HashMap key relies on. */
  lemma NonEmptyHasMember(s: set<int>)
    requires s != {}
    ensures exists x :: x in s
  {
    if forall x :: x !in s { assert false; }
  }
}
