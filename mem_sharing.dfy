/**
 * Which register descriptors may share memory (improver.cpp, lines 15-116).
 * Descriptors without consumers are grouped by the global work stream of
 * their producer; descriptors with consumers are grouped by chain. Each
 * group is then split by an interval colouring of the descriptors'
 * lifetimes, and every colour class gets one fresh mem_shared_id.
 */
module MemSharing {
  import opened Wrappers
  import opened PlanProto

  predicate IsSharableRegstWithoutConsumer(regst: RegstDesc) {
    |regst.consumerTaskIds| == 0 && regst.enableMemSharing
  }

  predicate IsConsumersAndProducerInSameChain(regst: RegstDesc, chainId4TaskId: int -> int) {
    forall i :: 0 <= i < |regst.consumerTaskIds| ==>
      chainId4TaskId(regst.consumerTaskIds[i]) == chainId4TaskId(regst.producerTaskId)
  }

  /**
   * The loop of IsConsumersAndProducerInSameChain: stops at the first
   * consumer on another chain than the producer.
   */
  method ConsumersAndProducerInSameChain(regst: RegstDesc, chainId4TaskId: int -> int) returns (same: bool)
    ensures same <==> IsConsumersAndProducerInSameChain(regst, chainId4TaskId)
  {
    var producerChainId := chainId4TaskId(regst.producerTaskId);
    var i := 0;
    while i < |regst.consumerTaskIds|
      invariant 0 <= i <= |regst.consumerTaskIds|
      invariant forall j :: 0 <= j < i ==> chainId4TaskId(regst.consumerTaskIds[j]) == producerChainId
    {
      if chainId4TaskId(regst.consumerTaskIds[i]) != producerChainId {
        return false;
      }
      i := i + 1;
    }
    return true;
  }

  predicate IsSharableRegstWithConsumer(regst: RegstDesc, chainId4TaskId: int -> int) {
    && |regst.consumerTaskIds| > 0
    && regst.enableMemSharing
    && regst.registerNum == 1
    && IsConsumersAndProducerInSameChain(regst, chainId4TaskId)
  }

  /** IsSharableRegstWithConsumer as a filter over one task's produced descriptors. */
  function WithConsumerFilter(chainId4TaskId: int -> int): RegstDesc -> bool {
    regst => IsSharableRegstWithConsumer(regst, chainId4TaskId)
  }

  /** A descriptor with consumers never qualifies as one without, and vice versa. */
  lemma SharableKindsAreExclusive(regst: RegstDesc, chainId4TaskId: int -> int)
    ensures !(IsSharableRegstWithoutConsumer(regst) && IsSharableRegstWithConsumer(regst, chainId4TaskId))
    ensures IsSharableRegstWithoutConsumer(regst) || IsSharableRegstWithConsumer(regst, chainId4TaskId) ==>
      regst.enableMemSharing
  {
  }

  // ---------------------------------------------------------------------------
  // Grouping by work stream

  /**
   * The sharable-without-consumer descriptors of the tasks whose global work
   * stream is `stream`, in plan order.
   */
  function StreamGroup(plan: Plan, streamId4TaskId: int -> int, stream: int): seq<RegstDesc> {
    if plan == [] then [] else
      var task := plan[|plan| - 1];
      StreamGroup(plan[..|plan| - 1], streamId4TaskId, stream) + StreamShare(task, streamId4TaskId, stream)
  }

  /** What one task adds to the group of `stream`. */
  function StreamShare(task: TaskProto, streamId4TaskId: int -> int, stream: int): seq<RegstDesc> {
    if streamId4TaskId(task.taskId) == stream
    then ProducedWhere(task.produced, IsSharableRegstWithoutConsumer) else []
  }

  /**
   * Every member of a stream group qualifies, and in a well-formed plan its
   * producer runs on that stream; so groups of different streams are disjoint.
   */
  lemma {:induction false} StreamGroupMembers(plan: Plan, streamId4TaskId: int -> int, stream: int)
    ensures forall r :: r in StreamGroup(plan, streamId4TaskId, stream) ==>
      IsSharableRegstWithoutConsumer(r) && (WellFormed(plan) ==> streamId4TaskId(r.producerTaskId) == stream)
  {
    if plan != [] {
      var init := plan[..|plan| - 1];
      var task := plan[|plan| - 1];
      StreamGroupMembers(init, streamId4TaskId, stream);
      ProducedWhereMembers(task.produced, IsSharableRegstWithoutConsumer);
      assert WellFormed(plan) ==> WellFormed(init) by {
        if WellFormed(plan) {
          forall i, j | 0 <= i < |init| && 0 <= j < |init[i].produced|
            ensures init[i].produced[j].1.producerTaskId == init[i].taskId
          {
            assert init[i] == plan[i];
          }
        }
      }
    }
  }

  lemma StreamGroupsAreDisjoint(plan: Plan, streamId4TaskId: int -> int, s1: int, s2: int)
    requires WellFormed(plan) && s1 != s2
    ensures forall r :: r in StreamGroup(plan, streamId4TaskId, s1) ==> r !in StreamGroup(plan, streamId4TaskId, s2)
  {
    StreamGroupMembers(plan, streamId4TaskId, s1);
    StreamGroupMembers(plan, streamId4TaskId, s2);
  }

  lemma StreamGroupStep(plan: Plan, streamId4TaskId: int -> int, i: nat, s: int)
    requires i < |plan|
    ensures StreamGroup(plan[..i + 1], streamId4TaskId, s) ==
      StreamGroup(plan[..i], streamId4TaskId, s) + StreamShare(plan[i], streamId4TaskId, s)
  {
    assert plan[..i + 1][..i] == plan[..i];
  }

  /**
   * The inner loop of the grouping functions: appends the descriptors of
   * `entries` that `keep` accepts to the list under `key`.
   */
  method AppendProducedWhere(
    m: map<int, seq<RegstDesc>>, key: int, entries: seq<(string, RegstDesc)>, keep: RegstDesc -> bool)
    returns (m': map<int, seq<RegstDesc>>)
    requires forall k :: k in m ==> m[k] != []
    ensures forall k :: k in m' ==> m'[k] != []
    ensures forall k :: k != key ==> GroupOf(m', k) == GroupOf(m, k)
    ensures GroupOf(m', key) == GroupOf(m, key) + ProducedWhere(entries, keep)
  {
    m' := m;
    var j := 0;
    while j < |entries|
      invariant 0 <= j <= |entries|
      invariant forall k :: k in m' ==> m'[k] != []
      invariant forall k :: k != key ==> GroupOf(m', k) == GroupOf(m, k)
      invariant GroupOf(m', key) == GroupOf(m, key) + ProducedWhere(entries[..j], keep)
    {
      assert entries[..j + 1][..j] == entries[..j];
      var regst := entries[j].1;
      if keep(regst) {
        m' := m'[key := GroupOf(m', key) + [regst]];
      }
      j := j + 1;
    }
    assert entries[..j] == entries;
  }

  /**
   * The second loop of the grouping functions: visits every key of the map
   * once and hands over its list when it has more than one member. `keys`
   * are the keys whose lists were handed over, in that order.
   */
  method ListsLongerThanOne(m: map<int, seq<RegstDesc>>, ghost spec: int -> seq<RegstDesc>)
    returns (groups: seq<seq<RegstDesc>>, ghost keys: seq<int>)
    requires forall k :: GroupOf(m, k) == spec(k)
    ensures |keys| == |groups| && Distinct(keys)
    ensures forall i :: 0 <= i < |groups| ==> |groups[i]| > 1 && groups[i] == spec(keys[i])
    ensures forall k :: |spec(k)| > 1 ==> k in keys
    ensures forall g :: g in groups <==> |g| > 1 && exists k :: g == spec(k)
  {
    groups, keys := [], [];
    var rest := m.Keys;
    while rest != {}
      invariant rest <= m.Keys
      invariant |keys| == |groups| && Distinct(keys)
      invariant forall i :: 0 <= i < |groups| ==> keys[i] !in rest && |groups[i]| > 1 && groups[i] == spec(keys[i])
      invariant forall k :: k in m && k !in rest && |m[k]| > 1 ==> k in keys
      decreases rest
    {
      NonEmptyHasMember(rest);
      var key :| key in rest;
      if |m[key]| > 1 {
        assert m[key] == spec(key) by { assert GroupOf(m, key) == spec(key); }
        groups, keys := groups + [m[key]], keys + [key];
      }
      rest := rest - {key};
    }
    forall k | |spec(k)| > 1
      ensures k in keys
    {
      assert GroupOf(m, k) == spec(k);
    }
  }

  /** The first loop of the stream grouping: every task's qualifying descriptors under its stream. */
  method GroupByStream(plan: Plan, streamId4TaskId: int -> int) returns (stream2regsts: map<int, seq<RegstDesc>>)
    ensures forall s :: GroupOf(stream2regsts, s) == StreamGroup(plan, streamId4TaskId, s)
    ensures forall s :: s in stream2regsts ==> stream2regsts[s] != []
  {
    stream2regsts := map[];
    var i := 0;
    while i < |plan|
      invariant 0 <= i <= |plan|
      invariant forall s :: GroupOf(stream2regsts, s) == StreamGroup(plan[..i], streamId4TaskId, s)
      invariant forall s :: s in stream2regsts ==> stream2regsts[s] != []
    {
      var task := plan[i];
      var stream := streamId4TaskId(task.taskId);
      var prev := stream2regsts;
      stream2regsts := AppendProducedWhere(stream2regsts, stream, task.produced, IsSharableRegstWithoutConsumer);
      forall s ensures GroupOf(stream2regsts, s) == StreamGroup(plan[..i + 1], streamId4TaskId, s) {
        StreamGroupStep(plan, streamId4TaskId, i, s);
        assert GroupOf(prev, s) == StreamGroup(plan[..i], streamId4TaskId, s);
      }
      i := i + 1;
    }
    assert plan[..i] == plan;
  }

  /** The groups of `streams`, in that order. */
  function StreamGroupsAt(plan: Plan, streamId4TaskId: int -> int, streams: seq<int>): seq<seq<RegstDesc>> {
    seq(|streams|, i requires 0 <= i < |streams| => StreamGroup(plan, streamId4TaskId, streams[i]))
  }

  /** `streams` lists, once each, exactly the streams whose group has more than one member. */
  ghost predicate HandsOverStreams(plan: Plan, streamId4TaskId: int -> int, streams: seq<int>) {
    && Distinct(streams)
    && (forall i :: 0 <= i < |streams| ==> |StreamGroup(plan, streamId4TaskId, streams[i])| > 1)
    && (forall s :: |StreamGroup(plan, streamId4TaskId, s)| > 1 ==> s in streams)
  }

  /** `g` is the group of some stream. */
  ghost predicate IsStreamGroup(plan: Plan, streamId4TaskId: int -> int, g: seq<RegstDesc>) {
    exists s :: g == StreamGroup(plan, streamId4TaskId, s)
  }

  /**
   * ForEachSharableStreamRegstDescsWithoutConsumer: the handler receives the
   * group of every stream with more than one member, once per stream, and
   * nothing else; `streams` are those streams in the order they were visited.
   */
  method ForEachSharableStreamRegstDescsWithoutConsumer(plan: Plan, streamId4TaskId: int -> int)
    returns (groups: seq<seq<RegstDesc>>, ghost streams: seq<int>)
    ensures HandsOverStreams(plan, streamId4TaskId, streams)
    ensures groups == StreamGroupsAt(plan, streamId4TaskId, streams)
    ensures forall g :: g in groups <==> |g| > 1 && IsStreamGroup(plan, streamId4TaskId, g)
  {
    var stream2regsts := GroupByStream(plan, streamId4TaskId);
    ghost var spec := s => StreamGroup(plan, streamId4TaskId, s);
    groups, streams := ListsLongerThanOne(stream2regsts, spec);
    assert forall i :: 0 <= i < |streams| ==> spec(streams[i]) == StreamGroup(plan, streamId4TaskId, streams[i]);
    forall g | |g| > 1 && IsStreamGroup(plan, streamId4TaskId, g)
      ensures g in groups
    {
      var s :| g == StreamGroup(plan, streamId4TaskId, s);
      assert g == spec(s);
    }
    forall g | g in groups
      ensures IsStreamGroup(plan, streamId4TaskId, g)
    {
      var i :| 0 <= i < |groups| && groups[i] == g;
      assert g == StreamGroup(plan, streamId4TaskId, streams[i]);
    }
  }

  // ---------------------------------------------------------------------------
  // Grouping by chain

  /** The tasks of chain `chainId` (task_set_info.chain_id), in plan order. */
  function ChainTasks(plan: Plan, chainId: int): seq<TaskProto> {
    if plan == [] then [] else
      var task := plan[|plan| - 1];
      ChainTasks(plan[..|plan| - 1], chainId) + (if task.chainId == chainId then [task] else [])
  }

  /** The sharable-with-consumer descriptors produced by the tasks of chain `chainId`. */
  function ChainGroup(plan: Plan, chainId4TaskId: int -> int, chainId: int): seq<RegstDesc> {
    ProducedWhereAll(ChainTasks(plan, chainId), WithConsumerFilter(chainId4TaskId))
  }

  /** chainId4TaskId agrees with the chain ids recorded in the plan. */
  ghost predicate ChainIdsAgree(plan: Plan, chainId4TaskId: int -> int) {
    forall i :: 0 <= i < |plan| ==> chainId4TaskId(plan[i].taskId) == plan[i].chainId
  }

  lemma {:induction false} ChainTasksMembers(plan: Plan, chainId: int)
    ensures forall t :: t in ChainTasks(plan, chainId) ==> t in plan && t.chainId == chainId
  {
    if plan != [] {
      ChainTasksMembers(plan[..|plan| - 1], chainId);
    }
  }

  /**
   * Every member of a chain group qualifies, and in a well-formed plan whose
   * chain lookup agrees with it, its producer and all its consumers lie on
   * that chain.
   */
  lemma ChainGroupMembers(plan: Plan, chainId4TaskId: int -> int, chainId: int)
    ensures forall r :: r in ChainGroup(plan, chainId4TaskId, chainId) ==>
      IsSharableRegstWithConsumer(r, chainId4TaskId)
    ensures WellFormed(plan) && ChainIdsAgree(plan, chainId4TaskId) ==>
      forall r :: r in ChainGroup(plan, chainId4TaskId, chainId) ==>
        chainId4TaskId(r.producerTaskId) == chainId &&
        forall c :: c in r.consumerTaskIds ==> chainId4TaskId(c) == chainId
  {
    var tasks := ChainTasks(plan, chainId);
    ProducedWhereAllMembers(tasks, WithConsumerFilter(chainId4TaskId));
    ChainTasksMembers(plan, chainId);
    if WellFormed(plan) && ChainIdsAgree(plan, chainId4TaskId) {
      forall r | r in ChainGroup(plan, chainId4TaskId, chainId)
        ensures chainId4TaskId(r.producerTaskId) == chainId
      {
        var k, j :| 0 <= k < |tasks| && 0 <= j < |tasks[k].produced| && tasks[k].produced[j].1 == r;
        assert tasks[k] in tasks;
        var p :| 0 <= p < |plan| && plan[p] == tasks[k];
        assert plan[p].produced[j].1.producerTaskId == plan[p].taskId;
      }
    }
  }

  /** The first loop of the chain grouping: the tasks of every chain, in plan order. */
  method GroupByChain(plan: Plan) returns (chain2tasks: map<int, seq<TaskProto>>)
    ensures forall c :: GroupOf(chain2tasks, c) == ChainTasks(plan, c)
  {
    chain2tasks := map[];
    var i := 0;
    while i < |plan|
      invariant 0 <= i <= |plan|
      invariant forall c :: GroupOf(chain2tasks, c) == ChainTasks(plan[..i], c)
    {
      assert plan[..i + 1][..i] == plan[..i];
      var task := plan[i];
      chain2tasks := chain2tasks[task.chainId := GroupOf(chain2tasks, task.chainId) + [task]];
      i := i + 1;
    }
    assert plan[..i] == plan;
  }

  /** The descriptors of `tasks` that qualify as sharable with consumer, task by task. */
  method CollectChainRegsts(tasks: seq<TaskProto>, chainId4TaskId: int -> int) returns (regsts: seq<RegstDesc>)
    ensures regsts == ProducedWhereAll(tasks, WithConsumerFilter(chainId4TaskId))
  {
    var keep := WithConsumerFilter(chainId4TaskId);
    regsts := [];
    var k := 0;
    while k < |tasks|
      invariant 0 <= k <= |tasks|
      invariant regsts == ProducedWhereAll(tasks[..k], keep)
    {
      assert tasks[..k + 1][..k] == tasks[..k];
      var task := tasks[k];
      var j := 0;
      while j < |task.produced|
        invariant 0 <= j <= |task.produced|
        invariant regsts == ProducedWhereAll(tasks[..k], keep) + ProducedWhere(task.produced[..j], keep)
      {
        assert task.produced[..j + 1][..j] == task.produced[..j];
        var regst := task.produced[j].1;
        if IsSharableRegstWithConsumer(regst, chainId4TaskId) {
          regsts := regsts + [regst];
        }
        j := j + 1;
      }
      assert task.produced[..j] == task.produced;
      k := k + 1;
    }
    assert tasks[..k] == tasks;
  }

  /** Chain `c` has an entry with more than one task. */
  predicate HasSeveralTasks(chain2tasks: map<int, seq<TaskProto>>, c: int) {
    c in chain2tasks && |chain2tasks[c]| > 1
  }

  /**
   * The second loop of the chain grouping: visits every chain once, skips
   * chains of one task and hands over the chain's descriptor list when it
   * has more than one member. `chainIds` are the chains handed over, in order.
   */
  method ChainListsLongerThanOne(chain2tasks: map<int, seq<TaskProto>>, chainId4TaskId: int -> int)
    returns (groups: seq<seq<RegstDesc>>, ghost chainIds: seq<int>)
    ensures |chainIds| == |groups| && Distinct(chainIds)
    ensures forall i :: 0 <= i < |groups| ==>
      && HasSeveralTasks(chain2tasks, chainIds[i])
      && |groups[i]| > 1
      && groups[i] == ProducedWhereAll(chain2tasks[chainIds[i]], WithConsumerFilter(chainId4TaskId))
    ensures forall c :: HasSeveralTasks(chain2tasks, c) && |ProducedWhereAll(chain2tasks[c], WithConsumerFilter(chainId4TaskId))| > 1 ==>
      c in chainIds
    ensures forall g :: g in groups <==>
      |g| > 1 && exists c :: HasSeveralTasks(chain2tasks, c) && g == ProducedWhereAll(chain2tasks[c], WithConsumerFilter(chainId4TaskId))
  {
    var keep := WithConsumerFilter(chainId4TaskId);
    groups, chainIds := [], [];
    var rest := chain2tasks.Keys;
    while rest != {}
      invariant rest <= chain2tasks.Keys
      invariant |chainIds| == |groups| && Distinct(chainIds)
      invariant forall i :: 0 <= i < |groups| ==>
        && chainIds[i] !in rest
        && HasSeveralTasks(chain2tasks, chainIds[i])
        && |groups[i]| > 1
        && groups[i] == ProducedWhereAll(chain2tasks[chainIds[i]], keep)
      invariant forall c :: c !in rest && HasSeveralTasks(chain2tasks, c) && |ProducedWhereAll(chain2tasks[c], keep)| > 1 ==>
        c in chainIds
      decreases rest
    {
      NonEmptyHasMember(rest);
      var c :| c in rest;
      rest := rest - {c};
      if |chain2tasks[c]| == 1 { continue; }
      var regsts := CollectChainRegsts(chain2tasks[c], chainId4TaskId);
      if |regsts| > 1 { groups, chainIds := groups + [regsts], chainIds + [c]; }
    }
  }

  /** The groups of `chainIds`, in that order. */
  function ChainGroupsAt(plan: Plan, chainId4TaskId: int -> int, chainIds: seq<int>): seq<seq<RegstDesc>> {
    seq(|chainIds|, i requires 0 <= i < |chainIds| => ChainGroup(plan, chainId4TaskId, chainIds[i]))
  }

  /**
   * `chainIds` lists, once each, exactly the chains of more than one task
   * whose group has more than one member.
   */
  ghost predicate HandsOverChains(plan: Plan, chainId4TaskId: int -> int, chainIds: seq<int>) {
    && Distinct(chainIds)
    && (forall i :: 0 <= i < |chainIds| ==>
          |ChainTasks(plan, chainIds[i])| > 1 && |ChainGroup(plan, chainId4TaskId, chainIds[i])| > 1)
    && (forall ch :: |ChainTasks(plan, ch)| > 1 && |ChainGroup(plan, chainId4TaskId, ch)| > 1 ==> ch in chainIds)
  }

  /** `g` is the group of some chain of more than one task. */
  ghost predicate IsChainGroup(plan: Plan, chainId4TaskId: int -> int, g: seq<RegstDesc>) {
    exists c :: |ChainTasks(plan, c)| > 1 && g == ChainGroup(plan, chainId4TaskId, c)
  }

  /**
   * ForEachSharableChainRegstDescsWithConsumer: the handler receives, once
   * per chain, the group of every chain with more than one task and more
   * than one qualifying descriptor, and nothing else.
   */
  method ForEachSharableChainRegstDescsWithConsumer(plan: Plan, chainId4TaskId: int -> int)
    returns (groups: seq<seq<RegstDesc>>, ghost chainIds: seq<int>)
    ensures HandsOverChains(plan, chainId4TaskId, chainIds)
    ensures groups == ChainGroupsAt(plan, chainId4TaskId, chainIds)
    ensures forall g :: g in groups <==> |g| > 1 && IsChainGroup(plan, chainId4TaskId, g)
  {
    var chain2tasks := GroupByChain(plan);
    groups, chainIds := ChainListsLongerThanOne(chain2tasks, chainId4TaskId);
    forall i | 0 <= i < |chainIds|
      ensures |ChainTasks(plan, chainIds[i])| > 1 && groups[i] == ChainGroup(plan, chainId4TaskId, chainIds[i])
    {
      assert GroupOf(chain2tasks, chainIds[i]) == ChainTasks(plan, chainIds[i]);
    }
    forall ch | |ChainTasks(plan, ch)| > 1 && |ChainGroup(plan, chainId4TaskId, ch)| > 1
      ensures ch in chainIds
    {
      assert GroupOf(chain2tasks, ch) == ChainTasks(plan, ch);
    }
    forall g | |g| > 1 && IsChainGroup(plan, chainId4TaskId, g)
      ensures g in groups
    {
      var ch :| |ChainTasks(plan, ch)| > 1 && g == ChainGroup(plan, chainId4TaskId, ch);
      var i :| 0 <= i < |chainIds| && chainIds[i] == ch;
      assert groups[i] == g;
    }
    forall g | g in groups
      ensures IsChainGroup(plan, chainId4TaskId, g)
    {
      var i :| 0 <= i < |groups| && groups[i] == g;
      assert g == ChainGroup(plan, chainId4TaskId, chainIds[i]);
    }
  }

  // ---------------------------------------------------------------------------
  // Colouring and fresh mem_shared_ids

  /**
   * The colour classes of each group, group by group. `colour` stands for
   * RegstLifetimeGraph::ForEachSameColoredRegstDescs, which is not part of
   * this model.
   */
  function Coloured(groups: seq<seq<RegstDesc>>, colour: seq<RegstDesc> -> seq<seq<RegstDesc>>): seq<seq<RegstDesc>> {
    if groups == [] then [] else
      Coloured(groups[..|groups| - 1], colour) + colour(groups[|groups| - 1])
  }

  lemma {:induction false} ColouredMembers(groups: seq<seq<RegstDesc>>, colour: seq<RegstDesc> -> seq<seq<RegstDesc>>)
    ensures forall c :: c in Coloured(groups, colour) <==> exists k :: 0 <= k < |groups| && c in colour(groups[k])
  {
    if groups != [] {
      var init := groups[..|groups| - 1];
      ColouredMembers(init, colour);
      assert forall k :: 0 <= k < |init| ==> init[k] == groups[k];
    }
  }

  /** The (regst_desc_id, mem_shared_id) handler calls for one class given `memSharedId`. */
  function GroupIds(group: seq<RegstDesc>, memSharedId: int): seq<(int, int)> {
    seq(|group|, i requires 0 <= i < |group| => (group[i].regstDescId, memSharedId))
  }

  /** The handler calls when the k-th class draws the id firstMemSharedId + k. */
  function AssignIds(groups: seq<seq<RegstDesc>>, firstMemSharedId: int): seq<(int, int)> {
    if groups == [] then [] else
      AssignIds(groups[..|groups| - 1], firstMemSharedId) +
        GroupIds(groups[|groups| - 1], firstMemSharedId + |groups| - 1)
  }

  /** The id-`k` calls of AssignIds: one per member of the k-th class. */
  ghost predicate IsIdCall(groups: seq<seq<RegstDesc>>, firstMemSharedId: int, p: (int, int)) {
    exists k, i :: 0 <= k < |groups| && 0 <= i < |groups[k]| &&
      p == (groups[k][i].regstDescId, firstMemSharedId + k)
  }

  /**
   * A descriptor is given id firstMemSharedId + k exactly when it is a member
   * of the k-th class: each class gets its own id, and one id per class.
   */
  lemma {:induction false} AssignIdsMembers(groups: seq<seq<RegstDesc>>, firstMemSharedId: int)
    ensures forall p :: p in AssignIds(groups, firstMemSharedId) <==> IsIdCall(groups, firstMemSharedId, p)
  {
    if groups != [] {
      var n := |groups|;
      var init := groups[..n - 1];
      var last := groups[n - 1];
      AssignIdsMembers(init, firstMemSharedId);
      forall p ensures p in AssignIds(groups, firstMemSharedId) <==> IsIdCall(groups, firstMemSharedId, p) {
        IdCallStep(groups, firstMemSharedId, p);
      }
    }
  }

  /** An id call of the classes is one of the earlier classes or one of the last class. */
  lemma IdCallStep(groups: seq<seq<RegstDesc>>, firstMemSharedId: int, p: (int, int))
    requires groups != []
    ensures var n := |groups|;
      IsIdCall(groups, firstMemSharedId, p) <==>
        IsIdCall(groups[..n - 1], firstMemSharedId, p) || p in GroupIds(groups[n - 1], firstMemSharedId + n - 1)
  {
    var n := |groups|;
    var init := groups[..n - 1];
    var last := groups[n - 1];
    if IsIdCall(groups, firstMemSharedId, p) {
      var k, i :| 0 <= k < n && 0 <= i < |groups[k]| && p == (groups[k][i].regstDescId, firstMemSharedId + k);
      if k < n - 1 {
        assert init[k] == groups[k];
      } else {
        assert GroupIds(last, firstMemSharedId + n - 1)[i] == p;
      }
    }
    if IsIdCall(init, firstMemSharedId, p) {
      var k, i :| 0 <= k < n - 1 && 0 <= i < |init[k]| && p == (init[k][i].regstDescId, firstMemSharedId + k);
      assert init[k] == groups[k];
    }
    if p in GroupIds(last, firstMemSharedId + n - 1) {
      var i :| 0 <= i < |last| && GroupIds(last, firstMemSharedId + n - 1)[i] == p;
      assert p == (groups[n - 1][i].regstDescId, firstMemSharedId + (n - 1));
    }
  }

  /**
   * HandleMemSharedId applied to each class in turn: draws the next id
   * (NewMemSharedId, modelled as a counter) and reports it for every member.
   */
  method HandleMemSharedIds(groups: seq<seq<RegstDesc>>, firstMemSharedId: int)
    returns (idCalls: seq<(int, int)>, nextMemSharedId: int)
    ensures nextMemSharedId == firstMemSharedId + |groups|
    ensures idCalls == AssignIds(groups, firstMemSharedId)
  {
    idCalls := [];
    nextMemSharedId := firstMemSharedId;
    var k := 0;
    while k < |groups|
      invariant 0 <= k <= |groups|
      invariant nextMemSharedId == firstMemSharedId + k
      invariant idCalls == AssignIds(groups[..k], firstMemSharedId)
    {
      assert groups[..k + 1][..k] == groups[..k];
      var group := groups[k];
      var memSharedId := nextMemSharedId;
      nextMemSharedId := nextMemSharedId + 1;
      var i := 0;
      while i < |group|
        invariant 0 <= i <= |group|
        invariant idCalls == AssignIds(groups[..k], firstMemSharedId) + GroupIds(group[..i], memSharedId)
      {
        assert GroupIds(group[..i + 1], memSharedId) ==
          GroupIds(group[..i], memSharedId) + [(group[i].regstDescId, memSharedId)];
        idCalls := idCalls + [(group[i].regstDescId, memSharedId)];
        i := i + 1;
      }
      assert group[..i] == group;
      k := k + 1;
    }
    assert groups[..k] == groups;
  }

  /** A colour class of a stream group that is handed over. */
  ghost predicate IsStreamClass(
    plan: Plan, streamId4TaskId: int -> int, colourStream: seq<RegstDesc> -> seq<seq<RegstDesc>>, c: seq<RegstDesc>)
  {
    exists s :: |StreamGroup(plan, streamId4TaskId, s)| > 1 && c in colourStream(StreamGroup(plan, streamId4TaskId, s))
  }

  /** A colour class of a chain group that is handed over. */
  ghost predicate IsChainClass(
    plan: Plan, chainId4TaskId: int -> int, colourChain: seq<RegstDesc> -> seq<seq<RegstDesc>>, c: seq<RegstDesc>)
  {
    exists ch :: |ChainTasks(plan, ch)| > 1 && |ChainGroup(plan, chainId4TaskId, ch)| > 1 &&
      c in colourChain(ChainGroup(plan, chainId4TaskId, ch))
  }

  /**
   * ForEachImprovedMemSharedId: colours the stream groups, then the chain
   * groups, and gives each colour class one fresh mem_shared_id. `coloured`
   * lists the classes in the order they were handled, group by group, each
   * group handled once; `idCalls` are the (regst_desc_id, mem_shared_id)
   * handler calls.
   */
  method ForEachImprovedMemSharedId(
    plan: Plan, streamId4TaskId: int -> int, chainId4TaskId: int -> int,
    colourStream: seq<RegstDesc> -> seq<seq<RegstDesc>>,
    colourChain: seq<RegstDesc> -> seq<seq<RegstDesc>>,
    firstMemSharedId: int)
    returns (coloured: seq<seq<RegstDesc>>, idCalls: seq<(int, int)>, nextMemSharedId: int,
             ghost streams: seq<int>, ghost chainIds: seq<int>)
    ensures HandsOverStreams(plan, streamId4TaskId, streams) && HandsOverChains(plan, chainId4TaskId, chainIds)
    ensures coloured ==
      Coloured(StreamGroupsAt(plan, streamId4TaskId, streams), colourStream) +
      Coloured(ChainGroupsAt(plan, chainId4TaskId, chainIds), colourChain)
    ensures nextMemSharedId == firstMemSharedId + |coloured|
    ensures forall p :: p in idCalls <==> IsIdCall(coloured, firstMemSharedId, p)
    ensures forall c :: c in coloured <==>
      IsStreamClass(plan, streamId4TaskId, colourStream, c) || IsChainClass(plan, chainId4TaskId, colourChain, c)
  {
    var streamGroups, chainGroups;
    streamGroups, streams := ForEachSharableStreamRegstDescsWithoutConsumer(plan, streamId4TaskId);
    chainGroups, chainIds := ForEachSharableChainRegstDescsWithConsumer(plan, chainId4TaskId);
    coloured := Coloured(streamGroups, colourStream) + Coloured(chainGroups, colourChain);
    idCalls, nextMemSharedId := HandleMemSharedIds(coloured, firstMemSharedId);
    AssignIdsMembers(coloured, firstMemSharedId);
    StreamClassesHandled(plan, streamId4TaskId, colourStream, streamGroups, streams);
    ChainClassesHandled(plan, chainId4TaskId, colourChain, chainGroups, chainIds);
  }

  /** The classes of the stream groups handed over are exactly the stream classes. */
  lemma StreamClassesHandled(
    plan: Plan, streamId4TaskId: int -> int, colourStream: seq<RegstDesc> -> seq<seq<RegstDesc>>,
    streamGroups: seq<seq<RegstDesc>>, streams: seq<int>)
    requires HandsOverStreams(plan, streamId4TaskId, streams)
    requires streamGroups == StreamGroupsAt(plan, streamId4TaskId, streams)
    ensures forall c :: c in Coloured(streamGroups, colourStream) <==> IsStreamClass(plan, streamId4TaskId, colourStream, c)
  {
    ColouredMembers(streamGroups, colourStream);
    forall c | c in Coloured(streamGroups, colourStream)
      ensures IsStreamClass(plan, streamId4TaskId, colourStream, c)
    {
      var k :| 0 <= k < |streamGroups| && c in colourStream(streamGroups[k]);
      assert streamGroups[k] == StreamGroup(plan, streamId4TaskId, streams[k]);
    }
    forall c | IsStreamClass(plan, streamId4TaskId, colourStream, c)
      ensures c in Coloured(streamGroups, colourStream)
    {
      var s :| |StreamGroup(plan, streamId4TaskId, s)| > 1 && c in colourStream(StreamGroup(plan, streamId4TaskId, s));
      var k :| 0 <= k < |streams| && streams[k] == s;
      assert streamGroups[k] == StreamGroup(plan, streamId4TaskId, s);
    }
  }

  /** The classes of the chain groups handed over are exactly the chain classes. */
  lemma ChainClassesHandled(
    plan: Plan, chainId4TaskId: int -> int, colourChain: seq<RegstDesc> -> seq<seq<RegstDesc>>,
    chainGroups: seq<seq<RegstDesc>>, chainIds: seq<int>)
    requires HandsOverChains(plan, chainId4TaskId, chainIds)
    requires chainGroups == ChainGroupsAt(plan, chainId4TaskId, chainIds)
    ensures forall c :: c in Coloured(chainGroups, colourChain) <==> IsChainClass(plan, chainId4TaskId, colourChain, c)
  {
    ColouredMembers(chainGroups, colourChain);
    forall c | c in Coloured(chainGroups, colourChain)
      ensures IsChainClass(plan, chainId4TaskId, colourChain, c)
    {
      var k :| 0 <= k < |chainGroups| && c in colourChain(chainGroups[k]);
      assert chainGroups[k] == ChainGroup(plan, chainId4TaskId, chainIds[k]);
    }
    forall c | IsChainClass(plan, chainId4TaskId, colourChain, c)
      ensures c in Coloured(chainGroups, colourChain)
    {
      var ch :| |ChainTasks(plan, ch)| > 1 && |ChainGroup(plan, chainId4TaskId, ch)| > 1 &&
        c in colourChain(ChainGroup(plan, chainId4TaskId, ch));
      var k :| 0 <= k < |chainIds| && chainIds[k] == ch;
      assert chainGroups[k] == ChainGroup(plan, chainId4TaskId, ch);
    }
  }
}
