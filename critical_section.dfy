/**
 * The critical sections of shared memory (improver.cpp, lines 342-365): the
 * consumed register descriptors that share memory, grouped by their
 * mem_shared_id and sorted by the order in graph of their producers, so that
 * each group can be guarded against its members overlapping in time.
 */
module CriticalSection {
  import opened Wrappers
  import opened PlanProto

  /** A descriptor takes part in a critical section: it shares memory and is consumed. */
  predicate IsCritical(regst: RegstDesc) {
    ToI32(regst.memSharedId) != NoMemSharedId && |regst.consumerTaskIds| > 0
  }

  /** A critical descriptor of shared id `memSharedId` (compared as an int32_t). */
  predicate IsCriticalOf(regst: RegstDesc, memSharedId: int) {
    IsCritical(regst) && ToI32(regst.memSharedId) == memSharedId
  }

  /** The critical descriptors of shared id `memSharedId` among one task's entries. */
  function CriticalIn(entries: seq<(string, RegstDesc)>, memSharedId: int): seq<RegstDesc> {
    if entries == [] then [] else
      var last := entries[|entries| - 1].1;
      CriticalIn(entries[..|entries| - 1], memSharedId) + (if IsCriticalOf(last, memSharedId) then [last] else [])
  }

  /** The critical descriptors of shared id `memSharedId`, in plan order. */
  function CriticalGroup(plan: Plan, memSharedId: int): seq<RegstDesc> {
    if plan == [] then [] else
      CriticalGroup(plan[..|plan| - 1], memSharedId) + CriticalIn(plan[|plan| - 1].produced, memSharedId)
  }

  /** Every critical descriptor among `entries` has mem sharing enabled (a CHECK in the source). */
  predicate EntriesEnableSharing(entries: seq<(string, RegstDesc)>) {
    forall j :: 0 <= j < |entries| && IsCritical(entries[j].1) ==> entries[j].1.enableMemSharing
  }

  predicate CriticalRegstsEnableSharing(plan: Plan) {
    forall i :: 0 <= i < |plan| ==> EntriesEnableSharing(plan[i].produced)
  }

  // ---------------------------------------------------------------------------
  // Order in graph

  function OrderOf(regst: RegstDesc, orderInGraph4TaskId: int -> int): int {
    orderInGraph4TaskId(regst.producerTaskId)
  }

  /** Each member's producer comes strictly earlier in the graph than the next member's. */
  predicate StrictlyAscending(s: seq<RegstDesc>, orderInGraph4TaskId: int -> int) {
    forall p, q :: 0 <= p < q < |s| ==> OrderOf(s[p], orderInGraph4TaskId) < OrderOf(s[q], orderInGraph4TaskId)
  }

  /** No two members (at different positions) have producers of the same order. */
  predicate DistinctOrders(s: seq<RegstDesc>, orderInGraph4TaskId: int -> int) {
    forall p, q :: 0 <= p < |s| && 0 <= q < |s| && p != q ==>
      OrderOf(s[p], orderInGraph4TaskId) != OrderOf(s[q], orderInGraph4TaskId)
  }

  /** DistinctOrders, stated on the multiset of members. */
  ghost predicate DistinctOrdersOf(ms: multiset<RegstDesc>, orderInGraph4TaskId: int -> int) {
    && (forall x :: x in ms ==> ms[x] == 1)
    && (forall x, y :: x in ms && y in ms && x != y ==>
          OrderOf(x, orderInGraph4TaskId) != OrderOf(y, orderInGraph4TaskId))
  }

  lemma RepeatedCountsTwice(s: seq<RegstDesc>, i: int, j: int)
    requires 0 <= i < j < |s| && s[i] == s[j]
    ensures multiset(s)[s[i]] >= 2
  {
    assert s == s[..j] + [s[j]] + s[j + 1..];
    assert s[i] in s[..j];
  }

  lemma CountedTwiceRepeats(s: seq<RegstDesc>, x: RegstDesc)
    requires multiset(s)[x] >= 2
    ensures exists i, j :: 0 <= i < j < |s| && s[i] == x && s[j] == x
  {
    assert x in multiset(s);
    var i :| 0 <= i < |s| && s[i] == x;
    assert s == s[..i] + [s[i]] + s[i + 1..];
    var rest := s[..i] + s[i + 1..];
    assert multiset(s) == multiset(rest) + multiset{x};
    assert x in multiset(rest);
    var k :| 0 <= k < |rest| && rest[k] == x;
    if k < i {
      assert s[k] == x;
    } else {
      assert s[k + 1] == x;
    }
  }

  lemma DistinctOrdersOnMultiset(s: seq<RegstDesc>, orderInGraph4TaskId: int -> int)
    ensures DistinctOrders(s, orderInGraph4TaskId) <==> DistinctOrdersOf(multiset(s), orderInGraph4TaskId)
  {
    var ms := multiset(s);
    if !DistinctOrdersOf(ms, orderInGraph4TaskId) {
      if exists x :: x in ms && ms[x] != 1 {
        var x :| x in ms && ms[x] != 1;
        CountedTwiceRepeats(s, x);
        var i, j :| 0 <= i < j < |s| && s[i] == x && s[j] == x;
        assert OrderOf(s[i], orderInGraph4TaskId) == OrderOf(s[j], orderInGraph4TaskId);
      } else {
        var x, y :| x in ms && y in ms && x != y && OrderOf(x, orderInGraph4TaskId) == OrderOf(y, orderInGraph4TaskId);
        var i :| 0 <= i < |s| && s[i] == x;
        var j :| 0 <= j < |s| && s[j] == y;
        assert i != j;
      }
    }
    if !DistinctOrders(s, orderInGraph4TaskId) {
      var p, q :| 0 <= p < |s| && 0 <= q < |s| && p != q &&
        OrderOf(s[p], orderInGraph4TaskId) == OrderOf(s[q], orderInGraph4TaskId);
      if s[p] == s[q] {
        if p < q { RepeatedCountsTwice(s, p, q); } else { RepeatedCountsTwice(s, q, p); }
      }
    }
  }

  /** Whether the orders are distinct does not depend on the order of the members. */
  lemma DistinctOrdersPermutation(s: seq<RegstDesc>, t: seq<RegstDesc>, orderInGraph4TaskId: int -> int)
    requires multiset(s) == multiset(t)
    ensures DistinctOrders(s, orderInGraph4TaskId) <==> DistinctOrders(t, orderInGraph4TaskId)
  {
    DistinctOrdersOnMultiset(s, orderInGraph4TaskId);
    DistinctOrdersOnMultiset(t, orderInGraph4TaskId);
  }

  // ---------------------------------------------------------------------------
  // The sort

  /**
   * The state of one insertion step on `s`: the first i + 1 members, save
   * the one at j being moved, are ascending, and it comes before all members
   * after it.
   */
  predicate InsertingAt(s: seq<RegstDesc>, i: int, j: int, orderInGraph4TaskId: int -> int)
    requires 0 <= j <= i < |s|
  {
    && (forall p, q :: 0 <= p < q <= i && p != j && q != j ==>
          OrderOf(s[p], orderInGraph4TaskId) < OrderOf(s[q], orderInGraph4TaskId))
    && (forall q :: j < q <= i ==> OrderOf(s[j], orderInGraph4TaskId) < OrderOf(s[q], orderInGraph4TaskId))
  }

  /** Swapping the moving member with a larger left neighbour keeps the insertion state. */
  lemma SwapKeepsInserting(s: seq<RegstDesc>, i: int, j: int, orderInGraph4TaskId: int -> int)
    requires 0 < j <= i < |s|
    requires InsertingAt(s, i, j, orderInGraph4TaskId)
    requires OrderOf(s[j - 1], orderInGraph4TaskId) > OrderOf(s[j], orderInGraph4TaskId)
    ensures InsertingAt(s[j - 1 := s[j]][j := s[j - 1]], i, j - 1, orderInGraph4TaskId)
    ensures multiset(s[j - 1 := s[j]][j := s[j - 1]]) == multiset(s)
    ensures s[j - 1 := s[j]][j := s[j - 1]][i + 1..] == s[i + 1..]
  {
    var t := s[j - 1 := s[j]][j := s[j - 1]];
    forall p, q | 0 <= p < q <= i && p != j - 1 && q != j - 1
      ensures OrderOf(t[p], orderInGraph4TaskId) < OrderOf(t[q], orderInGraph4TaskId)
    {
      SwappedPairOrdered(s, i, j, orderInGraph4TaskId, p, q);
    }
    SwapPermutes(s, j);
  }

  /** One pair of the swapped sequence that avoids the moving member is still in order. */
  lemma SwappedPairOrdered(s: seq<RegstDesc>, i: int, j: int, orderInGraph4TaskId: int -> int, p: int, q: int)
    requires 0 < j <= i < |s|
    requires InsertingAt(s, i, j, orderInGraph4TaskId)
    requires 0 <= p < q <= i && p != j - 1 && q != j - 1
    ensures OrderOf(s[j - 1 := s[j]][j := s[j - 1]][p], orderInGraph4TaskId)
      < OrderOf(s[j - 1 := s[j]][j := s[j - 1]][q], orderInGraph4TaskId)
  {
    var t := s[j - 1 := s[j]][j := s[j - 1]];
    if p == j {
      assert t[p] == s[j - 1] && t[q] == s[q];
    } else if q == j {
      assert t[p] == s[p] && t[q] == s[j - 1];
    } else {
      assert t[p] == s[p] && t[q] == s[q];
    }
  }

  /** Swapping two neighbours keeps the multiset. */
  lemma SwapPermutes(s: seq<RegstDesc>, j: int)
    requires 0 < j < |s|
    ensures multiset(s[j - 1 := s[j]][j := s[j - 1]]) == multiset(s)
  {
    var t := s[j - 1 := s[j]][j := s[j - 1]];
    assert t == s[..j - 1] + [s[j], s[j - 1]] + s[j + 1..];
    assert s == s[..j - 1] + [s[j - 1], s[j]] + s[j + 1..];
  }

  /** The insertion stops when the moving member is first or its left neighbour is smaller. */
  lemma InsertedInOrder(s: seq<RegstDesc>, i: int, j: int, orderInGraph4TaskId: int -> int)
    requires 0 <= j <= i < |s|
    requires InsertingAt(s, i, j, orderInGraph4TaskId)
    requires j == 0 || OrderOf(s[j - 1], orderInGraph4TaskId) < OrderOf(s[j], orderInGraph4TaskId)
    ensures StrictlyAscending(s[..i + 1], orderInGraph4TaskId)
  {
    var t := s[..i + 1];
    forall p, q | 0 <= p < q < |t| ensures OrderOf(t[p], orderInGraph4TaskId) < OrderOf(t[q], orderInGraph4TaskId) {
      if q == j && p < j - 1 {
        assert OrderOf(s[p], orderInGraph4TaskId) < OrderOf(s[j - 1], orderInGraph4TaskId);
      }
    }
  }

  /**
   * One insertion step: moves a[i] left past every member of larger order.
   * Meeting a member of equal order fails, as the comparator's CHECK_NE does.
   */
  method InsertByOrder(a: array<RegstDesc>, i: int, orderInGraph4TaskId: int -> int) returns (ok: bool)
    requires 0 <= i < a.Length
    requires StrictlyAscending(a[..i], orderInGraph4TaskId)
    modifies a
    ensures multiset(a[..]) == multiset(old(a[..]))
    ensures ok ==> StrictlyAscending(a[..i + 1], orderInGraph4TaskId)
    ensures ok ==> a[i + 1..] == old(a[i + 1..])
    ensures !ok ==> !DistinctOrders(a[..], orderInGraph4TaskId)
  {
    var j := i;
    assert InsertingAt(a[..], i, j, orderInGraph4TaskId) by {
      assert forall p :: 0 <= p < i ==> a[..i][p] == a[..][p];
    }
    while j > 0
      invariant 0 <= j <= i
      invariant InsertingAt(a[..], i, j, orderInGraph4TaskId)
      invariant multiset(a[..]) == multiset(old(a[..]))
      invariant a[i + 1..] == old(a[i + 1..])
    {
      var lhs := OrderOf(a[j - 1], orderInGraph4TaskId);
      var rhs := OrderOf(a[j], orderInGraph4TaskId);
      if lhs == rhs {
        assert a[..][j - 1] == a[j - 1] && a[..][j] == a[j];
        return false;
      }
      if lhs < rhs {
        InsertedInOrder(a[..], i, j, orderInGraph4TaskId);
        return true;
      }
      ghost var s := a[..];
      SwapKeepsInserting(s, i, j, orderInGraph4TaskId);
      a[j - 1], a[j] := a[j], a[j - 1];
      assert a[..] == s[j - 1 := s[j]][j := s[j - 1]];
      j := j - 1;
    }
    InsertedInOrder(a[..], i, j, orderInGraph4TaskId);
    return true;
  }

  /**
   * std::sort of a group by order in graph, with the comparator's CHECK_NE:
   * it fails exactly when two members' producers have the same order;
   * otherwise the group ends up strictly ascending. Either way the members
   * are only rearranged.
   */
  method SortByOrderInGraph(a: array<RegstDesc>, orderInGraph4TaskId: int -> int) returns (ok: bool)
    modifies a
    ensures multiset(a[..]) == multiset(old(a[..]))
    ensures ok <==> DistinctOrders(old(a[..]), orderInGraph4TaskId)
    ensures ok ==> StrictlyAscending(a[..], orderInGraph4TaskId)
  {
    var i := 0;
    while i < a.Length
      invariant 0 <= i <= a.Length
      invariant multiset(a[..]) == multiset(old(a[..]))
      invariant StrictlyAscending(a[..i], orderInGraph4TaskId)
    {
      ok := InsertByOrder(a, i, orderInGraph4TaskId);
      if !ok {
        DistinctOrdersPermutation(a[..], old(a[..]), orderInGraph4TaskId);
        return;
      }
      i := i + 1;
    }
    assert a[..i] == a[..];
    DistinctOrdersPermutation(a[..], old(a[..]), orderInGraph4TaskId);
    ok := true;
  }

  /** Sorts a copy of `group`, as the source sorts the vector it holds for the id. */
  method SortGroup(group: seq<RegstDesc>, orderInGraph4TaskId: int -> int) returns (ok: bool, sorted: seq<RegstDesc>)
    ensures multiset(sorted) == multiset(group)
    ensures ok <==> DistinctOrders(group, orderInGraph4TaskId)
    ensures ok ==> StrictlyAscending(sorted, orderInGraph4TaskId)
  {
    var a := new RegstDesc[|group|](i requires 0 <= i < |group| => group[i]);
    assert a[..] == group;
    ok := SortByOrderInGraph(a, orderInGraph4TaskId);
    sorted := a[..];
  }

  // ---------------------------------------------------------------------------
  // Grouping by shared id

  /** The inner loop's effect on the map: each critical descriptor appended under its shared id. */
  function AddCriticalEntries(m: map<int, seq<RegstDesc>>, entries: seq<(string, RegstDesc)>): map<int, seq<RegstDesc>> {
    if entries == [] then m else
      var m' := AddCriticalEntries(m, entries[..|entries| - 1]);
      var regst := entries[|entries| - 1].1;
      if IsCritical(regst) then m'[ToI32(regst.memSharedId) := GroupOf(m', ToI32(regst.memSharedId)) + [regst]] else m'
  }

  /** The first loop's map: the critical descriptors of every task, in plan order. */
  function GroupedBySharedId(plan: Plan): map<int, seq<RegstDesc>> {
    if plan == [] then map[] else
      AddCriticalEntries(GroupedBySharedId(plan[..|plan| - 1]), plan[|plan| - 1].produced)
  }

  /** AddCriticalEntries appends to the list of each id exactly the entries' critical descriptors of that id. */
  lemma AddCriticalEntriesGroups(m: map<int, seq<RegstDesc>>, entries: seq<(string, RegstDesc)>)
    ensures forall k :: GroupOf(AddCriticalEntries(m, entries), k) == GroupOf(m, k) + CriticalIn(entries, k)
    ensures (forall k :: k in m ==> m[k] != []) ==>
      forall k :: k in AddCriticalEntries(m, entries) ==> AddCriticalEntries(m, entries)[k] != []
  {
    forall k ensures GroupOf(AddCriticalEntries(m, entries), k) == GroupOf(m, k) + CriticalIn(entries, k) {
      AddCriticalEntriesGroup(m, entries, k);
    }
    if forall k :: k in m ==> m[k] != [] {
      AddCriticalEntriesNonEmpty(m, entries);
    }
  }

  /** The list of one id after the inner loop: the old list, then the entries' critical descriptors of that id. */
  lemma {:induction false} AddCriticalEntriesGroup(m: map<int, seq<RegstDesc>>, entries: seq<(string, RegstDesc)>, k: int)
    ensures GroupOf(AddCriticalEntries(m, entries), k) == GroupOf(m, k) + CriticalIn(entries, k)
  {
    if entries != [] {
      var n := |entries|;
      var init := entries[..n - 1];
      AddCriticalEntriesGroup(m, init, k);
      var a, b := GroupOf(m, k), CriticalIn(init, k);
      var c := if IsCriticalOf(entries[n - 1].1, k) then [entries[n - 1].1] else [];
      assert GroupOf(AddCriticalEntries(m, entries), k) == a + b + c;
      assert a + b + c == a + (b + c);
    }
  }

  /** The inner loop never leaves an empty list behind. */
  lemma {:induction false} AddCriticalEntriesNonEmpty(m: map<int, seq<RegstDesc>>, entries: seq<(string, RegstDesc)>)
    requires forall k :: k in m ==> m[k] != []
    ensures forall k :: k in AddCriticalEntries(m, entries) ==> AddCriticalEntries(m, entries)[k] != []
  {
    if entries != [] {
      AddCriticalEntriesNonEmpty(m, entries[..|entries| - 1]);
    }
  }

  /** GroupedBySharedId holds, under each id, exactly that id's critical group, and no empty list. */
  lemma {:induction false} GroupedBySharedIdGroups(plan: Plan)
    ensures forall k :: GroupOf(GroupedBySharedId(plan), k) == CriticalGroup(plan, k)
    ensures forall k :: k in GroupedBySharedId(plan) ==> GroupedBySharedId(plan)[k] != []
  {
    if plan != [] {
      var init := plan[..|plan| - 1];
      GroupedBySharedIdGroups(init);
      AddCriticalEntriesGroups(GroupedBySharedId(init), plan[|plan| - 1].produced);
    }
  }

  /**
   * The inner loop of the grouping: appends each critical descriptor of one
   * task under its shared id; a critical descriptor without mem sharing
   * fails the CHECK.
   */
  method AppendCritical(m: map<int, seq<RegstDesc>>, entries: seq<(string, RegstDesc)>)
    returns (r: Result<map<int, seq<RegstDesc>>, Error>)
    ensures r.Success? <==> EntriesEnableSharing(entries)
    ensures r.Success? ==> r.value == AddCriticalEntries(m, entries)
  {
    var m' := m;
    var j := 0;
    while j < |entries|
      invariant 0 <= j <= |entries|
      invariant forall t :: 0 <= t < j && IsCritical(entries[t].1) ==> entries[t].1.enableMemSharing
      invariant m' == AddCriticalEntries(m, entries[..j])
    {
      assert entries[..j + 1][..j] == entries[..j];
      var regst := entries[j].1;
      var memSharingId := ToI32(regst.memSharedId);
      if memSharingId != NoMemSharedId && |regst.consumerTaskIds| > 0 {
        if !regst.enableMemSharing {
          assert !EntriesEnableSharing(entries) by { assert IsCritical(entries[j].1); }
          return Failure(CheckFailed("enable_mem_sharing"));
        }
        m' := m'[memSharingId := GroupOf(m', memSharingId) + [regst]];
      }
      j := j + 1;
    }
    assert entries[..j] == entries;
    return Success(m');
  }

  /** The first loop of ForEachMemSharingCriticalSection: the critical descriptors by shared id. */
  method GroupBySharedId(plan: Plan) returns (r: Result<map<int, seq<RegstDesc>>, Error>)
    ensures r.Success? <==> CriticalRegstsEnableSharing(plan)
    ensures r.Success? ==> r.value == GroupedBySharedId(plan)
  {
    var m: map<int, seq<RegstDesc>> := map[];
    var i := 0;
    while i < |plan|
      invariant 0 <= i <= |plan|
      invariant forall t :: 0 <= t < i ==> EntriesEnableSharing(plan[t].produced)
      invariant m == GroupedBySharedId(plan[..i])
    {
      assert plan[..i + 1][..i] == plan[..i];
      var next := AppendCritical(m, plan[i].produced);
      if next.Failure? {
        assert !CriticalRegstsEnableSharing(plan) by { assert !EntriesEnableSharing(plan[i].produced); }
        return Failure(next.error);
      }
      m := next.value;
      i := i + 1;
    }
    assert plan[..i] == plan;
    return Success(m);
  }

  /** Every group of critical descriptors has producers of pairwise distinct order. */
  ghost predicate AllGroupsHaveDistinctOrders(plan: Plan, orderInGraph4TaskId: int -> int) {
    forall k :: DistinctOrders(CriticalGroup(plan, k), orderInGraph4TaskId)
  }

  /**
   * `groups[i]` holds the members of the list of `keys[i]` in ascending
   * order, and every key of `m` is visited exactly once.
   */
  ghost predicate SortedListsOf(
    m: map<int, seq<RegstDesc>>, orderInGraph4TaskId: int -> int, groups: seq<seq<RegstDesc>>, keys: seq<int>)
  {
    && |keys| == |groups|
    && Distinct(keys)
    && (forall i :: 0 <= i < |groups| ==>
          && keys[i] in m
          && multiset(groups[i]) == multiset(m[keys[i]])
          && StrictlyAscending(groups[i], orderInGraph4TaskId))
    && (forall k :: k in m ==> k in keys)
  }

  /**
   * `groups[i]` holds the members of the group of shared id `keys[i]` in
   * ascending order, and every shared id with a non-empty group is handed
   * over exactly once.
   */
  ghost predicate SortedGroupsOf(plan: Plan, orderInGraph4TaskId: int -> int, groups: seq<seq<RegstDesc>>, keys: seq<int>) {
    && |keys| == |groups|
    && Distinct(keys)
    && (forall i :: 0 <= i < |groups| ==>
          && |CriticalGroup(plan, keys[i])| > 0
          && multiset(groups[i]) == multiset(CriticalGroup(plan, keys[i]))
          && StrictlyAscending(groups[i], orderInGraph4TaskId))
    && (forall k :: |CriticalGroup(plan, k)| > 0 ==> k in keys)
  }

  /**
   * The second loop: visits every list once, sorts it, failing on a tie,
   * and hands it over; `keys` are the shared ids in the order visited.
   */
  method SortEachGroup(m: map<int, seq<RegstDesc>>, orderInGraph4TaskId: int -> int)
    returns (r: Result<seq<seq<RegstDesc>>, Error>, ghost keys: seq<int>)
    ensures r.Success? <==> forall k :: k in m ==> DistinctOrders(m[k], orderInGraph4TaskId)
    ensures r.Success? ==> SortedListsOf(m, orderInGraph4TaskId, r.value, keys)
  {
    var groups: seq<seq<RegstDesc>> := [];
    keys := [];
    var rest := m.Keys;
    while rest != {}
      invariant rest <= m.Keys
      invariant forall k :: k in m && k !in rest ==> DistinctOrders(m[k], orderInGraph4TaskId)
      invariant |keys| == |groups| && Distinct(keys)
      invariant forall i :: 0 <= i < |groups| ==>
        && keys[i] in m && keys[i] !in rest
        && multiset(groups[i]) == multiset(m[keys[i]])
        && StrictlyAscending(groups[i], orderInGraph4TaskId)
      invariant forall k :: k in m && k !in rest ==> k in keys
      decreases rest
    {
      NonEmptyHasMember(rest);
      var key :| key in rest;
      var ok, sorted := SortGroup(m[key], orderInGraph4TaskId);
      if !ok {
        return Failure(CheckFailed("lhs_order_in_graph != rhs_order_in_graph")), keys;
      }
      groups, keys := groups + [sorted], keys + [key];
      rest := rest - {key};
    }
    return Success(groups), keys;
  }

  /** A tie inside one list of GroupBySharedId is a tie inside one of the plan's groups. */
  lemma ListsHaveDistinctOrders(m: map<int, seq<RegstDesc>>, plan: Plan, orderInGraph4TaskId: int -> int)
    requires forall k :: GroupOf(m, k) == CriticalGroup(plan, k)
    ensures (forall k :: k in m ==> DistinctOrders(m[k], orderInGraph4TaskId)) <==>
      AllGroupsHaveDistinctOrders(plan, orderInGraph4TaskId)
  {
    if forall k :: k in m ==> DistinctOrders(m[k], orderInGraph4TaskId) {
      forall k ensures DistinctOrders(CriticalGroup(plan, k), orderInGraph4TaskId) {
        assert GroupOf(m, k) == CriticalGroup(plan, k);
      }
    }
    if AllGroupsHaveDistinctOrders(plan, orderInGraph4TaskId) {
      forall k | k in m ensures DistinctOrders(m[k], orderInGraph4TaskId) {
        assert GroupOf(m, k) == CriticalGroup(plan, k);
      }
    }
  }

  /**
   * The sorted lists of GroupBySharedId are the sorted groups of the plan:
   * each list is its shared id's group, and every non-empty group has a list.
   */
  lemma SortedListsAreGroups(
    m: map<int, seq<RegstDesc>>, plan: Plan, orderInGraph4TaskId: int -> int,
    groups: seq<seq<RegstDesc>>, keys: seq<int>)
    requires forall k :: k in m ==> m[k] != []
    requires forall k :: GroupOf(m, k) == CriticalGroup(plan, k)
    requires SortedListsOf(m, orderInGraph4TaskId, groups, keys)
    ensures SortedGroupsOf(plan, orderInGraph4TaskId, groups, keys)
  {
    forall i | 0 <= i < |groups|
      ensures m[keys[i]] == CriticalGroup(plan, keys[i])
    {
      assert GroupOf(m, keys[i]) == CriticalGroup(plan, keys[i]);
    }
    forall k | |CriticalGroup(plan, k)| > 0
      ensures k in keys
    {
      assert GroupOf(m, k) == CriticalGroup(plan, k);
    }
  }

  /**
   * ForEachMemSharingCriticalSection: fails exactly when a critical
   * descriptor has mem sharing disabled or two members of one group have
   * producers of the same order; otherwise hands over, once for every
   * shared id in use, its group sorted strictly ascending by order in graph.
   */
  method ForEachMemSharingCriticalSection(plan: Plan, orderInGraph4TaskId: int -> int)
    returns (r: Result<seq<seq<RegstDesc>>, Error>, ghost keys: seq<int>)
    ensures r.Success? <==>
      CriticalRegstsEnableSharing(plan) && AllGroupsHaveDistinctOrders(plan, orderInGraph4TaskId)
    ensures r.Success? ==> SortedGroupsOf(plan, orderInGraph4TaskId, r.value, keys)
  {
    keys := [];
    var grouped := GroupBySharedId(plan);
    if grouped.Failure? { return Failure(grouped.error), keys; }
    GroupedBySharedIdGroups(plan);
    ListsHaveDistinctOrders(grouped.value, plan, orderInGraph4TaskId);
    r, keys := SortEachGroup(grouped.value, orderInGraph4TaskId);
    if r.Success? {
      SortedListsAreGroups(grouped.value, plan, orderInGraph4TaskId, r.value, keys);
    }
  }

  lemma {:induction false} CriticalInMembers(entries: seq<(string, RegstDesc)>, memSharedId: int)
    ensures forall r :: r in CriticalIn(entries, memSharedId) <==>
      IsCriticalOf(r, memSharedId) && exists j :: 0 <= j < |entries| && entries[j].1 == r
  {
    if entries != [] {
      var init := entries[..|entries| - 1];
      CriticalInMembers(init, memSharedId);
      assert forall j :: 0 <= j < |init| ==> init[j] == entries[j];
    }
  }

  /** `regst` is produced by some task of the plan. */
  ghost predicate IsProducedIn(plan: Plan, regst: RegstDesc) {
    exists i, j :: 0 <= i < |plan| && 0 <= j < |plan[i].produced| && plan[i].produced[j].1 == regst
  }

  /** The group of a shared id holds exactly the plan's critical descriptors of that id. */
  lemma {:induction false} CriticalGroupMembers(plan: Plan, memSharedId: int)
    ensures forall r :: r in CriticalGroup(plan, memSharedId) <==> IsCriticalOf(r, memSharedId) && IsProducedIn(plan, r)
  {
    if plan != [] {
      var n := |plan|;
      var init := plan[..n - 1];
      CriticalGroupMembers(init, memSharedId);
      CriticalInMembers(plan[n - 1].produced, memSharedId);
      forall r ensures r in CriticalGroup(plan, memSharedId) <==> IsCriticalOf(r, memSharedId) && IsProducedIn(plan, r) {
        if IsProducedIn(init, r) {
          var i, j :| 0 <= i < n - 1 && 0 <= j < |init[i].produced| && init[i].produced[j].1 == r;
          assert plan[i] == init[i];
        }
        if IsProducedIn(plan, r) {
          var i, j :| 0 <= i < n && 0 <= j < |plan[i].produced| && plan[i].produced[j].1 == r;
          if i < n - 1 { assert plan[i] == init[i]; }
        }
      }
    }
  }

  /** When the CHECK on enable_mem_sharing passes, every member of every group has mem sharing enabled. */
  lemma CriticalGroupEnablesSharing(plan: Plan, memSharedId: int)
    requires CriticalRegstsEnableSharing(plan)
    ensures forall r :: r in CriticalGroup(plan, memSharedId) ==> r.enableMemSharing
  {
    CriticalGroupMembers(plan, memSharedId);
    forall r | r in CriticalGroup(plan, memSharedId) ensures r.enableMemSharing {
      var i, j :| 0 <= i < |plan| && 0 <= j < |plan[i].produced| && plan[i].produced[j].1 == r;
      assert EntriesEnableSharing(plan[i].produced);
    }
  }
}
