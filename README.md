# Plan improver and object slot, in Dafny

This project models two parts of OneFlow.

The first is the plan improver (`oneflow/core/job/improver.cpp`). It rewrites an execution plan, a list of tasks that produce register descriptors, in three ways:

- **Memory sharing.** Descriptors without consumers are grouped by the global work stream of their producer. Descriptors with consumers, one register, and producer and consumers on one chain are grouped by chain. Each group is split into colour classes, and each class receives one fresh `mem_shared_id`.
- **Memory-safety guards.**
  - The consumed descriptors that share memory are grouped by `mem_shared_id` (taken as an `int32_t`).
  - Each group is sorted by the order in graph of the producers. Equal orders fail the comparator's CHECK.
  - For every group of more than one member, the producer of the first member gets a control register, `out_ctrl_shared_mem_safe_guard`. Every sink among the consumers of the other members consumes it, through its `in_ctrl` set.
- **Register counts and memory budget.**
  - A descriptor's register count is the largest per-path count, clamped between its minimum and maximum.
  - A memory zone's consumption counts every unshared descriptor at count × size. Each shared id pays its largest member once.
  - A zone is out of memory when consumption reaches what the zone offers.
  - A binary search over the initiation interval keeps its upper end at an interval where every zone fits.

The second is the object slot of the virtual machine (`oneflow/core/vm/mirrored_object.msg.h`):

- A `RwMutexedObject` owns at most one object.
- `Init<T>` refuses only when the slot already holds a `T`.
- `Get<T>` and `Mut<T>` demand a `T`.
- `reset_object` empties the slot.
- A `MirroredObject` forwards every call to its `RwMutexedObject`.
- The two memory buffer types set their size and data pointer.

## Modules

| file | module | models |
|---|---|---|
| `wrappers.dfy` | `Wrappers` | `Option`, `Result`, `Outcome` |
| `plan_proto.dfy` | `PlanProto` | Plan, task and register descriptor records; the `int32_t` wrap; name lookup in a proto map |
| `regst_num.dfy` | `RegstNum` | `CalcRegstNum` (the `uint64_t` overload) |
| `mem_sharing.dfy` | `MemSharing` | the sharability predicates, the stream and chain grouping, mem_shared_id assignment |
| `memory_budget.dfy` | `MemoryBudget` | `CalcMemoryConsumed`, `AvailableMemSize`, `GetMemoryZoneId`, `IsAnyZoneOutOfMemory`, `BinarySearchII` |
| `critical_section.dfy` | `CriticalSection` | `ForEachMemSharingCriticalSection` and its sort |
| `ctrl_guard.dfy` | `CtrlGuard` | `TryConnectWithMemSafeGuardCtrlRegstDesc`, `CollectTailRegstConsumerTaskIds`, `CollectSinkTaskIds`, `MakeSetterAddCtrlRegst` |
| `mirrored_object.dfy` | `MirroredObjects` | `RwMutexedObject`, `MirroredObject`, `HostMemBuffer`, `CudaMemBuffer` |

### Modelling conventions

- **CHECKs and lookups.** A failed `CHECK` becomes `Failure(CheckFailed(..))`. A `HashMap::at` or `std::vector::at` miss becomes `Failure(OutOfRange(..))`.
- **Handlers.** A handler callback becomes the sequence of arguments it would receive, in call order.
- **Hash containers.** HashMap and HashSet iteration order is unspecified. The methods take keys in any order (`:|`), and their contracts do not depend on that order.
- **Proto maps.** A protobuf map field is the list of its entries in iteration order. A new entry is appended.
- **Descriptor pointers.** Register descriptors are values. The groups handed on in the source hold pointers into the plan. The guard handler edits only guard registers, which are never members of a group, so the values read equal the pointees.
- **Stand-in functions.** Work stream, chain, order in graph and reachability lookups are function parameters. So is the colouring of a group by register lifetime. The per-path register counts at an initiation interval are a function `(regst_desc_id, ii) -> seq<nat>`, and the packed byte size of a register is a function of the descriptor id.

## Model

| member | source | states |
|---|---|---|
| PlanProto.ToI32 | oneflow/core/job/improver.cpp:161 | assigning an `int64_t` to an `int32_t` yields a value in the `int32_t` range, equal to the input whenever the input is already in range |
| RegstNum.ToU64 | oneflow/core/job/improver.cpp:141-142 | `static_cast<uint64_t>` yields a value below 2^64, equal to the input when it is already in range |
| RegstNum.MaxOfIsLargest | oneflow/core/job/improver.cpp:134-140 | the running maximum started at 0 is at least every per-path count, is one of them when there is one, and is 0 with no paths |
| RegstNum.RegstNumOfBounds | oneflow/core/job/improver.cpp:126-144 | the register count is at most `max_register_num`; at least `min_register_num` when min ≤ max; at least every per-path count up to max; with no paths it is the clamp of 0; it is the max, the min or a per-path count |
| RegstNum.CalcRegstNum | oneflow/core/job/improver.cpp:126-144 | the loop's result is the clamp of the largest per-path count between min and max (`RegstNumOf`) |
| MemSharing.IsSharableRegstWithoutConsumer | oneflow/core/job/improver.cpp:14-16 | a descriptor with no consumer and mem sharing enabled |
| MemSharing.ConsumersAndProducerInSameChain | oneflow/core/job/improver.cpp:19-26 | the early-exit loop returns true iff every consumer's chain id equals the producer's |
| MemSharing.IsSharableRegstWithConsumer | oneflow/core/job/improver.cpp:28-33 | a descriptor with a consumer, mem sharing enabled, one register, and every consumer on its producer's chain |
| MemSharing.SharableKindsAreExclusive | oneflow/core/job/improver.cpp:15-33 | no descriptor is sharable both without and with consumers, and either kind has mem sharing enabled |
| MemSharing.StreamGroupMembers | oneflow/core/job/improver.cpp:38-45 | every member of a stream group is sharable without consumer; in a well-formed plan its producer runs on that stream |
| MemSharing.StreamGroupsAreDisjoint | oneflow/core/job/improver.cpp:38-45 | in a well-formed plan the groups of two different streams share no descriptor |
| MemSharing.AppendProducedWhere | oneflow/core/job/improver.cpp:40-44 | one task's pass appends, under its stream, exactly the task's qualifying descriptors in order; other lists are unchanged; no list becomes empty |
| MemSharing.GroupByStream | oneflow/core/job/improver.cpp:37-45 | the list kept under each stream is exactly that stream's group, and no kept list is empty |
| MemSharing.ListsLongerThanOne | oneflow/core/job/improver.cpp:46-48 | the lists handed on are exactly the lists with more than one member; each key of the map is visited once, and each list handed on is paired with the key it was kept under |
| MemSharing.ForEachSharableStreamRegstDescsWithoutConsumer | oneflow/core/job/improver.cpp:35-49 | the groups handed on are exactly the stream groups with more than one member; each stream is handed on at most once, and every such stream is handed on, in the order visited |
| MemSharing.ChainTasksMembers | oneflow/core/job/improver.cpp:54-57 | the tasks listed under a chain are tasks of the plan on that chain |
| MemSharing.ChainGroupMembers | oneflow/core/job/improver.cpp:58-67 | every member of a chain group is sharable with consumer; when chain ids agree with the tasks, its producer and all its consumers are on that chain |
| MemSharing.GroupByChain | oneflow/core/job/improver.cpp:54-57 | the tasks kept under each chain id are exactly that chain's tasks, in plan order |
| MemSharing.CollectChainRegsts | oneflow/core/job/improver.cpp:60-67 | the list built for one chain holds exactly its tasks' sharable-with-consumer descriptors, task by task |
| MemSharing.ChainListsLongerThanOne | oneflow/core/job/improver.cpp:58-69 | chains of one task are skipped; the lists handed on are exactly the chain lists with more than one member; each chain is visited once and paired with its list |
| MemSharing.ForEachSharableChainRegstDescsWithConsumer | oneflow/core/job/improver.cpp:51-70 | the groups handed on are exactly the groups with more than one member of chains of several tasks; each chain is handed on at most once, and every such chain is handed on, in the order visited |
| MemSharing.ColouredMembers | oneflow/core/job/improver.cpp:78-80 | the colour classes handed on are exactly the classes of the groups |
| MemSharing.AssignIdsMembers | oneflow/core/job/improver.cpp:108-113 | a descriptor is reported with id first + k exactly when it is a member of the k-th class |
| MemSharing.HandleMemSharedIds | oneflow/core/job/improver.cpp:108-113 | each class draws one fresh id and reports it for each member; the id counter advances once per class |
| MemSharing.ForEachImprovedMemSharedId | oneflow/core/job/improver.cpp:104-116 | the classes handled are exactly the colour classes of the stream groups, then of the chain groups, each group handed on once; each class gets its own id, the id counter advances once per class, and every member is reported with its class's id |
| MemSharing.StreamClassesHandled | oneflow/core/job/improver.cpp:72-82 | the colour classes of the stream groups handed on are exactly the classes of the stream groups with more than one member |
| MemSharing.ChainClassesHandled | oneflow/core/job/improver.cpp:84-101 | the colour classes of the chain groups handed on are exactly the classes of the qualifying chain groups |
| MemoryBudget.SumValuesRemove | oneflow/core/job/improver.cpp:166 | adding up the per-id maxima gives the same total whichever id is taken first |
| MemoryBudget.MaxBytesMapIsLargestPerKey | oneflow/core/job/improver.cpp:159-164 | the map has a key exactly for each `int32_t` shared id in use, and its value is the largest size among that id's descriptors |
| MemoryBudget.UnsharedBytesCoversEach | oneflow/core/job/improver.cpp:157-158 | every unshared descriptor's count × size is part of the unshared total |
| MemoryBudget.MemoryConsumedCoversEach | oneflow/core/job/improver.cpp:146-168 | an unshared descriptor's count × size, and a shared descriptor's size, never exceed the consumption |
| MemoryBudget.ConsumedStep | oneflow/core/job/improver.cpp:153-165 | one descriptor more adds its count × size to the unshared total if unshared, otherwise raises its key's maximum to its size; the CHECK holds for the longer prefix iff it held before and a shared descriptor has count 1 |
| MemoryBudget.AddValues | oneflow/core/job/improver.cpp:166 | the second loop, in whatever order the map yields its keys, adds up exactly the per-id maxima |
| MemoryBudget.CalcMemoryConsumed | oneflow/core/job/improver.cpp:146-168 | the two loops fail exactly when a shared descriptor's count is not 1; otherwise they return the unshared total plus one maximum per shared id (`MemoryConsumed`) |
| MemoryBudget.AvailableMemSize | oneflow/core/job/improver.cpp:369-380 | succeeds iff the reserve is known and less than the zone size; the result is positive and adds up with the reserve to the zone size; a host zone of a machine without a record-load count is `OutOfRange` |
| MemoryBudget.GetMemoryZoneId | oneflow/core/job/improver.cpp:382-388 | with device ids below the device count, a device's zone is below the device count and the zone equals the device count iff the memory is host memory |
| MemoryBudget.HostReserveForHostRegstsOnly | oneflow/core/job/improver.cpp:369-388 | a descriptor's zone is the host zone iff it lives in host memory; the host zone keeps back reserved host memory plus one persistence buffer per record-load task, a device zone keeps back reserved device memory |
| MemoryBudget.IsAnyZoneOutOfMemory | oneflow/core/job/improver.cpp:403-418 | false iff every zone has room; otherwise the result is the verdict of the first zone in scan order without room; when no zone's verdict is an error, true iff some zone runs out |
| MemoryBudget.FirstVerdictExcludesRoom | oneflow/core/job/improver.cpp:403-418 | a scan that stopped at a zone that runs out means some zone runs out |
| MemoryBudget.HalvingShrinksGap | oneflow/core/job/improver.cpp:448-456 | each halving step strictly shrinks the integer part of the gap, so the search ends |
| MemoryBudget.BinarySearchII | oneflow/core/job/improver.cpp:436-458 | fails when `max_duration` runs out of memory; succeeds whenever `max_duration` fits and no zone's verdict is ever an error; a result is at most `max_duration`, no zone runs out at it, and it lies within the threshold above `base_ii` or above an interval at which some zone runs out |
| MemoryBudget.BinarySearchIINearMinimal | oneflow/core/job/improver.cpp:436-458 | when fitting is monotone in the interval, the search's final upper end is within the threshold of every fitting interval at or above `base_ii` |
| CriticalSection.DistinctOrdersOnMultiset | oneflow/core/job/improver.cpp:356-362 | "no two members have the same producer order" is a property of the multiset of members |
| CriticalSection.DistinctOrdersPermutation | oneflow/core/job/improver.cpp:356-362 | rearranging a group does not change whether two members tie |
| CriticalSection.SwapPermutes | oneflow/core/job/improver.cpp:356-362 | swapping two neighbours keeps the multiset of members |
| CriticalSection.SwapKeepsInserting | oneflow/core/job/improver.cpp:356-362 | swapping the moving member past a larger neighbour keeps the insertion invariant, the multiset and the rest of the array |
| CriticalSection.InsertedInOrder | oneflow/core/job/improver.cpp:356-362 | the insertion stops with the prefix strictly ascending |
| CriticalSection.InsertByOrder | oneflow/core/job/improver.cpp:356-362 | one insertion step only rearranges the array; on success the prefix is strictly ascending and the rest unchanged; a tie means two members have equal orders |
| CriticalSection.SortByOrderInGraph | oneflow/core/job/improver.cpp:356-362 | the sort only rearranges; it fails exactly when two members' producers have equal orders, and otherwise ends strictly ascending |
| CriticalSection.SortGroup | oneflow/core/job/improver.cpp:355-362 | the sorted copy has the group's members; it succeeds iff the orders are distinct, and then it is strictly ascending |
| CriticalSection.AddCriticalEntriesGroups | oneflow/core/job/improver.cpp:347-353 | one task's pass appends to the list of each id exactly its critical descriptors of that id, and leaves no list empty |
| CriticalSection.AddCriticalEntriesGroup | oneflow/core/job/improver.cpp:347-353 | after one task's pass, the list of an id is its old list followed by the task's critical descriptors of that id |
| CriticalSection.AddCriticalEntriesNonEmpty | oneflow/core/job/improver.cpp:351 | `operator[]` followed by `push_back` never leaves an empty list in the map |
| CriticalSection.GroupedBySharedIdGroups | oneflow/core/job/improver.cpp:345-354 | the map built holds under each id exactly the plan's critical descriptors of that id, in plan order, and no empty list |
| CriticalSection.AppendCritical | oneflow/core/job/improver.cpp:347-353 | the inner loop fails iff some critical descriptor of the task has mem sharing disabled; otherwise it appends as `AddCriticalEntries` |
| CriticalSection.GroupBySharedId | oneflow/core/job/improver.cpp:345-354 | the first loop fails iff a critical descriptor has mem sharing disabled; otherwise it returns `GroupedBySharedId` |
| CriticalSection.SortEachGroup | oneflow/core/job/improver.cpp:355-364 | fails iff some list has a tie; otherwise each key of the map is handed on once, with its list sorted into strictly ascending order and rearranged only, and every key is handed on |
| CriticalSection.ListsHaveDistinctOrders | oneflow/core/job/improver.cpp:355-362 | the lists of the map have no ties iff the plan's groups have none |
| CriticalSection.SortedListsAreGroups | oneflow/core/job/improver.cpp:355-364 | lists handed on once per key of the map, each its key's list sorted, are the plan's non-empty groups, each once, sorted, and all of them |
| CriticalSection.ForEachMemSharingCriticalSection | oneflow/core/job/improver.cpp:342-365 | fails iff a critical descriptor has mem sharing disabled or a group has two producers of equal order; otherwise every non-empty group is handed on exactly once, rearranged into strictly ascending order, and nothing else is |
| CriticalSection.IsCritical | oneflow/core/job/improver.cpp:348-349 | a descriptor whose mem_shared_id, as an `int32_t`, is not -1 and that has a consumer |
| CriticalSection.CriticalInMembers | oneflow/core/job/improver.cpp:347-352 | a task contributes to an id's group exactly its descriptors that share memory under that `int32_t` id and have a consumer |
| CriticalSection.CriticalGroupMembers | oneflow/core/job/improver.cpp:345-354 | an id's group holds exactly the plan's critical descriptors of that id |
| CriticalSection.CriticalGroupEnablesSharing | oneflow/core/job/improver.cpp:349-351 | when the enable-sharing CHECK passes for the plan, every member of every group has mem sharing enabled |
| CtrlGuard.WithGuard | oneflow/core/job/improver.cpp:282-283 | finding or creating the guard keeps an existing guard and task as they are; a missing guard is created, with the fresh id and no consumer |
| CtrlGuard.AddGuardConsumer | oneflow/core/job/improver.cpp:286 | the guard gains the consumer at the end of its list; the task id and the `in_ctrl` set are unchanged |
| CtrlGuard.AddInCtrl | oneflow/core/job/improver.cpp:288-291 | the `in_ctrl` set, created empty if missing, gains the id at the end; the guard is unchanged |
| CtrlGuard.Connect | oneflow/core/job/improver.cpp:281-293 | finds or creates src's guard; if dst does not consume it yet, dst is added to its consumers and, unless the CHECK on dst's `in_ctrl` set fails, the guard id is added to that set |
| CtrlGuard.ConnectOnlyTouchesEnds | oneflow/core/job/improver.cpp:281-293 | a connection edits only the two tasks, keeps every task id, and draws a fresh id only when it creates the guard |
| CtrlGuard.ConnectLinks | oneflow/core/job/improver.cpp:281-293 | after a connection dst consumes src's guard; if it did not before, the guard id is in dst's `in_ctrl` set exactly once |
| CtrlGuard.ConnectIdempotent | oneflow/core/job/improver.cpp:281-293 | a second connection of the same tasks changes nothing |
| CtrlGuard.ConnectKeepsLinks | oneflow/core/job/improver.cpp:281-293 | a connection never takes a consumer away from any guard |
| CtrlGuard.NoGuardsAgree | oneflow/core/job/improver.cpp:281-293 | a plan without guards, with unique task ids and `in_ctrl` ids below the next fresh id, is consistent |
| CtrlGuard.CreateGuardAgrees | oneflow/core/job/improver.cpp:282-283 | creating a guard with the next fresh id keeps guards and `in_ctrl` sets consistent |
| CtrlGuard.LinkPairAgrees | oneflow/core/job/improver.cpp:285-291 | after linking, each guard still appears in each `in_ctrl` set once if that task consumes it and not at all otherwise |
| CtrlGuard.LinkAgrees | oneflow/core/job/improver.cpp:285-291 | on a consistent plan the CHECK passes, and linking keeps the plan consistent |
| CtrlGuard.ConnectAgrees | oneflow/core/job/improver.cpp:281-293 | on a consistent plan a connection never fails its CHECK, keeps the plan consistent, and leaves the guard id in dst's `in_ctrl` set exactly once |
| CtrlGuard.CollectTailRegstConsumerTaskIds | oneflow/core/job/improver.cpp:295-301 | the ids collected are exactly the consumers of the descriptors other than the first |
| CtrlGuard.IsReachableToAnyOtherTask | oneflow/core/job/improver.cpp:306-312 | true iff some other id of the set is reachable from the source |
| CtrlGuard.CollectSinkTaskIds | oneflow/core/job/improver.cpp:303-317 | the output, cleared first, holds each id of the set from which no other id of the set is reachable, once, and nothing else |
| CtrlGuard.ConnectEach | oneflow/core/job/improver.cpp:335-338 | the sink loop on values: connects the sinks in order, fails `OutOfRange` at the first sink missing from the task map, and keeps the number of tasks |
| CtrlGuard.ConnectEachFailurePropagates | oneflow/core/job/improver.cpp:335-338 | once a prefix of the sinks fails, the whole loop fails with the same error |
| CtrlGuard.ConnectEachAgrees | oneflow/core/job/improver.cpp:335-338 | on a consistent plan the loop succeeds whenever every sink is in the task map, fails only `OutOfRange`, and keeps the plan consistent |
| CtrlGuard.ConnectEachLinks | oneflow/core/job/improver.cpp:335-338 | after a successful loop every sink is in the task map and consumes the header's guard |
| CtrlGuard.ConnectEachFrame | oneflow/core/job/improver.cpp:335-338 | a successful loop leaves every task other than the header and the sinks unchanged |
| CtrlGuard.SinksAreGroupSinks | oneflow/core/job/improver.cpp:331-334 | the sinks among the tail consumers are exactly the group's sinks |
| CtrlGuard.HandlerOnAgreeingPlan | oneflow/core/job/improver.cpp:327-338 | on a consistent plan with the header in the task map: the loop succeeds when every sink is in the map; it fails only `OutOfRange`; on success the plan stays consistent, every sink consumes the header's guard, and no other task changes |
| CtrlGuard.IndexTasks | oneflow/core/job/improver.cpp:321-325 | the emplace CHECK fails iff two tasks share an id; otherwise every task id maps to its task |
| CtrlGuard.GuardSetter.constructor | oneflow/core/job/improver.cpp:319-327 | the handler state holds the plan's tasks, the task map and the id counter |
| CtrlGuard.GuardSetter.TryConnect | oneflow/core/job/improver.cpp:281-293 | editing the tasks in place fails iff `Connect` does, with the same error, and otherwise leaves the tasks and id counter that `Connect` gives |
| CtrlGuard.GuardSetter.AddCtrlRegst | oneflow/core/job/improver.cpp:327-339 | a one-member group changes nothing; otherwise a missing header is `OutOfRange`, and the new state is that of `ConnectEach` over exactly the group's sinks, each once; on success every sink consumes the header's guard and no other task changes; on a consistent plan it succeeds when the header and all sinks are in the task map, fails only `OutOfRange`, and keeps consistency |
| CtrlGuard.GuardSetter.ConnectSinks | oneflow/core/job/improver.cpp:335-338 | the loop succeeds iff `ConnectEach` does, leaves its tasks and id counter, and otherwise fails with its error |
| CtrlGuard.MakeSetterAddCtrlRegst | oneflow/core/job/improver.cpp:319-340 | fails iff two tasks share an id; otherwise the handler state is over the plan's own tasks |
| MirroredObjects.HostMemBuffer.Init | oneflow/core/vm/mirrored_object.msg.h:40-43 | sets size and data to the arguments and changes nothing else |
| MirroredObjects.CudaMemBuffer.Init | oneflow/core/vm/mirrored_object.msg.h:54-57 | sets size and data to the arguments and changes nothing else |
| MirroredObjects.RwMutexedObject.GetObject | oneflow/core/vm/mirrored_object.msg.h:88 | `object()` of a non-empty slot is the owned object |
| MirroredObjects.RwMutexedObject.Has | oneflow/core/vm/mirrored_object.msg.h:68-70 | true iff the slot is not empty and its object is a T |
| MirroredObjects.RwMutexedObject.Get | oneflow/core/vm/mirrored_object.msg.h:71-75 | succeeds iff the slot holds a T, and then returns the held object |
| MirroredObjects.RwMutexedObject.Mut | oneflow/core/vm/mirrored_object.msg.h:76-80 | succeeds iff the slot holds a T, returns the held object, and leaves the slot unchanged |
| MirroredObjects.RwMutexedObject.ResetObjectTo | oneflow/core/vm/mirrored_object.msg.h:90 | the slot owns the given pointer afterwards |
| MirroredObjects.RwMutexedObject.ResetObject | oneflow/core/vm/mirrored_object.msg.h:91 | `has_object()` is false afterwards |
| MirroredObjects.RwMutexedObject.Init | oneflow/core/vm/mirrored_object.msg.h:81-87 | fails exactly when the slot already holds a T, and then leaves it; otherwise the slot holds a fresh T, which is returned, and `Has<T>`/`Get<T>` now succeed on it |
| MirroredObjects.MirroredObject.GetObject | oneflow/core/vm/mirrored_object.msg.h:108 | the object of the contained `RwMutexedObject` |
| MirroredObjects.MirroredObject.Has | oneflow/core/vm/mirrored_object.msg.h:102 | the same answer as `Has<T>` on the contained `RwMutexedObject` |
| MirroredObjects.MirroredObject.Get | oneflow/core/vm/mirrored_object.msg.h:103 | the same result as `Get<T>` on the contained `RwMutexedObject` |
| MirroredObjects.MirroredObject.Mut | oneflow/core/vm/mirrored_object.msg.h:104 | succeeds iff the contained slot holds a T, returning its object |
| MirroredObjects.MirroredObject.Init | oneflow/core/vm/mirrored_object.msg.h:105-107 | behaves as `Init<T>` on the contained `RwMutexedObject` |
| MirroredObjects.MirroredObject.ResetObjectTo | oneflow/core/vm/mirrored_object.msg.h:110 | the contained slot owns the given pointer afterwards |
| MirroredObjects.MirroredObject.ResetObject | oneflow/core/vm/mirrored_object.msg.h:111 | the contained slot is empty afterwards |

## Left out

- `oneflow/python/test/ops/test_negative.py` is not part of this model. It tests an external tensor operator with a floating-point comparison.
- The interval colouring of register lifetimes (`RegstLifetimeGraph`, `oneflow/core/graph/regst_lifetime_graph.h`) is defined in a file that is not part of this model. It is a function parameter. So are `ComputeLifetimeSameChainActorIds` and the enable-sharing CHECK inside it (improver.cpp:74-77, 87-92).
- Floating point is abstracted.
  - The `double` overloads `CalcRegstNum` and `CalcII` (improver.cpp:118-124), and the `ceil` at line 138, are replaced by the given per-path counts.
  - The initiation interval is a `real`, so `BinarySearchII`'s halving is exact.
- RegstNum.CalcRegstNum: the `.at` lookup of a path's ii scale (improver.cpp:137) is inside the given per-path counts, so its `out_of_range` is not modelled.
- MemoryBudget.CalcMemoryConsumed: does not model the 64-bit wrap-around of `mem_consuming` and of `regst_num * total_byte_size`; the sums are unbounded.
- MemoryBudget.AvailableMemSize: does not model `int64_t` overflow of the subtractions. It requires the zone to exist: `zone_size(memory_zone_id)` on a missing zone is undefined behaviour in the source, and `MakeMemZoneRegstDescs` only asks for existing zones.
- MemoryBudget.IsAnyZoneOutOfMemory: when both `CalcMemoryConsumed` and `AvailableMemSize` would fail for one zone, the model reports the consumption's error. The two operands of the comparison at improver.cpp:411-412 are unsequenced in C++, so which CHECK fires first is unspecified there.
- MemoryBudget.BinarySearchII: `max_duration` is a parameter. `CalcMaxRegstDescDuration` (improver.cpp:420-434) is not modelled.
- `MakeMemZoneRegstDescs` (improver.cpp:390-401) is not modelled. The zones' descriptors are an input shaped like the machines' zones.
- The plan-level drivers and helpers are not modelled. They read files, build activity graphs or compute floating-point durations:
  - `ForEachImprovedRegstNum`, `Improve` and `ImproveMemSharedIdOnly` (improver.cpp:460-515);
  - `MakeRegstDescId2RegstDesc`, `MakeSetterSetPlanRegstNum` and `MakeSetterSetPlanMemSharedId`;
  - `MakeGetterPathDurations4RegstDescId`, `MakeGetterPathIIScales4RegstDescId`, `CalcBaseII`, `IIScale4Actor` and `FormalDuration4ExperimentalDuration` (improver.cpp:170-279).
- `FindOrCreateProducedCtrlRegstDesc` and `FindOrCreateConsumedCtrlRegstDescIdSet` are defined in a file that is not part of this model.
  - They are modelled as find-by-name, else append a new entry.
  - A created guard gets the next id of the id counter and no consumers. Its other fields (one register, host memory, no sharing) are assumptions.
- `IDMgr` is modelled as counters: one for `NewMemSharedId`, one for register descriptor ids.
- CtrlGuard.CollectTailRegstConsumerTaskIds: the source skips the descriptor that is the same object as the first. The model skips position 0, which is the same thing as long as a group holds each descriptor once, as the groups built by `ForEachMemSharingCriticalSection` do.
- MirroredObjects.RwMutexedObject.Has: on an empty slot the source binds a reference to a null object, which is undefined. The model lets the null pointer reach `dynamic_cast`, so `Has` is false and `Get` fails its CHECK.
- MirroredObjects.RwMutexedObject.Init: the constructor arguments of `T` are abstracted. The new object is described only by the set of classes it is an instance of, which must include `T`.
- The following parts of `mirrored_object.msg.h` are not modelled: `MirroredObject::__Init__` (declared only), `RwMutexedObjectAccess`, `LogicalObject`, and the intrusive list, skiplist and map links. They hold no logic of their own, or their code is generated.
- Ownership is not modelled: `reset_object` deleting the previous object, and `unique_ptr` ownership.
- After a failed CHECK the source aborts. The model leaves the state after such a failure unspecified.
