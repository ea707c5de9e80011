/**
 * The memory budget of a plan (improver.cpp, lines 146-168 and 369-458):
 * how much memory the register descriptors of one memory zone consume at a
 * given initiation interval, how much memory the zone offers, whether any
 * zone runs out, and the binary search for an initiation interval at which
 * none does.
 */
module MemoryBudget {
  import opened Wrappers
  import opened PlanProto
  import opened RegstNum

  /**
   * What the memory scan needs about the descriptors: the register count
   * every consumer path asks for at an initiation interval (by descriptor
   * id), and the packed blob byte size of one register (by descriptor id).
   */
  datatype Demand = Demand(
    pathRegstNums: (int, real) -> seq<nat>,
    totalByteSize: int -> nat)

  /** The register count of `regst` at initiation interval `ii`. */
  function RegstNumAt(regst: RegstDesc, d: Demand, ii: real): nat {
    RegstNumOf(regst, d.pathRegstNums(regst.regstDescId, ii))
  }

  predicate IsShared(regst: RegstDesc) {
    regst.memSharedId != NoMemSharedId
  }

  /** The key a shared descriptor is counted under: its mem_shared_id as an int32_t. */
  function SharedKey(regst: RegstDesc): int {
    ToI32(regst.memSharedId)
  }

  // ---------------------------------------------------------------------------
  // Consumption of one zone

  /** What an unshared descriptor costs: register count times register size. */
  function UnsharedCost(regst: RegstDesc, d: Demand, ii: real): nat {
    var regstNum := RegstNumAt(regst, d, ii);
    var size := d.totalByteSize(regst.regstDescId);
    regstNum * size
  }

  /** What the unshared descriptors cost together. */
  function UnsharedBytes(regsts: seq<RegstDesc>, d: Demand, ii: real): nat {
    if regsts == [] then 0 else
      var last := regsts[|regsts| - 1];
      UnsharedBytes(regsts[..|regsts| - 1], d, ii) + (if IsShared(last) then 0 else UnsharedCost(last, d, ii))
  }

  /** For every shared key, the largest register size among the descriptors with that key. */
  function MaxBytesMap(regsts: seq<RegstDesc>, d: Demand): map<int, nat> {
    if regsts == [] then map[] else
      var m := MaxBytesMap(regsts[..|regsts| - 1], d);
      var last := regsts[|regsts| - 1];
      if !IsShared(last) then m else
        var size := d.totalByteSize(last.regstDescId);
        var key := SharedKey(last);
        m[key := if key in m && m[key] > size then m[key] else size]
  }

  /** The sum of the values of a map, in no particular order. */
  ghost function SumValues(m: map<int, nat>): nat
    decreases |m|
  {
    if m == map[] then 0 else
      NonEmptyHasMember(m.Keys);
      var k :| k in m;
      m[k] + SumValues(m - {k})
  }

  /** Any key may be taken out first: the sum does not depend on the order. */
  lemma {:induction false} SumValuesRemove(m: map<int, nat>, k: int)
    requires k in m
    ensures SumValues(m) == m[k] + SumValues(m - {k})
    decreases |m|
  {
    var j :| j in m && SumValues(m) == m[j] + SumValues(m - {j});
    if j != k {
      assert (m - {j}) - {k} == (m - {k}) - {j};
      SumValuesRemove(m - {j}, k);
      SumValuesRemove(m - {k}, j);
    }
  }

  /** A shared descriptor must hold exactly one register (a CHECK in the source). */
  predicate SharedCountsAreOne(regsts: seq<RegstDesc>, d: Demand, ii: real) {
    forall i :: 0 <= i < |regsts| && IsShared(regsts[i]) ==> RegstNumAt(regsts[i], d, ii) == 1
  }

  /**
   * The memory the descriptors of one zone consume at `ii`: every unshared
   * descriptor pays count times size, every shared key pays the size of its
   * largest member once.
   */
  ghost function MemoryConsumed(regsts: seq<RegstDesc>, d: Demand, ii: real): Result<nat, Error> {
    if !SharedCountsAreOne(regsts, d, ii) then Failure(CheckFailed("regst_num == 1"))
    else Success(UnsharedBytes(regsts, d, ii) + SumValues(MaxBytesMap(regsts, d)))
  }

  /** The largest register size among the shared descriptors whose key is `k`. */
  ghost predicate IsLargestOfKey(regsts: seq<RegstDesc>, d: Demand, k: int, size: nat) {
    && (forall i :: 0 <= i < |regsts| && IsShared(regsts[i]) && SharedKey(regsts[i]) == k ==>
          d.totalByteSize(regsts[i].regstDescId) <= size)
    && (exists i :: 0 <= i < |regsts| && IsShared(regsts[i]) && SharedKey(regsts[i]) == k &&
          d.totalByteSize(regsts[i].regstDescId) == size)
  }

  /** Some shared descriptor has key `k`. */
  ghost predicate HasSharedKey(regsts: seq<RegstDesc>, k: int) {
    exists i :: 0 <= i < |regsts| && IsShared(regsts[i]) && SharedKey(regsts[i]) == k
  }

  /**
   * The keys of MaxBytesMap are exactly the shared keys present, and each
   * value is the largest size among the descriptors with that key.
   */
  lemma {:induction false} MaxBytesMapIsLargestPerKey(regsts: seq<RegstDesc>, d: Demand)
    ensures forall k :: k in MaxBytesMap(regsts, d) <==> HasSharedKey(regsts, k)
    ensures forall k :: k in MaxBytesMap(regsts, d) ==> IsLargestOfKey(regsts, d, k, MaxBytesMap(regsts, d)[k])
  {
    if regsts != [] {
      var n := |regsts|;
      var init := regsts[..n - 1];
      var last := regsts[n - 1];
      var m := MaxBytesMap(init, d);
      MaxBytesMapIsLargestPerKey(init, d);
      forall k ensures k in MaxBytesMap(regsts, d) <==> HasSharedKey(regsts, k) {
        SharedKeyStep(regsts, k);
      }
      forall k | k in MaxBytesMap(regsts, d)
        ensures IsLargestOfKey(regsts, d, k, MaxBytesMap(regsts, d)[k])
      {
        LargestOfKeyStep(regsts, d, k, if k in m then Some(m[k]) else None);
      }
    }
  }

  /** A key is present in a longer prefix iff it was present before or is the new descriptor's. */
  lemma SharedKeyStep(regsts: seq<RegstDesc>, k: int)
    requires regsts != []
    ensures var n := |regsts|;
      HasSharedKey(regsts, k) <==>
        HasSharedKey(regsts[..n - 1], k) || (IsShared(regsts[n - 1]) && SharedKey(regsts[n - 1]) == k)
  {
    var n := |regsts|;
    var init := regsts[..n - 1];
    if HasSharedKey(init, k) {
      var i :| 0 <= i < n - 1 && IsShared(init[i]) && SharedKey(init[i]) == k;
      assert regsts[i] == init[i];
    }
    if HasSharedKey(regsts, k) && !(IsShared(regsts[n - 1]) && SharedKey(regsts[n - 1]) == k) {
      var i :| 0 <= i < n && IsShared(regsts[i]) && SharedKey(regsts[i]) == k;
      assert init[i] == regsts[i];
    }
  }

  /** One step of MaxBytesMapIsLargestPerKey: appending a descriptor to the prefix. */
  lemma LargestOfKeyStep(regsts: seq<RegstDesc>, d: Demand, k: int, prev: Option<nat>)
    requires regsts != []
    requires prev == (if k in MaxBytesMap(regsts[..|regsts| - 1], d) then Some(MaxBytesMap(regsts[..|regsts| - 1], d)[k]) else None)
    requires prev.Some? ==> IsLargestOfKey(regsts[..|regsts| - 1], d, k, prev.value)
    requires prev.None? ==> !HasSharedKey(regsts[..|regsts| - 1], k)
    requires k in MaxBytesMap(regsts, d)
    ensures IsLargestOfKey(regsts, d, k, MaxBytesMap(regsts, d)[k])
  {
    var n := |regsts|;
    var init := regsts[..n - 1];
    var last := regsts[n - 1];
    var v := MaxBytesMap(regsts, d)[k];
    assert forall i :: 0 <= i < n - 1 ==> init[i] == regsts[i];
    if IsShared(last) && SharedKey(last) == k && (prev.None? || prev.value <= d.totalByteSize(last.regstDescId)) {
      assert v == d.totalByteSize(last.regstDescId);
    } else {
      assert prev.Some? && v == prev.value;
      var j :| 0 <= j < n - 1 && IsShared(init[j]) && SharedKey(init[j]) == k && d.totalByteSize(init[j].regstDescId) == v;
      assert regsts[j] == init[j];
    }
  }

  /** Every unshared descriptor's count times size is part of UnsharedBytes. */
  lemma {:induction false} UnsharedBytesCoversEach(regsts: seq<RegstDesc>, d: Demand, ii: real)
    ensures forall i :: 0 <= i < |regsts| && !IsShared(regsts[i]) ==>
      UnsharedCost(regsts[i], d, ii) <= UnsharedBytes(regsts, d, ii)
  {
    if regsts != [] {
      var n := |regsts|;
      var init := regsts[..n - 1];
      UnsharedBytesCoversEach(init, d, ii);
      assert forall i :: 0 <= i < n - 1 ==> init[i] == regsts[i];
    }
  }

  /**
   * Every descriptor's memory is accounted for: an unshared one's count
   * times size, and a shared one's size, never exceed the consumption.
   */
  lemma MemoryConsumedCoversEach(regsts: seq<RegstDesc>, d: Demand, ii: real, i: int)
    requires 0 <= i < |regsts|
    requires MemoryConsumed(regsts, d, ii).Success?
    ensures !IsShared(regsts[i]) ==> UnsharedCost(regsts[i], d, ii) <= MemoryConsumed(regsts, d, ii).value
    ensures IsShared(regsts[i]) ==>
      d.totalByteSize(regsts[i].regstDescId) <= MemoryConsumed(regsts, d, ii).value
  {
    UnsharedBytesCoversEach(regsts, d, ii);
    if IsShared(regsts[i]) {
      var m := MaxBytesMap(regsts, d);
      MaxBytesMapIsLargestPerKey(regsts, d);
      assert HasSharedKey(regsts, SharedKey(regsts[i]));
      SumValuesRemove(m, SharedKey(regsts[i]));
    }
  }

  /** One descriptor more: how the three running summaries of the first pass change. */
  lemma ConsumedStep(regsts: seq<RegstDesc>, d: Demand, ii: real, i: int)
    requires 0 <= i < |regsts|
    ensures UnsharedBytes(regsts[..i + 1], d, ii) ==
      UnsharedBytes(regsts[..i], d, ii) + (if IsShared(regsts[i]) then 0 else UnsharedCost(regsts[i], d, ii))
    ensures !IsShared(regsts[i]) ==> MaxBytesMap(regsts[..i + 1], d) == MaxBytesMap(regsts[..i], d)
    ensures IsShared(regsts[i]) ==>
      var m := MaxBytesMap(regsts[..i], d);
      var key := SharedKey(regsts[i]);
      var size := d.totalByteSize(regsts[i].regstDescId);
      MaxBytesMap(regsts[..i + 1], d) == m[key := if key in m && m[key] > size then m[key] else size]
    ensures SharedCountsAreOne(regsts[..i + 1], d, ii) <==>
      SharedCountsAreOne(regsts[..i], d, ii) && (IsShared(regsts[i]) ==> RegstNumAt(regsts[i], d, ii) == 1)
  {
    assert regsts[..i + 1][..i] == regsts[..i];
    assert regsts[..i + 1][i] == regsts[i];
  }

  /**
   * CalcMemoryConsumed: first pass over the zone's descriptors computes each
   * register count and accumulates the unshared cost and the largest size
   * per shared key; the second pass adds one largest size per key.
   */
  method CalcMemoryConsumed(regsts: seq<RegstDesc>, d: Demand, ii: real) returns (r: Result<nat, Error>)
    ensures r == MemoryConsumed(regsts, d, ii)
  {
    var memConsuming: nat := 0;
    var maxBytes: map<int, nat> := map[];
    var i := 0;
    while i < |regsts|
      invariant 0 <= i <= |regsts|
      invariant memConsuming == UnsharedBytes(regsts[..i], d, ii)
      invariant maxBytes == MaxBytesMap(regsts[..i], d)
      invariant SharedCountsAreOne(regsts[..i], d, ii)
    {
      ConsumedStep(regsts, d, ii, i);
      var regst := regsts[i];
      var regstNum := CalcRegstNum(regst, d.pathRegstNums(regst.regstDescId, ii));
      var totalByteSize := d.totalByteSize(regst.regstDescId);
      if regst.memSharedId == NoMemSharedId {
        memConsuming := memConsuming + UnsharedCost(regst, d, ii);
      } else {
        if regstNum != 1 {
          assert !SharedCountsAreOne(regsts, d, ii) by { assert IsShared(regsts[i]); }
          return Failure(CheckFailed("regst_num == 1"));
        }
        var memSharedId := ToI32(regst.memSharedId);
        var cur := if memSharedId in maxBytes then maxBytes[memSharedId] else 0;
        maxBytes := maxBytes[memSharedId := if cur > totalByteSize then cur else totalByteSize];
      }
      i := i + 1;
    }
    assert regsts[..i] == regsts;
    var maxBytesSum := AddValues(maxBytes);
    r := Success(memConsuming + maxBytesSum);
  }

  /** The second pass of CalcMemoryConsumed: adds up the largest size of every shared key, in map order. */
  method AddValues(m: map<int, nat>) returns (total: nat)
    ensures total == SumValues(m)
  {
    total := 0;
    var rest := m;
    while rest != map[]
      invariant total + SumValues(rest) == SumValues(m)
      decreases |rest|
    {
      NonEmptyHasMember(rest.Keys);
      var key :| key in rest;
      SumValuesRemove(rest, key);
      total := total + rest[key];
      rest := rest - {key};
    }
  }

  // ---------------------------------------------------------------------------
  // Available memory

  /** The job-wide settings the budget reads (JobDesc). */
  datatype JobDesc = JobDesc(
    gpuDeviceNum: int,
    reservedHostMemByte: int,
    reservedDeviceMemByte: int,
    persistenceBufByte: int)

  /**
   * The improver's state: the size of every memory zone of every machine
   * (zone ids 0 .. gpuDeviceNum - 1 are devices, gpuDeviceNum is the host),
   * the number of record-load tasks per machine, and the job settings.
   */
  datatype Improver = Improver(
    zoneSizes: seq<seq<int>>,
    recordLoadTaskNum: map<int, int>,
    job: JobDesc)

  predicate IsZoneOf(imp: Improver, machineId: int, memZoneId: int) {
    0 <= machineId < |imp.zoneSizes| && 0 <= memZoneId < |imp.zoneSizes[machineId]|
  }

  /**
   * What a zone keeps back: the host zone the reserved host memory plus one
   * persistence buffer per record-load task, a device zone the reserved
   * device memory; None when the machine has no record-load count.
   */
  function Reserved(imp: Improver, machineId: int, memZoneId: int): Option<int> {
    if memZoneId == imp.job.gpuDeviceNum then
      if machineId in imp.recordLoadTaskNum
      then Some(imp.job.reservedHostMemByte + imp.job.persistenceBufByte * imp.recordLoadTaskNum[machineId])
      else None
    else Some(imp.job.reservedDeviceMemByte)
  }

  /**
   * Improver::AvailableMemSize: the zone's size less what it keeps back,
   * which must be positive; a machine missing from the record-load counts
   * is an error when the host zone is asked for.
   */
  function AvailableMemSize(imp: Improver, machineId: int, memZoneId: int): (r: Result<nat, Error>)
    requires IsZoneOf(imp, machineId, memZoneId)
    ensures r.Success? <==>
      Reserved(imp, machineId, memZoneId).Some? &&
      Reserved(imp, machineId, memZoneId).value < imp.zoneSizes[machineId][memZoneId]
    ensures r.Success? ==>
      0 < r.value && r.value + Reserved(imp, machineId, memZoneId).value == imp.zoneSizes[machineId][memZoneId]
    ensures Reserved(imp, machineId, memZoneId).None? ==> r == Failure(OutOfRange("record_load_task_num_"))
  {
    var memSize := imp.zoneSizes[machineId][memZoneId];
    if memZoneId == imp.job.gpuDeviceNum then
      var hostSize := memSize - imp.job.reservedHostMemByte;
      if machineId !in imp.recordLoadTaskNum then Failure(OutOfRange("record_load_task_num_"))
      else
        var left := hostSize - imp.job.persistenceBufByte * imp.recordLoadTaskNum[machineId];
        if left > 0 then Success(left) else Failure(CheckFailed("mem_size > 0"))
    else
      var left := memSize - imp.job.reservedDeviceMemByte;
      if left > 0 then Success(left) else Failure(CheckFailed("mem_size > 0"))
  }

  /**
   * Improver::GetMemoryZoneId: a CUDA device's zone is its device id, host
   * memory is zone gpuDeviceNum. With device ids below the device count, the
   * zones of a machine are 0 .. gpuDeviceNum and the last one is the host's.
   */
  function GetMemoryZoneId(memCase: MemCase, job: JobDesc): (zone: int)
    ensures memCase.DeviceCudaMem? && 0 <= memCase.deviceId < job.gpuDeviceNum ==> 0 <= zone < job.gpuDeviceNum
    ensures (memCase.DeviceCudaMem? ==> memCase.deviceId < job.gpuDeviceNum) ==>
      (zone == job.gpuDeviceNum <==> memCase.HostMem?)
  {
    match memCase
    case DeviceCudaMem(deviceId) => deviceId
    case HostMem => job.gpuDeviceNum
  }

  /**
   * A descriptor's zone keeps back the host reserve exactly when the
   * descriptor lives in host memory, as long as device ids lie below the
   * device count.
   */
  lemma HostReserveForHostRegstsOnly(imp: Improver, regst: RegstDesc, machineId: int)
    requires regst.memCase.DeviceCudaMem? ==> 0 <= regst.memCase.deviceId < imp.job.gpuDeviceNum
    requires machineId in imp.recordLoadTaskNum
    ensures regst.memCase.HostMem? <==> GetMemoryZoneId(regst.memCase, imp.job) == imp.job.gpuDeviceNum
    ensures regst.memCase.HostMem? ==>
      Reserved(imp, machineId, GetMemoryZoneId(regst.memCase, imp.job)) == Some(imp.job.reservedHostMemByte + imp.job.persistenceBufByte * imp.recordLoadTaskNum[machineId])
    ensures regst.memCase.DeviceCudaMem? ==>
      Reserved(imp, machineId, GetMemoryZoneId(regst.memCase, imp.job)) == Some(imp.job.reservedDeviceMemByte)
  {
  }

  // ---------------------------------------------------------------------------
  // Out-of-memory scan

  /**
   * The descriptors of every memory zone of every machine
   * (MemZoneRegstDescs), shaped like the zones the improver knows.
   */
  predicate ShapedLike(zones: seq<seq<seq<RegstDesc>>>, imp: Improver) {
    && |zones| == |imp.zoneSizes|
    && forall m :: 0 <= m < |zones| ==> |zones[m]| == |imp.zoneSizes[m]|
  }

  predicate IsZoneIndex(zones: seq<seq<seq<RegstDesc>>>, m: int, z: int) {
    0 <= m < |zones| && 0 <= z < |zones[m]|
  }

  /** Whether one zone runs out: consumption at `ii` reaches what the zone offers. */
  ghost function ZoneVerdict(imp: Improver, zones: seq<seq<seq<RegstDesc>>>, d: Demand, ii: real, m: int, z: int)
    : Result<bool, Error>
    requires ShapedLike(zones, imp) && IsZoneIndex(zones, m, z)
  {
    match MemoryConsumed(zones[m][z], d, ii)
    case Failure(e) => Failure(e)
    case Success(consumed) =>
      match AvailableMemSize(imp, m, z)
      case Failure(e) => Failure(e)
      case Success(available) => Success(consumed >= available)
  }

  /** The scan order: machine by machine, zone by zone. */
  predicate ScannedBefore(m1: int, z1: int, m2: int, z2: int) {
    m1 < m2 || (m1 == m2 && z1 < z2)
  }

  /** Every zone scanned before (m, z) has room at `ii`. */
  ghost predicate RoomBefore(imp: Improver, zones: seq<seq<seq<RegstDesc>>>, d: Demand, ii: real, m: int, z: int)
    requires ShapedLike(zones, imp)
  {
    forall m', z' :: IsZoneIndex(zones, m', z') && ScannedBefore(m', z', m, z) ==>
      ZoneVerdict(imp, zones, d, ii, m', z') == Success(false)
  }

  /** No zone runs out of memory at `ii`. */
  ghost predicate NoZoneOutOfMemory(imp: Improver, zones: seq<seq<seq<RegstDesc>>>, d: Demand, ii: real)
    requires ShapedLike(zones, imp)
  {
    forall m, z :: IsZoneIndex(zones, m, z) ==> ZoneVerdict(imp, zones, d, ii, m, z) == Success(false)
  }

  /** The first zone in scan order that does not simply have room has verdict `v`. */
  ghost predicate FirstVerdictIs(
    imp: Improver, zones: seq<seq<seq<RegstDesc>>>, d: Demand, ii: real, v: Result<bool, Error>)
    requires ShapedLike(zones, imp)
  {
    exists m, z :: IsZoneIndex(zones, m, z) && RoomBefore(imp, zones, d, ii, m, z) &&
      ZoneVerdict(imp, zones, d, ii, m, z) == v
  }

  /** Some zone runs out of memory at `ii`. */
  ghost predicate SomeZoneOutOfMemory(imp: Improver, zones: seq<seq<seq<RegstDesc>>>, d: Demand, ii: real)
    requires ShapedLike(zones, imp)
  {
    exists m, z :: IsZoneIndex(zones, m, z) && ZoneVerdict(imp, zones, d, ii, m, z) == Success(true)
  }

  /** No zone's verdict is an error at `ii`. */
  ghost predicate NoZoneFails(imp: Improver, zones: seq<seq<seq<RegstDesc>>>, d: Demand, ii: real)
    requires ShapedLike(zones, imp)
  {
    forall m, z :: IsZoneIndex(zones, m, z) ==> ZoneVerdict(imp, zones, d, ii, m, z).Success?
  }

  /**
   * Improver::IsAnyZoneOutOfMemory: scans the zones in order and stops at
   * the first that runs out (true) or whose consumption or available size
   * fails; false when every zone has room.
   */
  method IsAnyZoneOutOfMemory(imp: Improver, zones: seq<seq<seq<RegstDesc>>>, d: Demand, ii: real)
    returns (r: Result<bool, Error>)
    requires ShapedLike(zones, imp)
    ensures r == Success(false) <==> NoZoneOutOfMemory(imp, zones, d, ii)
    ensures r != Success(false) ==> FirstVerdictIs(imp, zones, d, ii, r)
    ensures NoZoneFails(imp, zones, d, ii) ==> (r == Success(true) <==> SomeZoneOutOfMemory(imp, zones, d, ii))
  {
    var machineId := 0;
    while machineId < |zones|
      invariant 0 <= machineId <= |zones|
      invariant RoomBefore(imp, zones, d, ii, machineId, 0)
    {
      var memZoneId := 0;
      while memZoneId < |zones[machineId]|
        invariant 0 <= memZoneId <= |zones[machineId]|
        invariant RoomBefore(imp, zones, d, ii, machineId, memZoneId)
      {
        var consumed := CalcMemoryConsumed(zones[machineId][memZoneId], d, ii);
        var verdict: Result<bool, Error>;
        if consumed.Failure? {
          verdict := Failure(consumed.error);
        } else {
          var available := AvailableMemSize(imp, machineId, memZoneId);
          if available.Failure? {
            verdict := Failure(available.error);
          } else {
            verdict := Success(consumed.value >= available.value);
          }
        }
        assert verdict == ZoneVerdict(imp, zones, d, ii, machineId, memZoneId);
        if verdict != Success(false) {
          r := verdict;
          assert r != Success(false) ==> FirstVerdictIs(imp, zones, d, ii, r);
          assert !NoZoneOutOfMemory(imp, zones, d, ii) by {
            assert IsZoneIndex(zones, machineId, memZoneId);
          }
          if NoZoneFails(imp, zones, d, ii) {
            assert r == Success(true) <==> SomeZoneOutOfMemory(imp, zones, d, ii) by {
              assert IsZoneIndex(zones, machineId, memZoneId);
            }
          }
          return;
        }
        memZoneId := memZoneId + 1;
      }
      machineId := machineId + 1;
    }
    r := Success(false);
  }

  /**
   * A zone scan result tells each side of the iff: with no errors, false
   * means no zone runs out and anything else means the first failing zone
   * runs out.
   */
  lemma FirstVerdictExcludesRoom(imp: Improver, zones: seq<seq<seq<RegstDesc>>>, d: Demand, ii: real)
    requires ShapedLike(zones, imp)
    requires FirstVerdictIs(imp, zones, d, ii, Success(true))
    ensures !NoZoneOutOfMemory(imp, zones, d, ii)
    ensures SomeZoneOutOfMemory(imp, zones, d, ii)
  {
    var m, z :| IsZoneIndex(zones, m, z) && RoomBefore(imp, zones, d, ii, m, z) &&
      ZoneVerdict(imp, zones, d, ii, m, z) == Success(true);
  }

  // ---------------------------------------------------------------------------
  // Binary search of the initiation interval

  /** The search threshold of BinarySearchII (ii_search_threshold). */
  const IISearchThreshold: real := 1.0

  /** `l` is where the search started or an interval at which some zone runs out. */
  ghost predicate IsLowerBound(
    imp: Improver, zones: seq<seq<seq<RegstDesc>>>, d: Demand, baseII: real, l: real)
    requires ShapedLike(zones, imp)
  {
    l == baseII || FirstVerdictIs(imp, zones, d, l, Success(true))
  }

  /** The halving step strictly decreases the integer part of the gap. */
  lemma HalvingShrinksGap(l: real, r: real, mid: real)
    requires r - l > IISearchThreshold && mid == (l + r) / 2.0
    ensures 0 <= (mid - l).Floor < (r - l).Floor
    ensures 0 <= (r - mid).Floor < (r - l).Floor
  {
  }

  /**
   * Improver::BinarySearchII over the OOM scan: the upper end max_duration
   * must fit (a CHECK); then the interval [l, r] is halved until it is no
   * wider than the threshold, keeping r at an interval where every zone fits.
   * The result fits, is at most max_duration, and lies within the threshold
   * of base_ii or of an interval at which some zone runs out.
   */
  method BinarySearchII(imp: Improver, zones: seq<seq<seq<RegstDesc>>>, d: Demand, baseII: real, maxDuration: real)
    returns (res: Result<real, Error>)
    requires ShapedLike(zones, imp)
    ensures !NoZoneOutOfMemory(imp, zones, d, maxDuration) ==> res.Failure?
    ensures res.Success? ==> res.value <= maxDuration && NoZoneOutOfMemory(imp, zones, d, res.value)
    ensures res.Success? ==>
      exists l :: res.value - IISearchThreshold <= l && (l < res.value || l == baseII) &&
        IsLowerBound(imp, zones, d, baseII, l)
    ensures NoZoneOutOfMemory(imp, zones, d, maxDuration) && (forall ii: real :: NoZoneFails(imp, zones, d, ii)) ==>
      res.Success?
  {
    var atMax := IsAnyZoneOutOfMemory(imp, zones, d, maxDuration);
    if atMax.Failure? { return Failure(atMax.error); }
    if atMax.value { return Failure(CheckFailed("!IsAnyZoneOutOfMemory(max_duration)")); }
    var r := maxDuration;
    var l := baseII;
    var mid := baseII;
    while r - l > IISearchThreshold
      invariant r <= maxDuration && NoZoneOutOfMemory(imp, zones, d, r)
      invariant IsLowerBound(imp, zones, d, baseII, l)
      invariant l == baseII || l < r
      decreases (r - l).Floor
    {
      mid := (l + r) / 2.0;
      HalvingShrinksGap(l, r, mid);
      var oom := IsAnyZoneOutOfMemory(imp, zones, d, mid);
      if oom.Failure? {
        ErrorVerdictMeansSomeZoneFails(imp, zones, d, mid, oom);
        return Failure(oom.error);
      }
      if oom.value {
        l := mid;
      } else {
        r := mid;
      }
    }
    return Success(r);
  }

  /** A scan that stopped on an error found a zone whose verdict is that error. */
  lemma ErrorVerdictMeansSomeZoneFails(
    imp: Improver, zones: seq<seq<seq<RegstDesc>>>, d: Demand, ii: real, v: Result<bool, Error>)
    requires ShapedLike(zones, imp)
    requires FirstVerdictIs(imp, zones, d, ii, v)
    ensures v.Failure? ==> !NoZoneFails(imp, zones, d, ii)
  {
    var m, z :| IsZoneIndex(zones, m, z) && RoomBefore(imp, zones, d, ii, m, z) && ZoneVerdict(imp, zones, d, ii, m, z) == v;
    assert ZoneVerdict(imp, zones, d, ii, m, z).Success? <==> v.Success?;
  }

  /**
   * When fitting is monotone (every zone that fits at an interval fits at
   * any larger one), the bounds BinarySearchII ends with (l within the
   * threshold below r, l a lower bound) put r within the threshold of every
   * interval not below base_ii at which every zone fits.
   */
  lemma BinarySearchIINearMinimal(
    imp: Improver, zones: seq<seq<seq<RegstDesc>>>, d: Demand, baseII: real, r: real, l: real, ii: real)
    requires ShapedLike(zones, imp)
    requires forall a: real, b: real :: a <= b && NoZoneOutOfMemory(imp, zones, d, a) ==> NoZoneOutOfMemory(imp, zones, d, b)
    requires r - IISearchThreshold <= l && IsLowerBound(imp, zones, d, baseII, l)
    requires baseII <= ii && NoZoneOutOfMemory(imp, zones, d, ii)
    ensures r - IISearchThreshold <= ii
  {
    if l != baseII {
      FirstVerdictExcludesRoom(imp, zones, d, l);
      assert l < ii;
    }
  }
}
