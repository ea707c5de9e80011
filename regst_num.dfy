/**
 * The register count of a register descriptor: the largest count any
 * consumer path asks for, clamped between the descriptor's minimum and
 * maximum (improver.cpp, the uint64_t overload of CalcRegstNum).
 */
module RegstNum {
  import opened PlanProto

  const U64Modulus: nat := 0x1_0000_0000_0000_0000

  /** static_cast<uint64_t> of a signed proto field: two's complement wrap. */
  function ToU64(x: int): (u: nat)
    ensures u < U64Modulus
    ensures 0 <= x < U64Modulus ==> u == x
  {
    x % U64Modulus
  }

  /** The largest element, or 0 for no elements (the loop's starting value). */
  function MaxOf(s: seq<nat>): nat {
    if s == [] then 0 else
      var m := MaxOf(s[..|s| - 1]);
      if s[|s| - 1] > m then s[|s| - 1] else m
  }

  lemma {:induction false} MaxOfIsLargest(s: seq<nat>)
    ensures forall i :: 0 <= i < |s| ==> s[i] <= MaxOf(s)
    ensures s == [] ==> MaxOf(s) == 0
    ensures s != [] ==> exists i :: 0 <= i < |s| && s[i] == MaxOf(s)
  {
    if s != [] {
      var init := s[..|s| - 1];
      MaxOfIsLargest(init);
      assert forall i :: 0 <= i < |init| ==> s[i] == init[i];
      if s[|s| - 1] >= MaxOf(init) {
        assert s[|s| - 1] == MaxOf(s);
      } else {
        var i :| 0 <= i < |init| && init[i] == MaxOf(init);
        assert s[i] == MaxOf(s);
      }
    }
  }

  function Clamp(x: nat, lo: nat, hi: nat): nat {
    if x < lo then (if lo < hi then lo else hi)
    else if x < hi then x else hi
  }

  /**
   * The register count of `regst` when its consumer paths ask for
   * `pathRegstNums` registers (each already rounded up from the path's
   * duration, initiation interval and ii scale).
   */
  function RegstNumOf(regst: RegstDesc, pathRegstNums: seq<nat>): nat {
    Clamp(MaxOf(pathRegstNums), ToU64(regst.minRegisterNum), ToU64(regst.maxRegisterNum))
  }

  /**
   * max_register_num is a hard ceiling; min_register_num is a floor whenever
   * it does not exceed the ceiling; a path's demand is met whenever it fits
   * under the ceiling; with no paths the count is the clamp of 0.
   */
  lemma RegstNumOfBounds(regst: RegstDesc, pathRegstNums: seq<nat>)
    ensures RegstNumOf(regst, pathRegstNums) <= ToU64(regst.maxRegisterNum)
    ensures ToU64(regst.minRegisterNum) <= ToU64(regst.maxRegisterNum) ==>
      ToU64(regst.minRegisterNum) <= RegstNumOf(regst, pathRegstNums)
    ensures forall i :: 0 <= i < |pathRegstNums| && pathRegstNums[i] <= ToU64(regst.maxRegisterNum) ==>
      pathRegstNums[i] <= RegstNumOf(regst, pathRegstNums)
    ensures pathRegstNums == [] ==>
      RegstNumOf(regst, pathRegstNums) == Clamp(0, ToU64(regst.minRegisterNum), ToU64(regst.maxRegisterNum))
    ensures RegstNumOf(regst, pathRegstNums) == ToU64(regst.maxRegisterNum) ||
      RegstNumOf(regst, pathRegstNums) == ToU64(regst.minRegisterNum) ||
      exists i :: 0 <= i < |pathRegstNums| && RegstNumOf(regst, pathRegstNums) == pathRegstNums[i]
  {
    MaxOfIsLargest(pathRegstNums);
  }

  /** Folds max over the paths, then applies the floor and the ceiling. */
  method CalcRegstNum(regst: RegstDesc, pathRegstNums: seq<nat>) returns (regstNum: nat)
    ensures regstNum == RegstNumOf(regst, pathRegstNums)
  {
    regstNum := 0;
    var i := 0;
    while i < |pathRegstNums|
      invariant 0 <= i <= |pathRegstNums|
      invariant regstNum == MaxOf(pathRegstNums[..i])
    {
      assert pathRegstNums[..i + 1][..i] == pathRegstNums[..i];
      var curPathRegstNum := pathRegstNums[i];
      if curPathRegstNum > regstNum { regstNum := curPathRegstNum; }
      i := i + 1;
    }
    assert pathRegstNums[..i] == pathRegstNums;
    var lo := ToU64(regst.minRegisterNum);
    if lo > regstNum { regstNum := lo; }
    var hi := ToU64(regst.maxRegisterNum);
    if hi < regstNum { regstNum := hi; }
  }
}
