/** The two lock registers: a cache of the nesting depths of at most two locked objects. */
module Locks {
  import opened Bits

  /** A register pair: the address of the object, and a count word with the depth in its low
      byte, the release-trap bit 0x4000 and the owned bit 0x8000. */
  datatype Reg = Reg(addr: uint32, count: uint32)

  datatype Result = Entered | Exited | NullTrap | MissTrap | OverflowTrap | ReleaseTrap

  /** MASK_OBJREF keeps bits 2 to 29. */
  function Masked(objref: uint32): uint32 {
    objref % 0x4000_0000 / 4 * 4
  }

  function Low(count: uint32): byte {
    count % 256
  }

  function WithLow(count: uint32, low: int): uint32 {
    count - count % 256 + low % 256
  }

  predicate ReleaseBit(count: uint32) {
    count / 0x4000 % 2 == 1
  }

  predicate OwnedBit(count: uint32) {
    count / 0x8000 % 2 == 1
  }

  predicate Hits(r: Reg, obj: uint32) {
    Masked(r.addr) == obj
  }

  // ----- what the instructions do to the registers

  function Counted(r: Reg, obj: uint32, step: int): Reg {
    if Hits(r, obj) then r.(count := WithLow(r.count, Low(r.count) + step)) else r
  }

  function EnterRegs(r0: Reg, r1: Reg, objref: uint32, locked: bool, fast: bool): (Reg, Reg, Result) {
    var obj := Masked(objref);
    var hit := Hits(r0, obj) || Hits(r1, obj);
    var n0, n1 := Counted(r0, obj, 1), Counted(r1, obj, 1);
    if objref == 0 then (r0, r1, NullTrap)
    else if (Hits(r0, obj) && Low(n0.count) == 0) || (Hits(r1, obj) && Low(n1.count) == 0) then (n0, n1, OverflowTrap)
    else if hit then (n0, n1, Entered)
    else if fast && !locked && r0.addr == 0 then (Reg(obj, 0x8001), r1, Entered)
    else if fast && !locked && r1.addr == 0 then (r0, Reg(obj, 0x8001), Entered)
    else (r0, r1, MissTrap)
  }

  function Released(r: Reg, obj: uint32, fast: bool): Reg {
    var n := Counted(r, obj, -1);
    if Hits(r, obj) && fast && Low(n.count) == 0 && !ReleaseBit(n.count) && OwnedBit(n.count) then Reg(0, 0) else n
  }

  predicate Underflows(r: Reg, obj: uint32) {
    Hits(r, obj) && Low(r.count) == 0
  }

  predicate AsksRelease(r: Reg, obj: uint32) {
    Hits(r, obj) && Low(r.count) == 1 && ReleaseBit(r.count)
  }

  function ExitRegs(r0: Reg, r1: Reg, objref: uint32, fast: bool): (Reg, Reg, Result) {
    var obj := Masked(objref);
    if objref == 0 then (r0, r1, NullTrap)
    else
      (Released(r0, obj, fast), Released(r1, obj, fast),
       if Underflows(r0, obj) || Underflows(r1, obj) then OverflowTrap
       else if AsksRelease(r0, obj) || AsksRelease(r1, obj) then ReleaseTrap
       else if !Hits(r0, obj) && !Hits(r1, obj) then MissTrap
       else Exited)
  }

  lemma LowByte(count: uint32, low: int)
    ensures Low(WithLow(count, low)) == low % 256
    ensures ReleaseBit(WithLow(count, low)) == ReleaseBit(count) && OwnedBit(WithLow(count, low)) == OwnedBit(count)
  {
    var q := count / 256;
    assert WithLow(count, low) == 256 * q + low % 256;
    assert WithLow(count, low) / 0x4000 == q / 64 == count / 0x4000;
    assert WithLow(count, low) / 0x8000 == q / 128 == count / 0x8000;
  }

  /** The fields of a reference and of a count word are what the masks of the source select. */
  lemma MasksAreFields(x: uint32)
    ensures And(x, 0x3FFF_FFFC) == Masked(x) && And(x, 0xFF) == Low(x)
    ensures And(x, 0x4000) != 0 <==> ReleaseBit(x)
    ensures And(x, 0x8000) != 0 <==> OwnedBit(x)
  {
    hide And;
    AndFieldMask(x, 28, 2);
    AndLowMask(x, 8);
    AndFieldMask(x, 1, 14);
    AndFieldMask(x, 1, 15);
    MaskPowers();
    FieldOfReference(x);
    hide Pow2;
  }

  lemma MaskPowers()
    ensures Pow2(1) == 2 && Pow2(2) == 4 && Pow2(8) == 0x100 && Pow2(14) == 0x4000 && Pow2(15) == 0x8000
    ensures Pow2(28) == 0x1000_0000
  {
    Pow2Values();
    assert Pow2(16) == 2 * Pow2(15) && Pow2(15) == 2 * Pow2(14);
    assert Pow2(30) == 4 * Pow2(28);
  }

  lemma FieldOfReference(x: uint32)
    ensures x / 4 % 0x1000_0000 * 4 == x % 0x4000_0000 / 4 * 4
  {
    var q, r := x / 0x4000_0000, x % 0x4000_0000;
    assert x / 4 == q * 0x1000_0000 + r / 4;
  }

  /** What an entry does, for at most one register that holds the object: the null trap, one more in the
      low byte of the count or the overflow of it, a free register, or the miss trap. */
  lemma EnterSpelledOut(r0: Reg, r1: Reg, objref: uint32, locked: bool, fast: bool)
    ensures var obj, (n0, n1, r) := objref % 0x4000_0000 / 4 * 4, EnterRegs(r0, r1, objref, locked, fast);
            var h0, h1 := r0.addr % 0x4000_0000 / 4 * 4 == obj, r1.addr % 0x4000_0000 / 4 * 4 == obj;
            && (objref == 0 ==> n0 == r0 && n1 == r1 && r == NullTrap)
            && (objref != 0 && h0 && !h1 ==>
                 && n0.addr == r0.addr && n1 == r1
                 && n0.count == (if r0.count % 256 == 255 then r0.count - 255 else r0.count + 1)
                 && r == if r0.count % 256 == 255 then OverflowTrap else Entered)
            && (objref != 0 && !h0 && h1 ==>
                 && n0 == r0 && n1.addr == r1.addr
                 && n1.count == (if r1.count % 256 == 255 then r1.count - 255 else r1.count + 1)
                 && r == if r1.count % 256 == 255 then OverflowTrap else Entered)
            && (objref != 0 && !h0 && !h1 ==>
                 (n0, n1, r)
                 == if !fast || locked then (r0, r1, MissTrap)
                    else if r0.addr == 0 then (Reg(obj, 0x8001), r1, Entered)
                    else if r1.addr == 0 then (r0, Reg(obj, 0x8001), Entered)
                    else (r0, r1, MissTrap))
  {
    hide Low, WithLow, Masked;
    OneMore(r0.count);
    OneMore(r1.count);
    MaskedIs(objref);
    MaskedIs(r0.addr);
    MaskedIs(r1.addr);
  }

  /** What an exit does, for at most one register that holds the object. The last exit frees the register;
      under the release bit it leaves the object held, at depth 0, to the handler of the trap. */
  lemma ExitSpelledOut(r0: Reg, r1: Reg, objref: uint32, fast: bool)
    ensures var obj, (n0, n1, r) := objref % 0x4000_0000 / 4 * 4, ExitRegs(r0, r1, objref, fast);
            var h0, h1 := r0.addr % 0x4000_0000 / 4 * 4 == obj, r1.addr % 0x4000_0000 / 4 * 4 == obj;
            && (objref == 0 ==> n0 == r0 && n1 == r1 && r == NullTrap)
            && (objref != 0 && h0 && !h1 ==> n1 == r1 && OneExit(r0, fast, n0, r))
            && (objref != 0 && !h0 && h1 ==> n0 == r0 && OneExit(r1, fast, n1, r))
            && (objref != 0 && !h0 && !h1 ==> n0 == r0 && n1 == r1 && r == MissTrap)
  {
    hide Low, WithLow, Masked, ReleaseBit, OwnedBit;
    OneLess(r0.count);
    OneLess(r1.count);
    MaskedIs(objref);
    MaskedIs(r0.addr);
    MaskedIs(r1.addr);
  }

  /** The register that holds the object before and after an exit, and the result. */
  predicate OneExit(r: Reg, fast: bool, n: Reg, result: Result) {
    var depth, release, owned := r.count % 256, r.count / 0x4000 % 2 == 1, r.count / 0x8000 % 2 == 1;
    if depth == 0 then n.addr == r.addr && n.count == r.count + 255 && result == OverflowTrap
    else if depth == 1 && !release && owned && fast then n == Reg(0, 0) && result == Exited
    else n.addr == r.addr && n.count == r.count - 1
         && result == if depth == 1 && release then ReleaseTrap else Exited
  }

  lemma MaskedIs(x: uint32)
    ensures Masked(x) == x % 0x4000_0000 / 4 * 4
  {
  }

  lemma OneMore(count: uint32)
    ensures WithLow(count, Low(count) + 1) == if count % 256 == 255 then count - 255 else count + 1
    ensures Low(WithLow(count, Low(count) + 1)) == 0 <==> count % 256 == 255
  {
    hide ReleaseBit, OwnedBit;
    var low: byte := Low(count);
    LowByte(count, low + 1);
    PlusOneModulo(low);
  }

  lemma PlusOneModulo(low: byte)
    ensures (low as int + 1) % 256 == if low == 255 then 0 else low as int + 1
  {
  }

  lemma OneLess(count: uint32)
    ensures Low(count) == count % 256
    ensures WithLow(count, Low(count) - 1) == if count % 256 == 0 then count + 255 else count - 1
    ensures Low(WithLow(count, Low(count) - 1)) == 0 <==> count % 256 == 1
    ensures ReleaseBit(WithLow(count, Low(count) - 1)) <==> count / 0x4000 % 2 == 1
    ensures OwnedBit(WithLow(count, Low(count) - 1)) <==> count / 0x8000 % 2 == 1
    ensures ReleaseBit(count) <==> count / 0x4000 % 2 == 1
  {
    LowByte(count, Low(count) - 1);
    LessOne(count);
  }

  lemma LessOne(count: uint32)
    ensures (count % 256 - 1) % 256 == if count % 256 == 0 then 255 else count % 256 - 1
  {
  }

  class LockRegisters {
    const lockAddr: array<uint32>
    const lockCount: array<uint32>
    const fastMonitors: bool

    ghost predicate Valid()
      reads this
    {
      lockAddr.Length == 2 && lockCount.Length == 2 && lockAddr != lockCount
    }

    function At(i: nat): Reg
      reads this, lockAddr, lockCount
      requires Valid() && i < 2
    {
      Reg(lockAddr[i], lockCount[i])
    }

    constructor (fast: bool)
      ensures Valid() && fastMonitors == fast && At(0) == At(1) == Reg(0, 0)
      ensures fresh(lockAddr) && fresh(lockCount)
    {
      lockAddr := new uint32[2](_ => 0);
      lockCount := new uint32[2](_ => 0);
      fastMonitors := fast;
    }

    /** doMonitorEnter; `locked` is the lock bit in the header of the object. */
    method MonitorEnter(objref: uint32, locked: bool) returns (r: Result)
      requires Valid()
      modifies lockAddr, lockCount
      ensures (At(0), At(1), r) == EnterRegs(old(At(0)), old(At(1)), objref, locked, fastMonitors)
      ensures objref == 0 ==> r == NullTrap && At(0) == old(At(0)) && At(1) == old(At(1))
    {
      hide Low, WithLow, Masked;
      if objref == 0 {
        return NullTrap;
      }
      var obj := Masked(objref);
      var hit, overflow := false, false;
      var i := 0;
      while i < 2
        invariant 0 <= i <= 2 && lockAddr[..] == old(lockAddr[..])
        invariant At(0) == (if i > 0 then Counted(old(At(0)), obj, 1) else old(At(0)))
        invariant At(1) == (if i > 1 then Counted(old(At(1)), obj, 1) else old(At(1)))
        invariant hit <==> (i > 0 && Hits(old(At(0)), obj)) || (i > 1 && Hits(old(At(1)), obj))
        invariant overflow <==> (i > 0 && Hits(old(At(0)), obj) && Low(Counted(old(At(0)), obj, 1).count) == 0)
                                || (i > 1 && Hits(old(At(1)), obj) && Low(Counted(old(At(1)), obj, 1).count) == 0)
      {
        if Masked(lockAddr[i]) == obj {
          hit := true;
          lockCount[i] := WithLow(lockCount[i], Low(lockCount[i]) + 1);
          if Low(lockCount[i]) == 0 {
            overflow := true;
          }
        }
        i := i + 1;
      }
      if fastMonitors && !hit {
        i := 0;
        while i < 2
          invariant 0 <= i <= 2 && forall k | 0 <= k < i :: lockAddr[k] != 0
        {
          if lockAddr[i] == 0 {
            break;
          }
          i := i + 1;
        }
        if i < 2 && !locked {
          hit := true;
          lockAddr[i] := obj;
          lockCount[i] := 0x8001;
        }
      }
      r := if overflow then OverflowTrap else if !hit then MissTrap else Entered;
    }

    /** doMonitorExit. */
    method MonitorExit(objref: uint32) returns (r: Result)
      requires Valid()
      modifies lockAddr, lockCount
      ensures (At(0), At(1), r) == ExitRegs(old(At(0)), old(At(1)), objref, fastMonitors)
      ensures objref == 0 ==> r == NullTrap && At(0) == old(At(0)) && At(1) == old(At(1))
    {
      hide Low, WithLow, Masked, ReleaseBit, OwnedBit;
      if objref == 0 {
        return NullTrap;
      }
      var obj := Masked(objref);
      var hit, overflow, release := false, false, false;
      var i := 0;
      while i < 2
        invariant 0 <= i <= 2
        invariant At(0) == (if i > 0 then Released(old(At(0)), obj, fastMonitors) else old(At(0)))
        invariant At(1) == (if i > 1 then Released(old(At(1)), obj, fastMonitors) else old(At(1)))
        invariant hit <==> (i > 0 && Hits(old(At(0)), obj)) || (i > 1 && Hits(old(At(1)), obj))
        invariant overflow <==> (i > 0 && Underflows(old(At(0)), obj)) || (i > 1 && Underflows(old(At(1)), obj))
        invariant release <==> (i > 0 && AsksRelease(old(At(0)), obj)) || (i > 1 && AsksRelease(old(At(1)), obj))
      {
        if Masked(lockAddr[i]) == obj {
          hit := true;
          MinusOne(lockCount[i]);
          lockCount[i] := WithLow(lockCount[i], Low(lockCount[i]) - 1);
          if Low(lockCount[i]) == 0 && ReleaseBit(lockCount[i]) {
            release := true;
          }
          if fastMonitors && Low(lockCount[i]) == 0 && !ReleaseBit(lockCount[i]) && OwnedBit(lockCount[i]) {
            lockAddr[i] := 0;
            lockCount[i] := 0;
          } else if Low(lockCount[i]) == 0xFF {
            overflow := true;
          }
        }
        i := i + 1;
      }
      r := if overflow then OverflowTrap else if release then ReleaseTrap else if !hit then MissTrap else Exited;
    }

    method Perform(op: Op) returns (r: Result)
      requires Valid()
      modifies lockAddr, lockCount
      ensures (At(0), At(1), r) == Step(old(At(0)), old(At(1)), op, fastMonitors)
    {
      match op
      case Enter(objref, locked) => r := MonitorEnter(objref, locked);
      case Exit(objref) => r := MonitorExit(objref);
    }

    /** Any sequence of instructions, on registers that start out empty: they behave as a map from
        objects to depths as long as no reference is masked to zero and no depth exceeds 255. */
    method Run(ops: seq<Op>) returns (rs: seq<Result>)
      requires Valid() && fastMonitors && At(0) == At(1) == Reg(0, 0)
      requires Proper(ops)
      modifies lockAddr, lockCount
      ensures |rs| == |ops| && rs == MapRun(ops).1
      ensures Good(At(0), At(1)) && Depths(At(0), At(1)) == MapRun(ops).0
    {
      hide Step, MapStep, Good, Depths, Masked;
      EmptyIsGood();
      rs := [];
      var k := 0;
      while k < |ops|
        invariant k <= |ops| && |rs| == k && rs == MapRun(ops[..k]).1
        invariant Good(At(0), At(1)) && Depths(At(0), At(1)) == MapRun(ops[..k]).0
      {
        ProperAt(ops, k);
        StepRefines(At(0), At(1), ops[k]);
        var r := Perform(ops[k]);
        rs := rs + [r];
        assert ops[..k + 1][..k] == ops[..k];
        k := k + 1;
      }
      assert ops[..k] == ops;
    }
  }

  lemma MinusOne(count: uint32)
    ensures Low(WithLow(count, Low(count) - 1)) == 0xFF <==> Low(count) == 0
    ensures Low(WithLow(count, Low(count) - 1)) == 0 <==> Low(count) == 1
    ensures ReleaseBit(WithLow(count, Low(count) - 1)) == ReleaseBit(count)
  {
    var low: byte := Low(count);
    LowByte(count, low - 1);
    hide WithLow, Low, ReleaseBit, OwnedBit;
    MinusOneModulo(low);
  }

  lemma MinusOneModulo(low: byte)
    ensures (low - 1) % 256 == 0xFF <==> low == 0
    ensures (low - 1) % 256 == 0 <==> low == 1
  {
  }

  // ----- the map of depths

  datatype Op = Enter(objref: uint32, locked: bool) | Exit(objref: uint32)

  function Step(r0: Reg, r1: Reg, op: Op, fast: bool): (Reg, Reg, Result) {
    match op
    case Enter(objref, locked) => EnterRegs(r0, r1, objref, locked, fast)
    case Exit(objref) => ExitRegs(r0, r1, objref, fast)
  }

  predicate Free(r: Reg) {
    r.addr == 0 && r.count == 0
  }

  /** The register holds an object, and its count word is 0x8000 plus a depth of 1 to 255. */
  predicate Held(r: Reg) {
    r.addr != 0 && Masked(r.addr) == r.addr && 0x8001 <= r.count <= 0x80FF
  }

  predicate Good(r0: Reg, r1: Reg) {
    && (Free(r0) || Held(r0)) && (Free(r1) || Held(r1))
    && (Held(r0) && Held(r1) ==> r0.addr != r1.addr)
  }

  function One(r: Reg): map<uint32, nat> {
    if Held(r) then map[r.addr := Low(r.count)] else map[]
  }

  function Depths(r0: Reg, r1: Reg): map<uint32, nat> {
    One(r0) + One(r1)
  }

  /** The same instructions on a map of at most two depths. */
  function MapStep(m: map<uint32, nat>, op: Op): (map<uint32, nat>, Result) {
    var obj := Masked(op.objref);
    match op
    case Enter(objref, locked) =>
      if obj in m then if m[obj] >= 255 then (m, OverflowTrap) else (m[obj := m[obj] + 1], Entered)
      else if |m| < 2 && !locked then (m[obj := 1], Entered)
      else (m, MissTrap)
    case Exit(objref) =>
      if obj !in m then (m, MissTrap)
      else if m[obj] > 1 then (m[obj := m[obj] - 1], Exited)
      else (m - {obj}, Exited)
  }

  function MapRun(ops: seq<Op>): (r: (map<uint32, nat>, seq<Result>))
    ensures |r.1| == |ops|
  {
    if ops == [] then (map[], [])
    else
      var (m, rs) := MapRun(ops[..|ops| - 1]);
      var (m', r) := MapStep(m, ops[|ops| - 1]);
      (m', rs + [r])
  }

  /** No reference is masked to zero, and no depth grows beyond its byte. */
  ghost predicate Proper(ops: seq<Op>) {
    && (forall op | op in ops :: Masked(op.objref) != 0)
    && (forall r | r in MapRun(ops).1 :: r != OverflowTrap)
  }

  lemma {:induction false} ProperAt(ops: seq<Op>, k: nat)
    requires Proper(ops) && k < |ops|
    ensures Masked(ops[k].objref) != 0 && MapStep(MapRun(ops[..k]).0, ops[k]).1 != OverflowTrap
    decreases |ops|
  {
    hide Masked, MapStep;
    var n := |ops| - 1;
    assert ops[k] in ops;
    var (m, rs) := MapRun(ops[..n]);
    var r := MapStep(m, ops[n]).1;
    assert MapRun(ops).1 == rs + [r];
    assert r in rs + [r];
    if k < n {
      assert Proper(ops[..n]) by {
        assert forall op | op in ops[..n] :: op in ops;
        assert forall x | x in rs :: x in rs + [r];
      }
      ProperAt(ops[..n], k);
      assert ops[..n][..k] == ops[..k];
    }
  }

  lemma EmptyIsGood()
    ensures Good(Reg(0, 0), Reg(0, 0)) && Depths(Reg(0, 0), Reg(0, 0)) == map[]
  {
  }

  lemma MaskedTwice(objref: uint32)
    ensures Masked(Masked(objref)) == Masked(objref)
  {
  }

  // A map of one entry beside another map.

  lemma SetLeft(m: map<uint32, nat>, left: map<uint32, nat>, obj: uint32, d: nat)
    requires obj !in m && forall k :: k in left ==> k == obj
    ensures (left + m)[obj := d] == map[obj := d] + m
  {
  }

  lemma SetRight(m: map<uint32, nat>, right: map<uint32, nat>, obj: uint32, d: nat)
    requires forall k :: k in right ==> k == obj
    ensures (m + right)[obj := d] == m + map[obj := d]
  {
  }

  lemma DropLeft(m: map<uint32, nat>, left: map<uint32, nat>, obj: uint32)
    requires obj !in m && forall k :: k in left ==> k == obj
    ensures (left + m) - {obj} == map[] + m
  {
  }

  lemma DropRight(m: map<uint32, nat>, right: map<uint32, nat>, obj: uint32)
    requires obj !in m && forall k :: k in right ==> k == obj
    ensures (m + right) - {obj} == m + map[]
  {
  }

  lemma Sizes(a: map<uint32, nat>, b: map<uint32, nat>)
    requires forall k :: !(k in a && k in b)
    ensures |a + b| == |a| + |b|
  {
    assert (a + b).Keys == a.Keys + b.Keys;
    assert a.Keys * b.Keys == {};
    assert |a.Keys| == |a| && |b.Keys| == |b| && |(a + b).Keys| == |a + b|;
  }

  lemma OneShape(r: Reg, obj: uint32)
    requires (Free(r) || Held(r)) && obj != 0
    ensures forall k :: k in One(r) ==> k == r.addr && Held(r)
    ensures Hits(r, obj) <==> obj in One(r)
    ensures Hits(r, obj) ==> Held(r) && r.addr == obj && One(r)[obj] == Low(r.count)
    ensures |One(r)| == if Held(r) then 1 else 0
    ensures Held(r) <==> r.addr != 0
  {
    assert Masked(0) == 0;
  }

  /** The number of registers in use, and who holds them. */
  lemma DepthsShape(r0: Reg, r1: Reg, obj: uint32)
    requires Good(r0, r1) && obj != 0
    ensures |Depths(r0, r1)| == (if Held(r0) then 1 else 0) + (if Held(r1) then 1 else 0)
    ensures obj in Depths(r0, r1) <==> Hits(r0, obj) || Hits(r1, obj)
    ensures Hits(r0, obj) ==> Held(r0) && r0.addr == obj && !Hits(r1, obj) && Depths(r0, r1)[obj] == Low(r0.count)
    ensures Hits(r1, obj) ==> Held(r1) && r1.addr == obj && !Hits(r0, obj) && Depths(r0, r1)[obj] == Low(r1.count)
    ensures (Held(r0) <==> r0.addr != 0) && (Held(r1) <==> r1.addr != 0)
  {
    OneShape(r0, obj);
    OneShape(r1, obj);
    hide One, Held, Masked, Low;
    GoodApart(r0, r1);
    Sizes(One(r0), One(r1));
  }

  lemma GoodApart(r0: Reg, r1: Reg)
    requires Good(r0, r1)
    ensures forall k :: !(k in One(r0) && k in One(r1))
  {
  }

  /** How the map changes when a register does. */
  lemma DepthsChange(r0: Reg, r1: Reg, obj: uint32, r: Reg)
    requires Good(r0, r1) && obj != 0
    requires Free(r) || (Held(r) && r.addr == obj)
    ensures !Hits(r1, obj) && (Hits(r0, obj) || Free(r0)) ==>
              && Good(r, r1)
              && Depths(r, r1) == if Held(r) then Depths(r0, r1)[obj := Low(r.count)] else Depths(r0, r1) - {obj}
    ensures !Hits(r0, obj) && (Hits(r1, obj) || Free(r1)) ==>
              && Good(r0, r)
              && Depths(r0, r) == if Held(r) then Depths(r0, r1)[obj := Low(r.count)] else Depths(r0, r1) - {obj}
  {
    OneShape(r0, obj);
    OneShape(r1, obj);
    OneShape(r, obj);
    OneIs(r);
    GoodChange(r0, r1, obj, r);
    hide One, Masked, Low, Good;
    if !Hits(r1, obj) && (Hits(r0, obj) || Free(r0)) {
      if Held(r) {
        SetLeft(One(r1), One(r0), obj, Low(r.count));
      } else {
        DropLeft(One(r1), One(r0), obj);
      }
    }
    if !Hits(r0, obj) && (Hits(r1, obj) || Free(r1)) {
      if Held(r) {
        SetRight(One(r0), One(r1), obj, Low(r.count));
      } else {
        DropRight(One(r0), One(r1), obj);
      }
    }
  }

  lemma OneIs(r: Reg)
    ensures One(r) == if Held(r) then map[r.addr := Low(r.count)] else map[]
  {
  }

  lemma GoodChange(r0: Reg, r1: Reg, obj: uint32, r: Reg)
    requires Good(r0, r1) && obj != 0
    requires Free(r) || (Held(r) && r.addr == obj)
    ensures !Hits(r1, obj) ==> Good(r, r1)
    ensures !Hits(r0, obj) ==> Good(r0, r)
  {
  }

  /** The count word of a held object up or down by one. */
  lemma CountStep(r: Reg, obj: uint32)
    requires Held(r)
    ensures Low(r.count) == r.count - 0x8000 >= 1 && !ReleaseBit(r.count) && OwnedBit(r.count)
    ensures Low(r.count) < 255 ==> WithLow(r.count, Low(r.count) + 1) == r.count + 1
    ensures Low(r.count) == 255 ==> Low(WithLow(r.count, Low(r.count) + 1)) == 0
    ensures WithLow(r.count, Low(r.count) - 1) == r.count - 1
    ensures Low(r.count - 1) == Low(r.count) - 1 && !ReleaseBit(r.count - 1) && OwnedBit(r.count - 1)
  {
  }

  lemma EnterRefines(r0: Reg, r1: Reg, objref: uint32, locked: bool)
    requires Good(r0, r1) && Masked(objref) != 0
    requires MapStep(Depths(r0, r1), Enter(objref, locked)).1 != OverflowTrap
    ensures var (t0, t1, r) := EnterRegs(r0, r1, objref, locked, true);
            Good(t0, t1) && (Depths(t0, t1), r) == MapStep(Depths(r0, r1), Enter(objref, locked))
  {
    hide Good, Depths, WithLow, Low, ReleaseBit, OwnedBit, Masked;
    var obj := Masked(objref);
    MaskedTwice(objref);
    DepthsShape(r0, r1, obj);
    LowOfHeld();
    GoodFree(r0, r1);
    if Hits(r0, obj) {
      CountStep(r0, obj);
      DepthsChange(r0, r1, obj, r0.(count := r0.count + 1));
    } else if Hits(r1, obj) {
      CountStep(r1, obj);
      DepthsChange(r0, r1, obj, r1.(count := r1.count + 1));
    } else {
      DepthsChange(r0, r1, obj, Reg(obj, 0x8001));
    }
  }

  lemma GoodFree(r0: Reg, r1: Reg)
    requires Good(r0, r1)
    ensures (r0.addr == 0 <==> Free(r0)) && (r1.addr == 0 <==> Free(r1))
  {
  }

  lemma LowOfHeld()
    ensures forall c: uint32 | 0x8000 <= c <= 0x80FF :: Low(c) == c - 0x8000
    ensures Masked(0) == 0
  {
  }

  lemma ExitRefines(r0: Reg, r1: Reg, objref: uint32)
    requires Good(r0, r1) && Masked(objref) != 0
    ensures var (t0, t1, r) := ExitRegs(r0, r1, objref, true);
            Good(t0, t1) && (Depths(t0, t1), r) == MapStep(Depths(r0, r1), Exit(objref))
  {
    hide Good, Depths, WithLow, Low, ReleaseBit, OwnedBit, Masked;
    var obj := Masked(objref);
    MaskedTwice(objref);
    DepthsShape(r0, r1, obj);
    LowOfHeld();
    if Hits(r0, obj) {
      CountStep(r0, obj);
      DepthsChange(r0, r1, obj, if r0.count == 0x8001 then Reg(0, 0) else r0.(count := r0.count - 1));
    } else if Hits(r1, obj) {
      CountStep(r1, obj);
      DepthsChange(r0, r1, obj, if r1.count == 0x8001 then Reg(0, 0) else r1.(count := r1.count - 1));
    }
  }

  /** Each instruction on the registers is the instruction on the map. */
  lemma StepRefines(r0: Reg, r1: Reg, op: Op)
    requires Good(r0, r1) && Masked(op.objref) != 0
    requires MapStep(Depths(r0, r1), op).1 != OverflowTrap
    ensures var (t0, t1, r) := Step(r0, r1, op, true);
            Good(t0, t1) && (Depths(t0, t1), r) == MapStep(Depths(r0, r1), op)
  {
    hide Good, Depths, MapStep, EnterRegs, ExitRegs, Masked;
    match op
    case Enter(objref, locked) => EnterRefines(r0, r1, objref, locked);
    case Exit(objref) => ExitRefines(r0, r1, objref);
  }

  /** Which instructions trap for a miss: an entry that finds no register, and an exit of an object
      that holds none. They leave the registers alone. A reference whose address bits are all zero
      finds every free register. */
  lemma MissesExactly(r0: Reg, r1: Reg, op: Op, fast: bool)
    requires Good(r0, r1)
    ensures var (t0, t1, r) := Step(r0, r1, op, fast);
            var obj, full := Masked(op.objref), Held(r0) && Held(r1);
            && (r == MissTrap <==>
                  && op.objref != 0 && (if obj == 0 then full else obj !in Depths(r0, r1))
                  && (op.Exit? || op.locked || !fast || full))
            && (r == MissTrap ==> t0 == r0 && t1 == r1)
  {
    hide Depths, Masked, WithLow, Low, ReleaseBit, OwnedBit;
    var obj := Masked(op.objref);
    GoodFree(r0, r1);
    LowOfHeld();
    if obj == 0 {
      FreeHit();
    } else {
      DepthsShape(r0, r1, obj);
      if Hits(r0, obj) {
        CountStep(r0, obj);
      }
      if Hits(r1, obj) {
        CountStep(r1, obj);
      }
    }
  }

  // ----- where the refinement ends

  /** A reference whose address bits are all zero disturbs the registers unless both are in use. */
  lemma ZeroKeepsOrderIff(r0: Reg, r1: Reg, op: Op, fast: bool)
    requires Good(r0, r1) && op.objref != 0 && Masked(op.objref) == 0
    ensures var (t0, t1, r) := Step(r0, r1, op, fast);
            Good(t0, t1) <==> Held(r0) && Held(r1)
  {
    FreeHit();
    LowOfHeld();
    hide WithLow, Low;
  }

  lemma FullBreaksOrder(r0: Reg, r1: Reg, objref: uint32, locked: bool, fast: bool)
    requires Good(r0, r1) && Masked(objref) != 0
    requires Masked(objref) in Depths(r0, r1) && Depths(r0, r1)[Masked(objref)] == 255
    ensures var (t0, t1, r) := EnterRegs(r0, r1, objref, locked, fast); !Good(t0, t1) && r == OverflowTrap
  {
    hide Masked, WithLow, Low, ReleaseBit, OwnedBit, Depths;
    var obj := Masked(objref);
    LowOfHeld();
    DepthsShape(r0, r1, obj);
    if Hits(r0, obj) {
      FullCount(r0);
    } else {
      FullCount(r1);
    }
  }

  lemma FullCount(r: Reg)
    requires Held(r) && Low(r.count) == 255
    ensures WithLow(r.count, Low(r.count) + 1) == 0x8000 && Low(0x8000) == 0
  {
  }

  /** An entry keeps the registers in order exactly if the depth does not overflow its byte. */
  lemma EnterKeepsOrderIff(r0: Reg, r1: Reg, objref: uint32, locked: bool, fast: bool)
    requires Good(r0, r1) && Masked(objref) != 0
    ensures var (t0, t1, r) := EnterRegs(r0, r1, objref, locked, fast);
            var obj := Masked(objref);
            Good(t0, t1) <==> !(obj in Depths(r0, r1) && Depths(r0, r1)[obj] == 255)
  {
    hide Masked, Depths, Held, Good, WithLow, Low;
    var obj := Masked(objref);
    if obj in Depths(r0, r1) && Depths(r0, r1)[obj] == 255 {
      FullBreaksOrder(r0, r1, objref, locked, fast);
    } else {
      DepthsBounded(r0, r1, obj);
      DepthsShape(r0, r1, obj);
      NoOverflow(Depths(r0, r1), objref, locked);
      EnterRefines(r0, r1, objref, locked);
    }
  }

  lemma DepthsBounded(r0: Reg, r1: Reg, obj: uint32)
    requires Good(r0, r1) && obj != 0
    ensures obj in Depths(r0, r1) ==> 1 <= Depths(r0, r1)[obj] <= 255
  {
    DepthsShape(r0, r1, obj);
    LowOfHeld();
  }

  lemma NoOverflow(m: map<uint32, nat>, objref: uint32, locked: bool)
    requires Masked(objref) in m ==> m[Masked(objref)] < 255
    ensures MapStep(m, Enter(objref, locked)).1 != OverflowTrap
  {
  }

  lemma FreeHit()
    ensures WithLow(0, Low(0) + 1) == 1 && Low(1) == 1
    ensures WithLow(0, Low(0) - 1) == 255 && Low(255) == 255 && Low(0) == 0
  {
  }

  /** Without fast monitors an object is not removed: the registers stay in order after an exit
      exactly if the exit was not the last one of its object. */
  lemma SlowExitKeepsOrderIff(r0: Reg, r1: Reg, objref: uint32)
    requires Good(r0, r1) && Masked(objref) != 0
    ensures var (t0, t1, r) := ExitRegs(r0, r1, objref, false);
            var obj := Masked(objref);
            Good(t0, t1) <==> !(obj in Depths(r0, r1) && Depths(r0, r1)[obj] == 1)
  {
    hide Masked, WithLow, Low, ReleaseBit, OwnedBit, Depths;
    var obj := Masked(objref);
    MaskedTwice(objref);
    DepthsShape(r0, r1, obj);
    LowOfHeld();
    if Hits(r0, obj) {
      CountStep(r0, obj);
    } else if Hits(r1, obj) {
      CountStep(r1, obj);
    }
  }

  /** After any instruction the registers are in order exactly if the reference was null; or its
      address bits are all zero and both registers are in use; or they are not, the depth does not
      overflow its byte, and an exit is not the last one of its object without fast monitors. */
  lemma KeepsOrderIff(r0: Reg, r1: Reg, op: Op, fast: bool)
    requires Good(r0, r1)
    ensures var (t0, t1, r) := Step(r0, r1, op, fast);
            var obj := Masked(op.objref);
            Good(t0, t1) <==>
              if op.objref == 0 then true
              else if obj == 0 then Held(r0) && Held(r1)
              else if op.Enter? then !(obj in Depths(r0, r1) && Depths(r0, r1)[obj] == 255)
              else fast || !(obj in Depths(r0, r1) && Depths(r0, r1)[obj] == 1)
  {
    hide Masked, Depths, Held, Good, WithLow, Low, Released, Counted;
    if op.objref != 0 {
      if Masked(op.objref) == 0 {
        ZeroKeepsOrderIff(r0, r1, op, fast);
      } else if op.Enter? {
        EnterKeepsOrderIff(r0, r1, op.objref, op.locked, fast);
      } else if fast {
        ExitRefines(r0, r1, op.objref);
      } else {
        SlowExitKeepsOrderIff(r0, r1, op.objref);
      }
    }
  }

  // ----- balance

  /** Entries less exits of an object that were carried out. */
  function Net(ops: seq<Op>, rs: seq<Result>, obj: uint32): int
    requires |ops| == |rs|
  {
    if ops == [] then 0
    else
      var n := |ops| - 1;
      Net(ops[..n], rs[..n], obj)
      + if Masked(ops[n].objref) != obj then 0
        else if rs[n] == Entered then 1 else if rs[n] == Exited then -1 else 0
  }

  /** The depth of every object is the number of its entries less the number of its exits; it is
      in a register exactly while that number is not zero; and there are never more than two. */
  lemma {:induction false} DepthIsNet(ops: seq<Op>, obj: uint32)
    ensures var (m, rs) := MapRun(ops);
            && |m| <= 2
            && (obj in m ==> m[obj] > 0 && m[obj] == Net(ops, rs, obj))
            && (obj !in m ==> Net(ops, rs, obj) == 0)
  {
    if ops != [] {
      var n := |ops| - 1;
      DepthIsNet(ops[..n], obj);
      var (m, rs) := MapRun(ops[..n]);
      var (m', r) := MapStep(m, ops[n]);
      DepthIsNet(ops[..n], Masked(ops[n].objref));
      assert (rs + [r])[..n] == rs;
      SizeStep(m, ops[n]);
    }
  }

  lemma SizeStep(m: map<uint32, nat>, op: Op)
    requires |m| <= 2
    ensures |MapStep(m, op).0| <= 2
  {
    hide Masked;
    SizeWithout(m, Masked(op.objref));
  }

  lemma SizeWithout(m: map<uint32, nat>, obj: uint32)
    ensures |m - {obj}| <= |m|
  {
    var n := m - {obj};
    assert n.Keys <= m.Keys;
    SubsetSize(n.Keys, m.Keys);
    assert |n.Keys| == |n| && |m.Keys| == |m|;
  }

  lemma {:induction false} SubsetSize(a: set<uint32>, b: set<uint32>)
    requires a <= b
    ensures |a| <= |b|
  {
    assert b == a + (b - a);
  }

  /** A run leaves both registers empty exactly if it is balanced for every object. */
  lemma EmptyIffBalanced(ops: seq<Op>, r0: Reg, r1: Reg)
    requires Good(r0, r1) && Depths(r0, r1) == MapRun(ops).0
    ensures Free(r0) && Free(r1) <==> forall obj: uint32 :: Net(ops, MapRun(ops).1, obj) == 0
  {
    var (m, rs) := MapRun(ops);
    if Free(r0) && Free(r1) {
      forall obj: uint32
        ensures Net(ops, rs, obj) == 0
      {
        DepthIsNet(ops, obj);
      }
    }
    if Held(r0) {
      DepthIsNet(ops, r0.addr);
      assert r0.addr in Depths(r0, r1);
    }
    if Held(r1) {
      DepthIsNet(ops, r1.addr);
      assert r1.addr in Depths(r0, r1);
    }
  }

  /** A reference with the address bits zero hits both empty registers. */
  lemma ZeroAddressHitsEmptyRegisters()
    ensures EnterRegs(Reg(0, 0), Reg(0, 0), 0x4000_0000, false, true) == (Reg(0, 1), Reg(0, 1), Entered)
  {
    hide WithLow, Low;
    FreeHit();
  }

  /** The entry after depth 255, and without fast monitors the exit from depth 1, leave an object in a
      register with depth 0. */
  lemma DepthZeroStays()
    ensures EnterRegs(Reg(4, 0x80FF), Reg(0, 0), 4, false, true) == (Reg(4, 0x8000), Reg(0, 0), OverflowTrap)
    ensures ExitRegs(Reg(4, 0x8001), Reg(0, 0), 4, false) == (Reg(4, 0x8000), Reg(0, 0), Exited)
    ensures Good(Reg(4, 0x80FF), Reg(0, 0)) && Good(Reg(4, 0x8001), Reg(0, 0)) && !Good(Reg(4, 0x8000), Reg(0, 0))
  {
    hide WithLow, Low, ReleaseBit, OwnedBit, Masked;
    SmallAddress();
    CountStep(Reg(4, 0x8001), 4);
    LowOfHeld();
    FullCount(Reg(4, 0x80FF));
  }

  lemma SmallAddress()
    ensures Masked(4) == 4 && Masked(0) == 0
  {
  }

  /** On exit it makes their counts underflow, and they are free no longer. */
  lemma ZeroAddressUnderflows()
    ensures ExitRegs(Reg(0, 0), Reg(0, 0), 0x4000_0000, true) == (Reg(0, 255), Reg(0, 255), OverflowTrap)
    ensures !Good(Reg(0, 255), Reg(0, 255))
  {
    hide WithLow, Low;
    FreeHit();
  }
}
