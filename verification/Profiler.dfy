/** The call-stack profiler: entry points with their statistics and edge lists, and the array of
    open blocks. */
module Profiler {
  import opened Bits
  import opened ProfileLog
  import opened ProfileLaws

  const MAX_CALL_STACK_DEPTH: nat := 4096

  /** An entry of a caller or callee list; a statistics object is the list of its samples. */
  datatype Node = Node(ep: uint32, stats: seq<int>)

  datatype EntryPoint = EntryPoint(len: uint32, first: int, total: seq<int>, self: seq<int>,
                                   callers: seq<Node>, callees: seq<Node>)

  function NewEntryPoint(len: uint32): EntryPoint {
    EntryPoint(len, -1, [], [], [], [])
  }

  function Names(nodes: seq<Node>): (r: seq<uint32>)
    ensures |r| == |nodes| && forall k | 0 <= k < |r| :: r[k] == nodes[k].ep
  {
    seq(|nodes|, k requires 0 <= k < |nodes| => nodes[k].ep)
  }

  /** The samples of the node of `ep`; none if there is no such node. */
  function StatsOf(nodes: seq<Node>, ep: uint32): seq<int> {
    if nodes == [] then []
    else if nodes[0].ep == ep then nodes[0].stats
    else StatsOf(nodes[1..], ep)
  }

  /** A node moved to the front, or made there. */
  function ToFront(nodes: seq<Node>, k: nat, ep: uint32): seq<Node>
    requires k <= |nodes|
  {
    if k < |nodes| then [nodes[k]] + nodes[..k] + nodes[k + 1..] else [Node(ep, [])] + nodes
  }

  lemma {:induction false} RemoveAbsent(xs: seq<uint32>, x: uint32)
    requires x !in xs
    ensures Remove(xs, x) == xs
  {
    if xs != [] {
      RemoveAbsent(xs[1..], x);
    }
  }

  lemma {:induction false} RemoveConcat(xs: seq<uint32>, ys: seq<uint32>, x: uint32)
    ensures Remove(xs + ys, x) == Remove(xs, x) + Remove(ys, x)
  {
    if xs == [] {
      assert xs + ys == ys;
    } else {
      var rest := xs[1..] + ys;
      assert (xs + ys)[0] == xs[0] && (xs + ys)[1..] == rest;
      assert Remove(xs + ys, x) == (if xs[0] == x then [] else [xs[0]]) + Remove(rest, x);
      assert Remove(xs, x) == (if xs[0] == x then [] else [xs[0]]) + Remove(xs[1..], x);
      hide Remove;
      RemoveConcat(xs[1..], ys, x);
    }
  }

  lemma ToFrontNames(nodes: seq<Node>, k: nat, ep: uint32)
    requires k <= |nodes| && Distinct(Names(nodes))
    requires k < |nodes| ==> nodes[k].ep == ep
    requires k == |nodes| ==> ep !in Names(nodes)
    ensures Names(ToFront(nodes, k, ep)) == [ep] + Remove(Names(nodes), ep)
  {
    hide Remove;
    var names := Names(nodes);
    if k == |nodes| {
      RemoveAbsent(names, ep);
    } else {
      RemoveAt(names, k, ep);
    }
  }

  lemma RemoveAt(names: seq<uint32>, k: nat, ep: uint32)
    requires Distinct(names) && k < |names| && names[k] == ep
    ensures Remove(names, ep) == names[..k] + names[k + 1..]
  {
    hide Remove;
    var before, after := names[..k], names[k + 1..];
    assert names == before + ([ep] + after);
    RemoveConcat(before, [ep] + after, ep);
    RemoveConcat([ep], after, ep);
    RemoveAbsent(before, ep);
    RemoveAbsent(after, ep);
    RemoveOne(ep);
    assert before + ([] + after) == before + after;
  }

  lemma RemoveOne(x: uint32)
    ensures Remove([x], x) == []
  {
  }

  lemma {:induction false} ToFrontStats(nodes: seq<Node>, k: nat, ep: uint32, x: uint32)
    requires k <= |nodes| && forall j | 0 <= j < k :: nodes[j].ep != ep
    requires k < |nodes| ==> nodes[k].ep == ep
    ensures StatsOf(ToFront(nodes, k, ep), x) == StatsOf(nodes, x)
    ensures ToFront(nodes, k, ep)[0] == Node(ep, StatsOf(nodes, ep))
    decreases |nodes|
  {
    if k == |nodes| {
      assert ToFront(nodes, k, ep)[1..] == nodes;
      NoStats(nodes, ep);
    } else if k == 0 {
      assert ToFront(nodes, k, ep) == nodes;
    } else {
      hide ToFront, StatsOf;
      var rest := nodes[1..];
      var tail := rest[..k - 1] + rest[k..];
      ToFrontStats(rest, k - 1, ep, x);
      ToFrontTail(nodes, k, ep);
      assert nodes == [nodes[0]] + rest;
      StatsCons(nodes[0], rest, x);
      StatsCons(nodes[0], rest, ep);
      StatsCons(nodes[k], tail, x);
      StatsCons(nodes[k], [nodes[0]] + tail, x);
      StatsCons(nodes[0], tail, x);
    }
  }

  /** What stands in front of the node that is moved stays in front of what stands behind it. */
  lemma ToFrontTail(nodes: seq<Node>, k: nat, ep: uint32)
    requires 0 < k < |nodes|
    ensures var rest := nodes[1..];
            && ToFront(rest, k - 1, ep) == [nodes[k]] + (rest[..k - 1] + rest[k..])
            && ToFront(nodes, k, ep) == [nodes[k]] + ([nodes[0]] + (rest[..k - 1] + rest[k..]))
  {
    var rest := nodes[1..];
    assert nodes[..k] == [nodes[0]] + rest[..k - 1] && nodes[k + 1..] == rest[k..];
  }

  lemma StatsCons(n: Node, nodes: seq<Node>, x: uint32)
    ensures StatsOf([n] + nodes, x) == if n.ep == x then n.stats else StatsOf(nodes, x)
  {
    assert ([n] + nodes)[1..] == nodes;
  }

  lemma {:induction false} NoStats(nodes: seq<Node>, ep: uint32)
    requires forall j | 0 <= j < |nodes| :: nodes[j].ep != ep
    ensures StatsOf(nodes, ep) == []
  {
    if nodes != [] {
      NoStats(nodes[1..], ep);
    }
  }

  /** A sample put to the head node after `ep` was moved there. */
  ghost predicate Sampled(before: seq<Node>, after: seq<Node>, ep: uint32, sample: int) {
    && Names(after) == [ep] + Remove(Names(before), ep)
    && forall x: uint32 :: StatsOf(after, x) == StatsOf(before, x) + if x == ep then [sample] else []
  }

  /** arrangeList, and the sample that is then put to the head of the list. */
  method ArrangeAndSample(nodes: seq<Node>, ep: uint32, sample: int) returns (r: seq<Node>)
    requires Distinct(Names(nodes))
    ensures Sampled(nodes, r, ep, sample)
  {
    hide StatsOf, Remove;
    var k := 0;
    while k < |nodes|
      invariant k <= |nodes| && forall j | 0 <= j < k :: nodes[j].ep != ep
    {
      if nodes[k].ep == ep {
        break;
      }
      k := k + 1;
    }
    r := ToFront(nodes, k, ep);
    assert k == |nodes| ==> ep !in Names(nodes);
    ToFrontNames(nodes, k, ep);
    ghost var front := r;
    forall x: uint32
      ensures StatsOf(front, x) == StatsOf(nodes, x)
    {
      ToFrontStats(nodes, k, ep, x);
    }
    assert front[0].ep == ep by { ToFrontStats(nodes, k, ep, ep); }
    SampledHead(front, sample);
    r := r[0 := r[0].(stats := r[0].stats + [sample])];
  }

  lemma SampledHead(nodes: seq<Node>, sample: int)
    requires nodes != []
    ensures var r := nodes[0 := nodes[0].(stats := nodes[0].stats + [sample])];
            && Names(r) == Names(nodes)
            && forall x: uint32 :: StatsOf(r, x) == StatsOf(nodes, x) + if x == nodes[0].ep then [sample] else []
  {
    var r := nodes[0 := nodes[0].(stats := nodes[0].stats + [sample])];
    assert r[1..] == nodes[1..];
  }

  // ----- what the entry points hold

  /** The record of one entry point, given the open blocks and the log. */
  ghost predicate EpOk(e: EntryPoint, ep: uint32, stack: seq<Frame>, log: seq<Exit>) {
    && e.first == First(stack, ep)
    && e.total == Totals(log, ep) && e.self == Selfs(log, ep)
    && CallersOk(e.callers, ep, log) && CalleesOk(e.callees, ep, log)
  }

  ghost predicate CallersOk(callers: seq<Node>, ep: uint32, log: seq<Exit>) {
    && Names(callers) == Recent(CallersOf(log, ep))
    && forall c: uint32 :: StatsOf(callers, c) == Edge(log, ep, c)
  }

  ghost predicate CalleesOk(callees: seq<Node>, ep: uint32, log: seq<Exit>) {
    && Names(callees) == Recent(CalleesOf(log, ep))
    && forall c: uint32 :: StatsOf(callees, c) == Edge(log, c, ep)
  }

  /** All entry points of open and of left blocks have a record. */
  ghost predicate Known(eps: map<uint32, EntryPoint>, stack: seq<Frame>, log: seq<Exit>) {
    && (forall k | 0 <= k < |stack| :: stack[k].ep in eps)
    && (forall k | 0 <= k < |log| :: log[k].ep in eps && (log[k].caller.By? ==> log[k].caller.ep in eps))
  }

  ghost predicate Recorded(eps: map<uint32, EntryPoint>, stack: seq<Frame>, log: seq<Exit>) {
    && Known(eps, stack, log)
    && forall ep | ep in eps :: EpOk(eps[ep], ep, stack, log)
  }

  /** An entry point never seen before has empty records. */
  lemma {:induction false} Unseen(log: seq<Exit>, ep: uint32)
    requires forall k | 0 <= k < |log| :: log[k].ep != ep && log[k].caller != By(ep)
    ensures Totals(log, ep) == Selfs(log, ep) == []
    ensures CallersOf(log, ep) == CalleesOf(log, ep) == []
    ensures forall c: uint32 :: Edge(log, ep, c) == Edge(log, c, ep) == []
  {
    if log != [] {
      Unseen(log[..|log| - 1], ep);
    }
  }

  lemma RecordedNew(eps: map<uint32, EntryPoint>, stack: seq<Frame>, log: seq<Exit>, pc: uint32, len: uint32)
    requires Recorded(eps, stack, log) && pc !in eps
    ensures Recorded(eps[pc := NewEntryPoint(len)], stack, log)
  {
    NewRecord(eps, stack, log, pc, len);
    hide EpOk;
  }

  lemma NewRecord(eps: map<uint32, EntryPoint>, stack: seq<Frame>, log: seq<Exit>, pc: uint32, len: uint32)
    requires Known(eps, stack, log) && pc !in eps
    ensures EpOk(NewEntryPoint(len), pc, stack, log)
  {
    Unseen(log, pc);
    assert First(stack, pc) == -1;
    hide First;
    assert Recent([]) == [];
  }

  /** Entering sets the first index of an entry point that is not on the stack. */
  function Marked(e: EntryPoint, depth: nat): EntryPoint {
    e.(first := if e.first == -1 then depth else e.first)
  }

  lemma RecordedEnter(eps: map<uint32, EntryPoint>, s: State, ep: uint32, isInvIf: bool, isAthrow: bool)
    requires s.stack != [] && Recorded(eps, s.stack, s.log) && ep in eps
    ensures Recorded(eps[ep := Marked(eps[ep], |s.stack|)], Enter(s, ep, isInvIf, isAthrow).stack, s.log)
  {
    hide Known, EpOk, Enter, Marked;
    var t, n := Enter(s, ep, isInvIf, isAthrow), |s.stack|;
    var eps' := eps[ep := Marked(eps[ep], n)];
    KnownEnter(eps, s, ep, isInvIf, isAthrow);
    forall x | x in eps'
      ensures EpOk(eps'[x], x, t.stack, s.log)
    {
      EpEnter(eps[x], x, s, ep, isInvIf, isAthrow);
    }
  }

  lemma KnownEnter(eps: map<uint32, EntryPoint>, s: State, ep: uint32, isInvIf: bool, isAthrow: bool)
    requires s.stack != [] && Known(eps, s.stack, s.log) && ep in eps
    ensures Known(eps[ep := Marked(eps[ep], |s.stack|)], Enter(s, ep, isInvIf, isAthrow).stack, s.log)
  {
  }

  lemma EpEnter(e: EntryPoint, x: uint32, s: State, ep: uint32, isInvIf: bool, isAthrow: bool)
    requires s.stack != [] && EpOk(e, x, s.stack, s.log)
    ensures EpOk(if x == ep then Marked(e, |s.stack|) else e, x, Enter(s, ep, isInvIf, isAthrow).stack, s.log)
  {
    hide CallersOk, CalleesOk;
    FirstSame(s.stack, Rest(Enter(s, ep, isInvIf, isAthrow).stack), x);
  }

  /** What leaving a block does to the record of an entry point `x`. */
  ghost predicate Updated(e0: EntryPoint, e1: EntryPoint, x: uint32, s: State)
    requires s.stack != []
  {
    var e := Left(s);
    && e1.first == (if x == e.ep && e0.first == |s.stack| - 1 then -1 else e0.first)
    && e1.total == e0.total + (if x == e.ep then [e.inclusive] else [])
    && e1.self == e0.self + (if x == e.ep then [e.self] else [])
    && CallersUpdated(e0.callers, e1.callers, x, e) && CalleesUpdated(e0.callees, e1.callees, x, e)
  }

  ghost predicate CallersUpdated(before: seq<Node>, after: seq<Node>, x: uint32, e: Exit) {
    if x == e.ep && e.caller.By? then Sampled(before, after, e.caller.ep, e.inclusive) else after == before
  }

  ghost predicate CalleesUpdated(before: seq<Node>, after: seq<Node>, x: uint32, e: Exit) {
    if e.caller == By(x) then Sampled(before, after, e.ep, e.inclusive) else after == before
  }

  lemma EpLeave(e0: EntryPoint, e1: EntryPoint, x: uint32, s: State)
    requires Links(s.stack) && EpOk(e0, x, s.stack, s.log) && Updated(e0, e1, x, s)
    ensures -1 <= Top(s.stack).next < |s.stack| - 1
    ensures EpOk(e1, x, Leave(s).stack, Leave(s).log)
  {
    hide CallersOk, CalleesOk, CallersUpdated, CalleesUpdated;
    var e := Left(s);
    FirstAfterLeave(s, x);
    assert Leave(s).log == s.log + [e] && (s.log + [e])[..|s.log|] == s.log;
    CallersLeave(e0.callers, e1.callers, x, s.log, e);
    CalleesLeave(e0.callees, e1.callees, x, s.log, e);
    hide First, Links, Nearest;
  }

  lemma CallersLeave(before: seq<Node>, after: seq<Node>, x: uint32, log: seq<Exit>, e: Exit)
    requires CallersOk(before, x, log) && CallersUpdated(before, after, x, e)
    ensures CallersOk(after, x, log + [e])
  {
    hide Names, StatsOf, Recent, Remove, Edge, CallersOf;
    PartnersAppend(log, e, x);
    forall c: uint32
      ensures StatsOf(after, c) == Edge(log + [e], x, c)
    {
      EdgeAppend(log, e, x, c);
    }
    if x == e.ep && e.caller.By? {
      RecentAppend(CallersOf(log, x), e.caller);
    }
  }

  lemma CalleesLeave(before: seq<Node>, after: seq<Node>, x: uint32, log: seq<Exit>, e: Exit)
    requires CalleesOk(before, x, log) && CalleesUpdated(before, after, x, e)
    ensures CalleesOk(after, x, log + [e])
  {
    hide Names, StatsOf, Recent, Remove, Edge, CalleesOf;
    PartnersAppend(log, e, x);
    forall c: uint32
      ensures StatsOf(after, c) == Edge(log + [e], c, x)
    {
      EdgeAppend(log, e, c, x);
    }
    if e.caller == By(x) {
      RecentAppend(CalleesOf(log, x), By(e.ep));
    }
  }

  lemma RecentAppend(history: seq<uint32>, c: Caller)
    requires c.By?
    ensures Recent(history + [c.ep]) == [c.ep] + Remove(Recent(history), c.ep)
  {
    assert (history + [c.ep])[..|history|] == history;
  }

  lemma FirstAfterLeave(s: State, x: uint32)
    requires Links(s.stack)
    ensures -1 <= Top(s.stack).next < |s.stack| - 1
    ensures First(Leave(s).stack, x)
            == if x == Top(s.stack).ep && First(s.stack, x) == |s.stack| - 1 then -1 else First(s.stack, x)
  {
    TopNext(s);
    if |s.stack| > 1 {
      LinksNonempty(s.stack);
      LeaveShape(s);
      FirstSame(Rest(s.stack), Leave(s).stack, x);
    }
  }

  lemma SomeLeft(s: State)
    requires Inv(s)
    ensures -1 <= Top(s.stack).next < |s.stack| - 1 && Inv(Leave(s))
    ensures |s.stack| > 1 ==> |Leave(s).stack| == |s.stack| - 1
    ensures |s.stack| == 1 ==> |Leave(s).stack| == 1
  {
    LeaveKeeps(s);
  }

  /** The code of entry point `ep` contains `pc`. */
  predicate Contains(lens: map<uint32, uint32>, ep: uint32, pc: uint32) {
    ep in lens && lens[ep] != 0 && pc >= ep && pc < Wrap32(ep + lens[ep])
  }

  /** Leaving blocks until one contains the pc, or only the program is left. */
  function Unwind(s: State, pc: uint32, lens: map<uint32, uint32>): (t: State)
    requires Inv(s)
    ensures Inv(t)
    decreases |s.stack|
  {
    SomeLeft(s);
    if |s.stack| <= 1 || Contains(lens, Top(s.stack).ep, pc) then s else Unwind(Leave(s), pc, lens)
  }

  lemma UnwindNext(s: State, pc: uint32, lens: map<uint32, uint32>)
    requires Inv(s)
    ensures s.stack != [] && -1 <= Top(s.stack).next < |s.stack| - 1 && Inv(Leave(s))
    ensures Unwind(s, pc, lens)
            == if |s.stack| <= 1 || Contains(lens, Top(s.stack).ep, pc) then s else Unwind(Leave(s), pc, lens)
  {
    hide Inv, Leave, Contains;
    SomeLeft(s);
    InvNonempty(s);
  }

  function AllLeft(s: State): (t: State)
    requires Inv(s)
    ensures Inv(t) && |t.stack| == 1
    decreases |s.stack|
  {
    SomeLeft(s);
    if |s.stack| <= 1 then s else AllLeft(Leave(s))
  }

  /** The exit of a block with what its kind asks for. When the program itself is left, the flags
      are those of whatever stands above it in the array. */
  function AfterExit(s: State, stale: Frame, pc: uint32, lens: map<uint32, uint32>): State
    requires Inv(s)
  {
    SomeLeft(s);
    var popped := if |s.stack| > 1 then Top(s.stack) else stale;
    if popped.isInvIf then Enter(Leave(s), pc, false, false)
    else if popped.isAthrow then Unwind(Leave(s), pc, lens)
    else Leave(s)
  }

  lemma InRangeIs(eps: map<uint32, EntryPoint>, lens: map<uint32, uint32>, pc: uint32)
    requires lens == map ep | ep in eps :: eps[ep].len
    ensures forall ep: uint32 :: Contains(lens, ep, pc) <==>
              ep in eps && eps[ep].len != 0 && ep <= pc < (ep + eps[ep].len) % 0x1_0000_0000
  {
  }

  /** The blocks below the one that is left keep their entry points. */
  lemma LeaveEps(s: State)
    requires Inv(s)
    ensures -1 <= Top(s.stack).next < |s.stack| - 1
    ensures |Leave(s).stack| <= |s.stack|
    ensures forall k | 0 <= k < |Leave(s).stack| :: Leave(s).stack[k].ep == s.stack[k].ep
  {
    hide Nearest, Times;
    TopNext(s);
  }

  /** `t` is `s` after leaving the blocks above the topmost one that contains the pc. */
  ghost predicate FoundIn(s: State, t: State, pc: uint32, lens: map<uint32, uint32>) {
    && 1 <= |t.stack| <= |s.stack| && t.icount == s.icount
    && (forall k | 0 <= k < |t.stack| :: t.stack[k].ep == s.stack[k].ep)
    && (forall k | |t.stack| <= k < |s.stack| :: !Contains(lens, s.stack[k].ep, pc))
    && (|t.stack| > 1 ==> Contains(lens, Top(t.stack).ep, pc))
    && |t.log| == |s.log| + |s.stack| - |t.stack|
  }

  lemma FoundStep(s: State, u: State, t: State, pc: uint32, lens: map<uint32, uint32>)
    requires FoundIn(u, t, pc, lens) && |s.stack| == |u.stack| + 1 && u.icount == s.icount && |u.log| == |s.log| + 1
    requires forall k | 0 <= k < |u.stack| :: u.stack[k].ep == s.stack[k].ep
    requires !Contains(lens, Top(s.stack).ep, pc)
    ensures FoundIn(s, t, pc, lens)
  {
    hide Contains;
  }

  /** An exception ends in the topmost block that contains the pc: the blocks left do not, and the
      block found does unless it is the program. */
  lemma {:induction false} UnwindFinds(s: State, pc: uint32, lens: map<uint32, uint32>)
    requires Inv(s)
    ensures FoundIn(s, Unwind(s, pc, lens), pc, lens)
    decreases |s.stack|
  {
    SomeLeft(s);
    InvNonempty(s);
    if |s.stack| <= 1 || Contains(lens, Top(s.stack).ep, pc) {
    } else {
      hide Inv, Leave, Contains, FoundIn;
      LeaveEps(s);
      LeaveLogs(s);
      UnwindFinds(Leave(s), pc, lens);
      FoundStep(s, Leave(s), Unwind(s, pc, lens), pc, lens);
    }
  }

  /** The exit of a block, kind by kind: `d` blocks are left of which the topmost ones may have to go. */
  lemma ExitKinds(s: State, stale: Frame, pc: uint32, lens: map<uint32, uint32>)
    requires Inv(s)
    ensures var t, d := AfterExit(s, stale, pc, lens), if |s.stack| > 1 then |s.stack| - 1 else 1;
            var f := if |s.stack| > 1 then Top(s.stack) else stale;
            && t.icount == s.icount && (forall k | 0 <= k < |t.stack| && k < d :: t.stack[k].ep == s.stack[k].ep)
            && (f.isInvIf ==> |t.stack| == d + 1 && Top(t.stack).ep == pc && Top(t.stack).begin == s.icount
                              && !Top(t.stack).isInvIf && !Top(t.stack).isAthrow)
            && (!f.isInvIf && f.isAthrow ==>
                 && 1 <= |t.stack| <= d
                 && (forall k | |t.stack| <= k < d :: !Contains(lens, s.stack[k].ep, pc))
                 && (|t.stack| > 1 ==> Contains(lens, Top(t.stack).ep, pc)))
            && (!f.isInvIf && !f.isAthrow ==> |t.stack| == d)
  {
    hide Inv, Leave, Contains, Unwind, Nearest;
    InvNonempty(s);
    SomeLeft(s);
    LeaveEps(s);
    LeaveLogs(s);
    UnwindFinds(Leave(s), pc, lens);
  }

  lemma InvNonempty(s: State)
    requires Inv(s)
    ensures s.stack != []
  {
  }

  class Profile {
    const entries: array<Frame>
    var stackPtr: nat
    var eps: map<uint32, EntryPoint>
    var icount: nat
    var frozen: bool
    var enabled: bool
    var maxDepth: nat
    ghost var log: seq<Exit>

    ghost function Abs(): State
      reads this, entries
      requires stackPtr <= entries.Length
    {
      State(icount, entries[..stackPtr], log)
    }

    /** The laws hold of the recorded data. */
    ghost predicate Valid()
      reads this, entries
    {
      && entries.Length == MAX_CALL_STACK_DEPTH && 1 <= stackPtr <= entries.Length
      && Laws(Abs(), entries[0].ep)
      && Recorded(eps, entries[..stackPtr], log)
    }

    /** profile_reset: one block, the program, entered at the current pc; the profile is frozen
        and not enabled. */
    constructor (pc: uint32)
      ensures Valid() && Abs() == Initial(pc) && eps == map[pc := NewEntryPoint(0)]
      ensures frozen && !enabled && maxDepth == 1 && fresh(entries) && stackPtr == 1 && icount == 0 && log == []
      ensures entries[0].ep == pc && entries[0].begin == entries[0].beginSelf == entries[0].curSelf == 0
    {
      var start := Frame(pc, 0, 0, 0, 0, -1, false, false);
      entries := new Frame[4096](_ => start);
      stackPtr, icount, frozen, enabled, maxDepth, log := 1, 0, true, false, 1, [];
      eps := map[pc := NewEntryPoint(0)];
      new;
      assert entries[..1] == Initial(pc).stack;
      InitialLaws(pc);
    }

    /** One instruction of the main loop: counted in an enabled profile that is not frozen. */
    method CountInstruction()
      requires Valid()
      modifies this`icount
      ensures Valid()
      ensures Abs() == if !frozen && enabled then Count(old(Abs()), 1) else old(Abs())
      ensures icount == old(icount) + if !frozen && enabled then 1 else 0
    {
      hide InclusiveLaw, OuterFits, Recorded, Links;
      if !frozen && enabled {
        NextLaws(Abs(), Instructions(1), entries[0].ep);
        icount := icount + 1;
      }
    }

    /** insert_into_hashtable, by start pc; `len` is what the method descriptor says, 0 for a
        block entered by name. */
    method InsertIntoHashtable(pc: uint32, len: uint32)
      requires Valid()
      modifies this`eps
      ensures Valid() && Abs() == old(Abs())
      ensures eps == if pc in old(eps) then old(eps) else old(eps)[pc := EntryPoint(len, -1, [], [], [], [])]
    {
      hide Laws, Recorded, NewEntryPoint;
      if pc !in eps {
        RecordedNew(eps, entries[..stackPtr], log, pc, len);
        eps := eps[pc := EntryPoint(len, -1, [], [], [], [])];
        assert eps[pc] == NewEntryPoint(len) by { NewIsEmpty(len); }
      }
    }

    /** mark_block_enter: a frozen profile does not change. */
    method MarkBlockEnter(pc: uint32, len: uint32, isInvIf: bool, isAthrow: bool)
      requires Valid() && stackPtr < entries.Length
      modifies this, entries
      ensures Valid() && frozen == old(frozen) && enabled == old(enabled)
      ensures frozen ==> Abs() == old(Abs()) && eps == old(eps)
      ensures !frozen ==> Abs() == Enter(old(Abs()), pc, isInvIf, isAthrow) && pc in eps
      ensures !frozen ==>
                var top := entries[old(stackPtr)];
                && stackPtr == old(stackPtr) + 1 && top.ep == pc && top.begin == top.beginSelf == icount
                && top.curSelf == top.correction == 0 && top.isInvIf == isInvIf && top.isAthrow == isAthrow
      ensures !frozen ==> maxDepth == if stackPtr > old(maxDepth) then stackPtr else old(maxDepth)
      ensures forall ep | ep in old(eps) :: ep in eps && eps[ep].len == old(eps)[ep].len
    {
      hide Laws, Recorded, Enter, Marked, NewEntryPoint;
      if frozen {
        return;
      }
      LenOfNew(len);
      InsertIntoHashtable(pc, len);
      Push(pc, isInvIf, isAthrow);
      if stackPtr > maxDepth {
        maxDepth := stackPtr;
      }
    }

    /** The entry of a block whose entry point has a record. */
    method Push(ep: uint32, isInvIf: bool, isAthrow: bool)
      requires Valid() && stackPtr < entries.Length && ep in eps
      modifies this`stackPtr, this`eps, entries
      ensures Valid() && Abs() == Enter(old(Abs()), ep, isInvIf, isAthrow)
      ensures eps == old(eps)[ep := Marked(old(eps)[ep], old(stackPtr))]
      ensures var top := entries[old(stackPtr)];
              && stackPtr == old(stackPtr) + 1 && top.ep == ep && top.begin == top.beginSelf == icount
              && top.curSelf == top.correction == 0 && top.isInvIf == isInvIf && top.isAthrow == isAthrow
      ensures var caller := old(entries[stackPtr - 1]);
              entries[old(stackPtr) - 1] == caller.(curSelf := caller.curSelf + icount - caller.beginSelf)
      ensures forall k | 0 <= k < old(stackPtr) - 1 :: entries[k] == old(entries[k])
    {
      hide Laws, Recorded, Enter, Nearest, First, Marked;
      ghost var s := Abs();
      FirstMarked(eps, ep, stackPtr);
      EnterLaws(s, ep, isInvIf, isAthrow, entries[0].ep);
      RecordedEnter(eps, s, ep, isInvIf, isAthrow);
      FirstOfRecord(eps, s.stack, log, ep);
      var next := FindNext(ep);
      var caller := entries[stackPtr - 1];
      entries[stackPtr - 1] := caller.(curSelf := caller.curSelf + (icount - caller.beginSelf));
      if eps[ep].first == -1 {
        eps := eps[ep := eps[ep].(first := stackPtr)];
      }
      entries[stackPtr] := Frame(ep, icount, 0, icount, 0, next, isInvIf, isAthrow);
      stackPtr := stackPtr + 1;
      EnterIs(s, ep, isInvIf, isAthrow, entries[..stackPtr]);
    }

    /** The search for the next lower entry of the same entry point, if there is one. */
    method FindNext(ep: uint32) returns (next: int)
      requires 1 <= stackPtr <= entries.Length && ep in eps
      requires eps[ep].first == -1 <==> Nearest(entries[..stackPtr], ep) == -1
      ensures next == Nearest(entries[..stackPtr], ep)
    {
      next := -1;
      if eps[ep].first != -1 {
        next := stackPtr - 1;
        while next >= 0
          invariant -1 <= next < stackPtr
          invariant forall k | next < k < stackPtr :: entries[k].ep != ep
        {
          if entries[next].ep == ep {
            break;
          }
          next := next - 1;
        }
        NearestIs(entries[..stackPtr], ep, next);
      }
    }

    /** mark_block_exit_raw: also for a frozen profile. */
    method ExitRaw()
      requires Valid()
      modifies this`stackPtr, this`eps, this`log, entries
      ensures Valid() && Inv(old(Abs())) && -1 <= Top(old(Abs()).stack).next < |old(Abs()).stack| - 1
      ensures Abs() == Leave(old(Abs()))
      ensures var top, n := old(entries[stackPtr - 1]), old(stackPtr);
              && |log| == |old(log)| + 1 && log[..|log| - 1] == old(log)
              && var e := log[|log| - 1];
              && e.ep == top.ep && e.span == icount - top.begin && e.inclusive == icount - top.begin - top.correction
              && e.self == top.curSelf + icount - top.beginSelf
              && e.caller == (if n >= 2 then By(old(entries[stackPtr - 2].ep)) else Root)
      ensures forall ep | ep in old(eps) :: ep in eps && eps[ep].len == old(eps)[ep].len
      ensures old(stackPtr) > 1 ==> entries[stackPtr] == old(entries[stackPtr - 1])
      ensures old(stackPtr) == 1 ==> entries[1] == old(entries[1])
    {
      hide Laws, Recorded, Leave, Inv, Links, Open;
      ghost var s, n := Abs(), stackPtr - 1;
      LeaveLaws(s, entries[0].ep);
      TopRecorded(eps, s);
      var top := entries[stackPtr - 1];
      var self := top.curSelf + (icount - top.beginSelf);
      var span := icount - top.begin;
      var inclusive := span - top.correction;
      RecordSamples(top.ep, inclusive, self);
      PopTop(span, self);
      log := log + [Left(s)];
    }

    /** The entry is popped; its length corrects the next lower entry of its entry point. */
    method PopTop(span: int, self: int)
      requires 1 <= stackPtr <= entries.Length && entries.Length > 1
      requires var top := entries[stackPtr - 1];
               -1 <= top.next < stackPtr - 1 && span == Left(Abs()).span && self == Left(Abs()).self
      modifies this`stackPtr, entries
      ensures 1 <= stackPtr <= old(stackPtr)
      ensures Leave(old(Abs())) == State(icount, entries[..stackPtr], log + [Left(old(Abs()))])
      ensures old(stackPtr) > 1 ==> stackPtr == old(stackPtr) - 1 && entries[stackPtr] == old(entries[stackPtr - 1])
      ensures old(stackPtr) == 1 ==> stackPtr == 1 && entries[1] == old(entries[1])
    {
      hide Leave, Open;
      ghost var s := Abs();
      var top := entries[stackPtr - 1];
      if top.next != -1 {
        entries[top.next] := entries[top.next].(correction := entries[top.next].correction + span);
      }
      stackPtr := stackPtr - 1;
      if stackPtr <= 0 {
        stackPtr := 1;
        entries[0] := top.(curSelf := self, begin := icount);
      }
      entries[stackPtr - 1] := entries[stackPtr - 1].(beginSelf := icount);
      LeaveIs(s, entries[..stackPtr]);
    }

    /** The statistics of the entry point that is left, and both ends of the edge to its caller. */
    method RecordSamples(ep: uint32, inclusive: int, self: int)
      requires Valid() && Links(Abs().stack) && -1 <= Top(Abs().stack).next < |Abs().stack| - 1
      requires ep == Left(Abs()).ep && inclusive == Left(Abs()).inclusive && self == Left(Abs()).self
      modifies this`eps
      ensures Recorded(eps, Leave(old(Abs())).stack, Leave(old(Abs())).log)
      ensures forall x | x in old(eps) :: x in eps && eps[x].len == old(eps)[x].len
    {
      hide Laws, Recorded, Leave, Links, Sampled, Names, Distinct, Open;
      ghost var s, was := Abs(), eps;
      TopRecorded(eps, s);
      ListsDistinct(eps, s);
      var e := eps[ep];
      e := e.(total := e.total + [inclusive], self := e.self + [self],
              first := if e.first == stackPtr - 1 then -1 else e.first);
      ghost var callers, callees: seq<Node> := [], [];
      if stackPtr >= 2 {
        var c := entries[stackPtr - 2].ep;
        var newCallers := ArrangeAndSample(eps[ep].callers, c, inclusive);
        var newCallees := ArrangeAndSample(eps[c].callees, ep, inclusive);
        callers, callees := newCallers, newCallees;
        eps := eps[ep := e.(callers := newCallers)];
        eps := eps[c := eps[c].(callees := newCallees)];
      } else {
        eps := eps[ep := e];
      }
      SamplesRecorded(was, s, callers, callees);
    }

    /** What becomes of the open blocks, by the kind of the block that is left: of the `d` blocks
        below it (the program is left to itself, with the flags that stand above it), all stay, or
        all stay and the method at the pc is entered, or those above the one that contains the pc go. */
    twostate predicate LeftByKind(pc: uint32)
      requires old(Valid()) && 1 <= stackPtr <= entries.Length
      reads this, entries
    {
      var d := if old(stackPtr) > 1 then old(stackPtr) - 1 else 1;
      && (forall k | 0 <= k < stackPtr && k < d :: entries[k].ep == old(entries[k].ep))
      && (old(entries[d].isInvIf) ==>
           && stackPtr == d + 1 && entries[d].ep == pc && entries[d].begin == icount
           && !entries[d].isInvIf && !entries[d].isAthrow)
      && (!old(entries[d].isInvIf) && old(entries[d].isAthrow) ==>
           && 1 <= stackPtr <= d
           && (forall k | stackPtr <= k < d ::
                 var ep := old(entries[k].ep);
                 ep in old(eps) && old(eps)[ep].len != 0 ==>
                   pc < ep || (ep + old(eps)[ep].len) % 0x1_0000_0000 <= pc)
           && (stackPtr > 1 ==>
                 var ep := entries[stackPtr - 1].ep;
                 && ep in old(eps) && old(eps)[ep].len != 0
                 && ep <= pc < (ep + old(eps)[ep].len) % 0x1_0000_0000))
      && (!old(entries[d].isInvIf) && !old(entries[d].isAthrow) ==> stackPtr == d)
    }

    /** mark_block_exit: after the block, an invoke-interface block is followed by the method that
        it dispatched to, and an athrow block by leaving all blocks that do not contain the pc. */
    method MarkBlockExit(pc: uint32, len: uint32)
      requires Valid()
      modifies this, entries
      ensures Valid() && frozen == old(frozen) && enabled == old(enabled)
      ensures frozen ==> Abs() == old(Abs()) && eps == old(eps)
      ensures !frozen ==> Inv(old(Abs())) && Abs() == AfterExit(old(Abs()), old(entries[1]), pc, old(Lens()))
      ensures !frozen ==> LeftByKind(pc)
    {
      hide Laws, Recorded, Leave, Enter, Inv, LeftByKind, Contains;
      if frozen {
        return;
      }
      ghost var s, lens := Abs(), Lens();
      ValidInv();
      LensCover();
      SomeLeft(s);
      ExitRaw();
      LeaveEps(s);
      if entries[stackPtr].isInvIf {
        MarkBlockEnter(pc, len, false, false);
      } else if entries[stackPtr].isAthrow {
        UnwindTo(pc, lens);
      }
      ExitSpelledOut(pc);
    }

    twostate lemma ExitSpelledOut(pc: uint32)
      requires old(Valid()) && 1 <= stackPtr <= entries.Length && Inv(old(Abs()))
      requires Abs() == AfterExit(old(Abs()), old(entries[1]), pc, old(Lens()))
      ensures LeftByKind(pc)
    {
      hide Laws, Recorded, AfterExit, Inv, Contains;
      ghost var s, stale := old(Abs()), old(entries[1]);
      InvNonempty(s);
      ExitKinds(s, stale, pc, old(Lens()));
      InRangeIs(old(eps), old(Lens()), pc);
      assert forall k | 0 <= k < stackPtr :: Abs().stack[k] == entries[k];
      assert forall k | 0 <= k < old(stackPtr) :: s.stack[k] == old(entries[k]);
    }

    /** The blocks left after an exception was thrown. */
    method UnwindTo(pc: uint32, ghost lens: map<uint32, uint32>)
      requires Valid() && forall ep | ep in lens :: ep in eps && eps[ep].len == lens[ep]
      requires forall k | 0 <= k < stackPtr :: entries[k].ep in lens
      modifies this`stackPtr, this`eps, this`log, entries
      ensures Valid() && Inv(old(Abs())) && Abs() == Unwind(old(Abs()), pc, lens)
    {
      hide Laws, Recorded, Leave, Inv, Unwind, Wrap32, Left;
      ValidInv();
      ghost var target := Unwind(Abs(), pc, lens);
      while stackPtr > 1
        invariant Valid() && Inv(Abs()) && Unwind(Abs(), pc, lens) == target
        invariant forall ep | ep in lens :: ep in eps && eps[ep].len == lens[ep]
        invariant forall k | 0 <= k < stackPtr :: entries[k].ep in lens
        decreases stackPtr
      {
        UnwindNext(Abs(), pc, lens);
        var top := entries[stackPtr - 1].ep;
        if eps[top].len != 0 && pc >= top && pc < Wrap32(top + eps[top].len) {
          break;
        }
        ghost var s := Abs();
        SomeLeft(s);
        LeaveEps(s);
        ExitRaw();
        ValidInv();
      }
      UnwindNext(Abs(), pc, lens);
    }

    /** profile_close: every block is left, the program last. */
    method Close()
      requires Valid()
      modifies this`stackPtr, this`eps, this`log, entries
      ensures Valid() && Inv(old(Abs())) && Abs() == Leave(AllLeft(old(Abs()))) && stackPtr == 1
      ensures |log| == |old(log)| + old(stackPtr) && icount == old(icount)
    {
      hide Laws, Recorded, Leave, Inv;
      ValidInv();
      ghost var target := AllLeft(Abs());
      while stackPtr != 1
        invariant Valid() && Inv(Abs()) && AllLeft(Abs()) == target
        invariant |log| + stackPtr == |old(log)| + old(stackPtr) && icount == old(icount)
        decreases stackPtr
      {
        SomeLeft(Abs());
        ExitRaw();
        ValidInv();
      }
      SomeLeft(Abs());
      ExitRaw();
    }

    ghost function Lens(): map<uint32, uint32>
      reads this
    {
      map ep | ep in eps :: eps[ep].len
    }

    lemma ValidInv()
      requires Valid()
      ensures Inv(Abs())
    {
      hide InclusiveLaw, Recorded;
    }

    lemma LensCover()
      requires Valid()
      ensures forall k | 0 <= k < stackPtr :: entries[k].ep in Lens()
    {
      hide Laws, EpOk;
      assert forall k | 0 <= k < stackPtr :: entries[..stackPtr][k].ep in eps;
    }
  }

  /** The records after the samples of an exit, given the rearranged lists. */
  function AfterSamples(eps: map<uint32, EntryPoint>, s: State, callers: seq<Node>, callees: seq<Node>)
    : map<uint32, EntryPoint>
    requires s.stack != [] && Left(s).ep in eps
  {
    var e, r := Left(s), eps[Left(s).ep];
    var r' := r.(total := r.total + [e.inclusive], self := r.self + [e.self],
                 first := if r.first == |s.stack| - 1 then -1 else r.first);
    if e.caller.By? && e.caller.ep in eps then
      var m := eps[e.ep := r'.(callers := callers)];
      m[e.caller.ep := m[e.caller.ep].(callees := callees)]
    else eps[e.ep := r']
  }

  lemma SamplesRecorded(eps: map<uint32, EntryPoint>, s: State, callers: seq<Node>, callees: seq<Node>)
    requires Links(s.stack) && Recorded(eps, s.stack, s.log)
    requires Left(s).ep in eps && (Left(s).caller.By? ==> Left(s).caller.ep in eps)
    requires Left(s).caller.By? ==>
               && Sampled(eps[Left(s).ep].callers, callers, Left(s).caller.ep, Left(s).inclusive)
               && Sampled(eps[Left(s).caller.ep].callees, callees, Left(s).ep, Left(s).inclusive)
    ensures -1 <= Top(s.stack).next < |s.stack| - 1
    ensures Recorded(AfterSamples(eps, s, callers, callees), Leave(s).stack, Leave(s).log)
    ensures forall x | x in eps ::
            x in AfterSamples(eps, s, callers, callees) && AfterSamples(eps, s, callers, callees)[x].len == eps[x].len
  {
    hide Recorded, Sampled, Leave;
    TopNext(s);
    hide Links;
    var m := AfterSamples(eps, s, callers, callees);
    forall x | x in eps
      ensures x in m && Updated(eps[x], m[x], x, s) && m[x].len == eps[x].len
    {
      assert eps[x].total + [] == eps[x].total && eps[x].self + [] == eps[x].self;
    }
    RecordedLeave(eps, m, s);
  }

  lemma LeaveLaws(s: State, program: uint32)
    requires Laws(s, program)
    ensures Inv(s) && Links(s.stack) && -1 <= Top(s.stack).next < |s.stack| - 1 && Top(s.stack).next != 0
    ensures Laws(Leave(s), program) && Leave(s).stack[0].ep == program
  {
    hide InclusiveLaw, Leave;
    TopNext(s);
    NextLaws(s, LeaveBlock, program);
  }

  /** The stack after the writes of an exit. */
  lemma LeaveIs(s: State, t: seq<Frame>)
    requires s.stack != [] && -1 <= Top(s.stack).next < |s.stack| - 1
    requires var n, c := |s.stack| - 1, Top(s.stack).next;
             if n == 0 then
               t == [Top(s.stack).(curSelf := Left(s).self, begin := s.icount, beginSelf := s.icount)]
             else
               && |t| == n
               && forall k | 0 <= k < n ::
                    var f := if k == c then s.stack[k].(correction := s.stack[k].correction + Left(s).span)
                             else s.stack[k];
                    t[k] == if k == n - 1 then f.(beginSelf := s.icount) else f
    ensures Leave(s) == State(s.icount, t, s.log + [Left(s)])
  {
    if |s.stack| > 1 {
      assert t == Leave(s).stack;
    }
  }

  lemma TopRecorded(eps: map<uint32, EntryPoint>, s: State)
    requires s.stack != [] && Recorded(eps, s.stack, s.log)
    ensures Top(s.stack).ep in eps && (|s.stack| >= 2 ==> s.stack[|s.stack| - 2].ep in eps)
  {
  }

  lemma ListsDistinct(eps: map<uint32, EntryPoint>, s: State)
    requires Recorded(eps, s.stack, s.log)
    ensures forall x | x in eps :: Distinct(Names(eps[x].callers)) && Distinct(Names(eps[x].callees))
  {
    forall x | x in eps
      ensures Distinct(Names(eps[x].callers)) && Distinct(Names(eps[x].callees))
    {
      RecentIsOrdered(CallersOf(s.log, x));
      RecentIsOrdered(CalleesOf(s.log, x));
    }
  }

  lemma RecordedLeave(eps: map<uint32, EntryPoint>, eps': map<uint32, EntryPoint>, s: State)
    requires Links(s.stack) && -1 <= Top(s.stack).next < |s.stack| - 1 && Recorded(eps, s.stack, s.log)
    requires forall x :: x in eps' <==> x in eps
    requires forall x | x in eps :: Updated(eps[x], eps'[x], x, s)
    ensures Recorded(eps', Leave(s).stack, Leave(s).log)
  {
    KnownLeave(eps, eps', s);
    hide Known, EpOk, Updated, Leave, Links;
    forall x | x in eps'
      ensures EpOk(eps'[x], x, Leave(s).stack, Leave(s).log)
    {
      EpLeave(eps[x], eps'[x], x, s);
    }
  }

  lemma KnownLeave(eps: map<uint32, EntryPoint>, eps': map<uint32, EntryPoint>, s: State)
    requires s.stack != [] && -1 <= Top(s.stack).next < |s.stack| - 1 && Known(eps, s.stack, s.log)
    requires forall x :: x in eps' <==> x in eps
    ensures Known(eps', Leave(s).stack, Leave(s).log)
  {
  }

  lemma NearestIs(stack: seq<Frame>, ep: uint32, j: int)
    requires Nearest(stack, ep) != -1 && -1 <= j < |stack|
    requires forall k | j < k < |stack| :: stack[k].ep != ep
    requires j >= 0 ==> stack[j].ep == ep
    ensures j == Nearest(stack, ep)
  {
  }

  lemma EnterLaws(s: State, ep: uint32, isInvIf: bool, isAthrow: bool, program: uint32)
    requires Laws(s, program)
    ensures Laws(Enter(s, ep, isInvIf, isAthrow), program) && Enter(s, ep, isInvIf, isAthrow).stack[0].ep == program
  {
    hide Inv, InclusiveLaw, Enter;
    NextLaws(s, EnterBlock(ep, isInvIf, isAthrow), program);
  }

  /** The stack after the writes of an entry. */
  lemma EnterIs(s: State, ep: uint32, isInvIf: bool, isAthrow: bool, t: seq<Frame>)
    requires s.stack != [] && |t| == |s.stack| + 1
    requires forall k | 0 <= k < |s.stack| - 1 :: t[k] == s.stack[k]
    requires t[|s.stack| - 1] == Top(s.stack).(curSelf := Top(s.stack).curSelf + (s.icount - Top(s.stack).beginSelf))
    requires t[|s.stack|] == Frame(ep, s.icount, 0, s.icount, 0, Nearest(s.stack, ep), isInvIf, isAthrow)
    ensures Enter(s, ep, isInvIf, isAthrow) == s.(stack := t)
  {
    assert t == s.stack[|s.stack| - 1 := t[|s.stack| - 1]] + [t[|s.stack|]];
  }

  lemma FirstMarked(eps: map<uint32, EntryPoint>, ep: uint32, depth: nat)
    requires ep in eps
    ensures eps[ep := Marked(eps[ep], depth)]
            == if eps[ep].first == -1 then eps[ep := eps[ep].(first := depth)] else eps
  {
  }

  lemma LenOfNew(len: uint32)
    ensures NewEntryPoint(len).len == len
    ensures forall e: EntryPoint, depth: nat :: Marked(e, depth).len == e.len
  {
  }

  lemma NewIsEmpty(len: uint32)
    ensures NewEntryPoint(len) == EntryPoint(len, -1, [], [], [], [])
  {
  }

  lemma FirstOfRecord(eps: map<uint32, EntryPoint>, stack: seq<Frame>, log: seq<Exit>, ep: uint32)
    requires Recorded(eps, stack, log) && ep in eps
    ensures eps[ep].first == First(stack, ep)
    ensures eps[ep].first == -1 <==> Nearest(stack, ep) == -1
  {
    var j := Nearest(stack, ep);
  }

  // ----- the laws, of the recorded data

  function NodesTotal(nodes: seq<Node>): int {
    if nodes == [] then 0 else Sum(nodes[0].stats) + NodesTotal(nodes[1..])
  }

  lemma {:induction false} NodesAreEdges(nodes: seq<Node>, log: seq<Exit>, ep: uint32)
    requires Distinct(Names(nodes)) && forall k | 0 <= k < |nodes| ::
             StatsOf(nodes, nodes[k].ep) == Edge(log, ep, nodes[k].ep)
    ensures NodesTotal(nodes) == EdgeTotal(log, ep, Names(nodes))
  {
    if nodes != [] {
      var rest := nodes[1..];
      assert Names(nodes)[1..] == Names(rest);
      forall k | 0 <= k < |rest|
        ensures StatsOf(rest, rest[k].ep) == Edge(log, ep, rest[k].ep)
      {
        assert Names(nodes)[0] != Names(nodes)[k + 1];
      }
      NodesAreEdges(rest, log, ep);
    }
  }

  /** Both ends of an edge hold the same samples; no list has a duplicate; each is ordered by the
      most recent use; and the caller list adds up to the inclusive total, but for what was
      recorded for the program itself. */
  lemma EdgesAgree(p: Profile, ep: uint32, c: uint32)
    requires p.Valid() && ep in p.eps && c in p.eps
    ensures StatsOf(p.eps[ep].callers, c) == StatsOf(p.eps[c].callees, ep)
    ensures Distinct(Names(p.eps[ep].callers)) && Ordered(CallersOf(p.log, ep), Names(p.eps[ep].callers))
    ensures Distinct(Names(p.eps[c].callees)) && Ordered(CalleesOf(p.log, c), Names(p.eps[c].callees))
    ensures NodesTotal(p.eps[ep].callers) + AtRoot(p.log, ep) == Sum(p.eps[ep].total)
    ensures ep != p.entries[0].ep ==> NodesTotal(p.eps[ep].callers) == Sum(p.eps[ep].total)
  {
    hide Laws;
    assert EpOk(p.eps[ep], ep, p.entries[..p.stackPtr], p.log) && EpOk(p.eps[c], c, p.entries[..p.stackPtr], p.log);
    hide Recorded;
    RecentIsOrdered(CallersOf(p.log, ep));
    RecentIsOrdered(CalleesOf(p.log, c));
    NodesAreEdges(p.eps[ep].callers, p.log, ep);
    CallersAddUp(p.log, ep);
    RootsAreTheProgram(p);
    NothingAtRoot(p.log, ep);
  }

  lemma RootsAreTheProgram(p: Profile)
    requires p.Valid()
    ensures RootsOnly(p.log, p.entries[0].ep)
  {
    hide Inv, InclusiveLaw, Recorded;
  }

  lemma {:induction false} NothingAtRoot(log: seq<Exit>, ep: uint32)
    ensures (forall k | 0 <= k < |log| && log[k].caller.Root? :: log[k].ep != ep) ==> AtRoot(log, ep) == 0
  {
    if log != [] {
      NothingAtRoot(log[..|log| - 1], ep);
      assert forall k | 0 <= k < |log| - 1 :: log[..|log| - 1][k] == log[k];
    }
  }

  /** Inclusive totals and self samples, as they stand in the statistics. */
  lemma TotalsAreExact(p: Profile, ep: uint32)
    requires p.Valid() && ep in p.eps
    ensures Sum(p.eps[ep].total) == Outer(p.log, ep) + Doubled(p.log, ep) + Pending(p.entries[..p.stackPtr], ep)
    ensures ep != p.entries[0].ep ==> Doubled(p.log, ep) == 0
    ensures ep != p.entries[0].ep ==> Sum(p.eps[ep].total) <= p.icount
    ensures p.eps[ep].self == Selfs(p.log, ep)
    ensures SelfSum(p.log) + CurSelf(p.entries[..p.stackPtr]) + (p.icount - p.entries[p.stackPtr - 1].beginSelf)
            == p.icount + RootSelf(p.log)
  {
    hide Laws, EpOk, Outer, Doubled, Pending, SelfSum, RootSelf, CurSelf, Known;
    RecordIsExact(p.Abs(), p.entries[0].ep, p.eps[ep], ep);
  }

  lemma RecordIsExact(s: State, program: uint32, e: EntryPoint, ep: uint32)
    requires Laws(s, program) && EpOk(e, ep, s.stack, s.log)
    ensures s.stack != []
    ensures Sum(e.total) == Outer(s.log, ep) + Doubled(s.log, ep) + Pending(s.stack, ep)
    ensures ep != program ==> Doubled(s.log, ep) == 0 && Sum(e.total) <= s.icount
    ensures e.self == Selfs(s.log, ep)
    ensures SelfSum(s.log) + CurSelf(s.stack) + (s.icount - Top(s.stack).beginSelf) == s.icount + RootSelf(s.log)
  {
    hide Inv, CallersOk, CalleesOk, Spans, OnlyRootDoubles, RootsOnly, OuterFits;
    assert InclusiveLaw(s, ep);
    if ep != program {
      NoneDoubled(s.log, ep, program);
      NeverMoreThanCounted(s, program, ep);
    }
  }
}
