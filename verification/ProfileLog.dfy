/** The accounting of the profiler as a machine on values: a stack of open blocks and a log of
    the blocks that were left. Everything the profiler records is a function of the log. */
module ProfileLog {
  import opened Bits

  /** An open block; `next` is the index of the next lower entry of the same entry point, or -1. */
  datatype Frame = Frame(ep: uint32, begin: int, curSelf: int, beginSelf: int, correction: int, next: int,
                         isInvIf: bool, isAthrow: bool)

  datatype Caller = Root | By(ep: uint32)

  /** A block that was left: its length, what was recorded for it, whether its length became a
      correction of a lower entry, and how many other entries of its entry point were still open. */
  datatype Exit = Exit(ep: uint32, caller: Caller, span: int, inclusive: int, self: int, linked: bool, others: nat)

  datatype State = State(icount: int, stack: seq<Frame>, log: seq<Exit>)

  function Top(stack: seq<Frame>): Frame
    requires stack != []
  {
    stack[|stack| - 1]
  }

  function Rest(stack: seq<Frame>): seq<Frame>
    requires stack != []
  {
    stack[..|stack| - 1]
  }

  /** The topmost entry of `ep`, the bottom entry not counted. */
  function Nearest(stack: seq<Frame>, ep: uint32): (j: int)
    ensures j == -1 || (1 <= j < |stack| && stack[j].ep == ep)
    ensures forall k | 1 <= k < |stack| && j < k :: stack[k].ep != ep
  {
    if |stack| <= 1 then -1
    else if Top(stack).ep == ep then |stack| - 1
    else Nearest(Rest(stack), ep)
  }

  /** The lowest entry of `ep`, the bottom entry not counted. */
  function First(stack: seq<Frame>, ep: uint32): (j: int)
    ensures j == -1 || (1 <= j < |stack| && stack[j].ep == ep && forall k | 1 <= k < j :: stack[k].ep != ep)
    ensures j == -1 <==> forall k | 1 <= k < |stack| :: stack[k].ep != ep
  {
    if |stack| <= 1 then -1
    else if First(Rest(stack), ep) != -1 then First(Rest(stack), ep)
    else if Top(stack).ep == ep then |stack| - 1
    else -1
  }

  function Open(stack: seq<Frame>, ep: uint32): nat {
    if stack == [] then 0 else Open(Rest(stack), ep) + if Top(stack).ep == ep then 1 else 0
  }

  // ----- the steps

  /** Instructions counted. */
  function Count(s: State, n: nat): State {
    s.(icount := s.icount + n)
  }

  function Enter(s: State, ep: uint32, isInvIf: bool, isAthrow: bool): State
    requires s.stack != []
  {
    var top := Top(s.stack);
    s.(stack := s.stack[|s.stack| - 1 := top.(curSelf := top.curSelf + (s.icount - top.beginSelf))]
                + [Frame(ep, s.icount, 0, s.icount, 0, Nearest(s.stack, ep), isInvIf, isAthrow)])
  }

  function Left(s: State): Exit
    requires s.stack != []
  {
    var top := Top(s.stack);
    var span := s.icount - top.begin;
    Exit(top.ep, if |s.stack| >= 2 then By(s.stack[|s.stack| - 2].ep) else Root, span, span - top.correction,
         top.curSelf + (s.icount - top.beginSelf), top.next != -1, Open(Rest(s.stack), top.ep))
  }

  /** The entries below the top after its length has been added to the correction of the next
      lower entry of the same entry point. */
  function Corrected(s: State): (r: seq<Frame>)
    requires s.stack != [] && -1 <= Top(s.stack).next < |s.stack| - 1
    ensures |r| == |s.stack| - 1
  {
    var rest, j := Rest(s.stack), Top(s.stack).next;
    if j == -1 then rest else rest[j := rest[j].(correction := rest[j].correction + Left(s).span)]
  }

  /** Leaving the top block. The bottom entry cannot be left: it starts over, but for its
      accumulated self count and its correction. */
  function Leave(s: State): State
    requires s.stack != [] && -1 <= Top(s.stack).next < |s.stack| - 1
  {
    var rest, top := Corrected(s), Top(s.stack);
    State(s.icount,
          if rest == [] then [top.(curSelf := Left(s).self, begin := s.icount, beginSelf := s.icount)]
          else rest[|rest| - 1 := Top(rest).(beginSelf := s.icount)],
          s.log + [Left(s)])
  }

  // ----- what is recorded

  function Sum(xs: seq<int>): int {
    if xs == [] then 0 else Sum(xs[..|xs| - 1]) + xs[|xs| - 1]
  }

  lemma SumAppend(xs: seq<int>, x: int)
    ensures Sum(xs + [x]) == Sum(xs) + x
  {
    assert (xs + [x])[..|xs|] == xs;
  }

  /** The samples of the entry point's own statistics, oldest first. */
  function Totals(log: seq<Exit>, ep: uint32): seq<int> {
    if log == [] then []
    else
      var e := log[|log| - 1];
      Totals(log[..|log| - 1], ep) + if e.ep == ep then [e.inclusive] else []
  }

  function Selfs(log: seq<Exit>, ep: uint32): seq<int> {
    if log == [] then []
    else
      var e := log[|log| - 1];
      Selfs(log[..|log| - 1], ep) + if e.ep == ep then [e.self] else []
  }

  /** The samples of the edge from caller `c` to `ep`. */
  function Edge(log: seq<Exit>, ep: uint32, c: uint32): seq<int> {
    if log == [] then []
    else
      var e := log[|log| - 1];
      Edge(log[..|log| - 1], ep, c) + if e.ep == ep && e.caller == By(c) then [e.inclusive] else []
  }

  /** Who called `ep`, and whom `c` called, in the order of the exits. */
  function CallersOf(log: seq<Exit>, ep: uint32): seq<uint32> {
    if log == [] then []
    else
      var e := log[|log| - 1];
      CallersOf(log[..|log| - 1], ep) + if e.ep == ep && e.caller.By? then [e.caller.ep] else []
  }

  function CalleesOf(log: seq<Exit>, c: uint32): seq<uint32> {
    if log == [] then []
    else
      var e := log[|log| - 1];
      CalleesOf(log[..|log| - 1], c) + if e.caller == By(c) then [e.ep] else []
  }

  /** One more exit. */
  lemma EdgeAppend(log: seq<Exit>, e: Exit, ep: uint32, c: uint32)
    ensures Edge(log + [e], ep, c)
            == if e.ep == ep && e.caller == By(c) then Edge(log, ep, c) + [e.inclusive] else Edge(log, ep, c)
  {
    assert (log + [e])[..|log|] == log;
    assert Edge(log, ep, c) + [] == Edge(log, ep, c);
  }

  lemma PartnersAppend(log: seq<Exit>, e: Exit, x: uint32)
    ensures CallersOf(log + [e], x)
            == if e.ep == x && e.caller.By? then CallersOf(log, x) + [e.caller.ep] else CallersOf(log, x)
    ensures CalleesOf(log + [e], x) == if e.caller == By(x) then CalleesOf(log, x) + [e.ep] else CalleesOf(log, x)
  {
    assert (log + [e])[..|log|] == log;
    assert CallersOf(log, x) + [] == CallersOf(log, x) && CalleesOf(log, x) + [] == CalleesOf(log, x);
  }

  // ----- most recent first

  function Remove(xs: seq<uint32>, x: uint32): (r: seq<uint32>)
    ensures forall y :: y in r <==> y in xs && y != x
  {
    if xs == [] then []
    else if xs[0] == x then Remove(xs[1..], x)
    else [xs[0]] + Remove(xs[1..], x)
  }

  /** The distinct elements of a history, the most recent first. */
  function Recent(history: seq<uint32>): (r: seq<uint32>)
    ensures forall x :: x in r <==> x in history
  {
    if history == [] then []
    else
      var x := history[|history| - 1];
      [x] + Remove(Recent(history[..|history| - 1]), x)
  }

  predicate Distinct(xs: seq<uint32>) {
    forall i, j | 0 <= i < j < |xs| :: xs[i] != xs[j]
  }

  /** The last position of `x` in a history. */
  function LastAt(history: seq<uint32>, x: uint32): (k: int)
    ensures k == -1 || (0 <= k < |history| && history[k] == x)
    ensures k == -1 <==> x !in history
    ensures forall j | k < j < |history| :: history[j] != x
  {
    if history == [] then -1
    else if history[|history| - 1] == x then |history| - 1
    else LastAt(history[..|history| - 1], x)
  }

  /** Removing keeps the order of what remains. */
  predicate Ordered(history: seq<uint32>, xs: seq<uint32>) {
    forall i, j | 0 <= i < j < |xs| :: LastAt(history, xs[i]) > LastAt(history, xs[j])
  }

  lemma {:induction false} RemoveOrdered(history: seq<uint32>, xs: seq<uint32>, x: uint32)
    requires Ordered(history, xs)
    ensures Ordered(history, Remove(xs, x))
  {
    if xs != [] {
      RemoveOrdered(history, xs[1..], x);
      var r := Remove(xs[1..], x);
      forall j | 0 <= j < |r|
        ensures LastAt(history, xs[0]) > LastAt(history, r[j])
      {
        assert r[j] in xs[1..];
        var k :| 0 <= k < |xs[1..]| && xs[1..][k] == r[j];
        assert xs[k + 1] == r[j];
      }
    }
  }

  /** The list has no duplicates and is ordered by the last occurrence. */
  lemma {:induction false} RecentIsOrdered(history: seq<uint32>)
    ensures Ordered(history, Recent(history)) && Distinct(Recent(history))
  {
    if history != [] {
      var n := |history| - 1;
      var x, before := history[n], Recent(history[..n]);
      RecentIsOrdered(history[..n]);
      RemoveOrdered(history[..n], before, x);
      var r := Remove(before, x);
      forall j | 0 <= j < |r|
        ensures LastAt(history, r[j]) == LastAt(history[..n], r[j]) < n
      {
        assert r[j] in r;
      }
    }
  }

  // ----- the edges of the call graph

  function EdgeTotal(log: seq<Exit>, ep: uint32, callers: seq<uint32>): int {
    if callers == [] then 0 else Sum(Edge(log, ep, callers[0])) + EdgeTotal(log, ep, callers[1..])
  }

  lemma {:induction false} EdgeTotalRemove(log: seq<Exit>, ep: uint32, callers: seq<uint32>, c: uint32)
    requires Distinct(callers)
    ensures EdgeTotal(log, ep, callers)
            == EdgeTotal(log, ep, Remove(callers, c)) + if c in callers then Sum(Edge(log, ep, c)) else 0
  {
    if callers != [] {
      EdgeTotalRemove(log, ep, callers[1..], c);
      var r := Remove(callers[1..], c);
      if callers[0] != c {
        assert ([callers[0]] + r)[1..] == r;
      } else {
        assert c !in callers[1..];
      }
    }
  }

  lemma {:induction false} EdgeTotalKept(log: seq<Exit>, e: Exit, ep: uint32, callers: seq<uint32>)
    requires e.ep == ep ==> e.caller.Root? || e.caller.ep !in callers
    ensures EdgeTotal(log + [e], ep, callers) == EdgeTotal(log, ep, callers)
  {
    if callers != [] {
      EdgeTotalKept(log, e, ep, callers[1..]);
      assert (log + [e])[..|log|] == log;
      assert callers[0] in callers;
      assert Edge(log + [e], ep, callers[0]) == Edge(log, ep, callers[0]);
    }
  }

  lemma {:induction false} NoEdge(log: seq<Exit>, ep: uint32, c: uint32)
    requires c !in CallersOf(log, ep)
    ensures Edge(log, ep, c) == []
  {
    if log != [] {
      NoEdge(log[..|log| - 1], ep, c);
    }
  }

  /** What was recorded while `ep` was the bottom entry. */
  function AtRoot(log: seq<Exit>, ep: uint32): int {
    if log == [] then 0
    else
      var e := log[|log| - 1];
      AtRoot(log[..|log| - 1], ep) + if e.ep == ep && e.caller.Root? then e.inclusive else 0
  }

  /** The caller list of an entry point adds up to its inclusive total, but for what was
      recorded for it as the bottom entry. */
  lemma {:induction false} CallersAddUp(log: seq<Exit>, ep: uint32)
    ensures EdgeTotal(log, ep, Recent(CallersOf(log, ep))) + AtRoot(log, ep) == Sum(Totals(log, ep))
  {
    if log != [] {
      var n := |log| - 1;
      var before, e := log[..n], log[n];
      assert log == before + [e];
      CallersAddUp(before, ep);
      var history := CallersOf(before, ep);
      var recent := Recent(history);
      if e.ep != ep || e.caller.Root? {
        EdgeTotalKept(before, e, ep, recent);
        assert CallersOf(log, ep) == history;
        SumAppend(Totals(before, ep), e.inclusive);
        assert e.ep != ep ==> Totals(log, ep) == Totals(before, ep);
      } else {
        var c := e.caller.ep;
        var r := Remove(recent, c);
        RecentIsOrdered(history);
        EdgeTotalRemove(before, ep, recent, c);
        EdgeTotalKept(before, e, ep, r);
        if c !in history {
          NoEdge(before, ep, c);
        }
        assert (history + [c])[..|history|] == history;
        assert Recent(CallersOf(log, ep)) == [c] + r;
        assert ([c] + r)[1..] == r;
        SumAppend(Edge(before, ep, c), e.inclusive);
        SumAppend(Totals(before, ep), e.inclusive);
      }
    }
  }
}
