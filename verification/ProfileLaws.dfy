/** The conservation laws of the profiler, over all runs. */
module ProfileLaws {
  import opened Bits
  import opened ProfileLog

  datatype Step = Instructions(n: nat) | EnterBlock(ep: uint32, isInvIf: bool, isAthrow: bool) | LeaveBlock

  /** What holds in every reachable state. */
  ghost predicate Inv(s: State) {
    Links(s.stack) && Times(s)
  }

  ghost predicate Links(stack: seq<Frame>) {
    && stack != []
    && stack[0].next == -1 && stack[0].correction == 0
    && forall k | 1 <= k < |stack| :: stack[k].next == Nearest(stack[..k], stack[k].ep)
  }

  ghost predicate Times(s: State) {
    InOrder(s.stack) && Within(s) && Spaced(s.stack)
  }

  /** Blocks open in order. */
  ghost predicate InOrder(stack: seq<Frame>) {
    forall j, k | 0 <= j < k < |stack| :: stack[j].begin <= stack[k].begin
  }

  /** Corrections and self counts lie within the span of their entry. */
  ghost predicate Within(s: State) {
    forall k | 0 <= k < |s.stack| ::
      && 0 <= s.stack[k].correction <= s.icount - s.stack[k].begin
      && 0 <= s.stack[k].curSelf && s.stack[k].begin <= s.stack[k].beginSelf <= s.icount
  }

  /** The corrections of an entry stem from before the entry that will correct it next. */
  ghost predicate Spaced(stack: seq<Frame>) {
    forall k | 1 <= k < |stack| && 1 <= stack[k].next < k ::
      stack[stack[k].next].correction <= stack[k].begin - stack[stack[k].next].begin
  }

  function Next(s: State, step: Step): (t: State)
    requires Inv(s)
  {
    match step
    case Instructions(n) => Count(s, n)
    case EnterBlock(ep, isInvIf, isAthrow) => Enter(s, ep, isInvIf, isAthrow)
    case LeaveBlock => TopNext(s); Leave(s)
  }

  lemma TopNext(s: State)
    requires Links(s.stack)
    ensures -1 <= Top(s.stack).next < |s.stack| - 1
    ensures Top(s.stack).next != -1 ==> 1 <= Top(s.stack).next && s.stack[Top(s.stack).next].ep == Top(s.stack).ep
    ensures Top(s.stack).next == -1 ==> forall k | 1 <= k < |s.stack| - 1 :: s.stack[k].ep != Top(s.stack).ep
  {
    var n := |s.stack| - 1;
    if n > 0 {
      assert s.stack[n].next == Nearest(s.stack[..n], s.stack[n].ep);
      assert forall k | 1 <= k < n :: s.stack[..n][k] == s.stack[k];
    }
  }

  /** The state in which a profile is reset. */
  function Initial(program: uint32): (s: State)
    ensures Inv(s)
  {
    State(0, [Frame(program, 0, 0, 0, 0, -1, false, false)], [])
  }

  /** Nearest looks at entry points only. */
  lemma {:induction false} NearestSame(s: seq<Frame>, t: seq<Frame>, ep: uint32)
    requires |s| == |t| && forall k | 0 <= k < |s| :: s[k].ep == t[k].ep
    ensures Nearest(s, ep) == Nearest(t, ep)
  {
    if |s| > 1 {
      NearestSame(Rest(s), Rest(t), ep);
    }
  }

  /** Two stacks that differ in counts only are linked alike. */
  predicate SameShape(s: seq<Frame>, t: seq<Frame>) {
    |s| == |t| && forall k | 0 <= k < |s| :: s[k].ep == t[k].ep && s[k].next == t[k].next
  }

  lemma SameLinks(s: seq<Frame>, t: seq<Frame>)
    requires Links(s) && SameShape(s, t) && t[0].correction == 0
    ensures Links(t)
  {
    forall k | 1 <= k < |t|
      ensures t[k].next == Nearest(t[..k], t[k].ep)
    {
      NearestSame(s[..k], t[..k], s[k].ep);
    }
  }

  lemma FewerLinks(s: seq<Frame>)
    requires Links(s) && |s| > 1
    ensures Links(Rest(s))
  {
    var r := Rest(s);
    forall k | 1 <= k < |r|
      ensures r[k].next == Nearest(r[..k], r[k].ep)
    {
      assert r[..k] == s[..k];
    }
  }

  lemma MoreLinks(s: seq<Frame>, f: Frame)
    requires Links(s) && f.next == Nearest(s, f.ep)
    ensures Links(s + [f])
  {
    forall k | 1 <= k <= |s|
      ensures (s + [f])[k].next == Nearest((s + [f])[..k], (s + [f])[k].ep)
    {
      assert (s + [f])[..k] == s[..k];
      assert s[..|s|] == s;
    }
  }

  lemma EnterKeeps(s: State, ep: uint32, isInvIf: bool, isAthrow: bool)
    requires Inv(s)
    ensures Inv(Enter(s, ep, isInvIf, isAthrow))
  {
    hide Links, Nearest, Times;
    LinksNonempty(s.stack);
    var t, n := Enter(s, ep, isInvIf, isAthrow), |s.stack|;
    var paused := t.stack[..n];
    EnterTimes(s, ep, isInvIf, isAthrow);
    SameLinks(s.stack, paused);
    NearestSame(s.stack, paused, ep);
    assert t.stack == paused + [t.stack[n]];
    MoreLinks(paused, t.stack[n]);
  }

  lemma EnterTimes(s: State, ep: uint32, isInvIf: bool, isAthrow: bool)
    requires s.stack != [] && Times(s)
    requires Links(s.stack)
    ensures Times(Enter(s, ep, isInvIf, isAthrow))
  {
    hide Links;
    assert Nearest(s.stack, ep) < |s.stack|;
  }

  lemma LinksNonempty(stack: seq<Frame>)
    requires Links(stack)
    ensures stack != [] && stack[0].next == -1 && stack[0].correction == 0
  {
  }

  lemma LeaveKeeps(s: State)
    requires Inv(s)
    ensures -1 <= Top(s.stack).next < |s.stack| - 1 && Inv(Leave(s))
  {
    TopNext(s);
    if |s.stack| > 1 {
      hide Links, Nearest, Times;
      LinksNonempty(s.stack);
      FewerLinks(s.stack);
      LeaveShape(s);
      SameLinks(Rest(s.stack), Leave(s).stack);
      LeaveTimes(s);
    }
  }

  lemma LeaveShape(s: State)
    requires |s.stack| > 1 && -1 <= Top(s.stack).next < |s.stack| - 1
    requires s.stack[0].correction == 0 && Top(s.stack).next != 0
    ensures SameShape(Rest(s.stack), Leave(s).stack) && Leave(s).stack[0].correction == 0
  {
  }

  /** The corrected entry is the only one to which no other entry is linked from above. */
  lemma NoOtherLink(s: State, j: int, k: int)
    requires Links(s.stack) && 1 <= j < k < |s.stack| - 1 && j == Top(s.stack).next
    ensures s.stack[k].next != j
  {
    var n := |s.stack| - 1;
    assert s.stack[k].next == Nearest(s.stack[..k], s.stack[k].ep);
    assert Nearest(s.stack[..n], s.stack[n].ep) == j;
    assert s.stack[..n][j].ep == s.stack[n].ep;
    assert s.stack[..n][k].ep != s.stack[n].ep;
  }

  lemma LeaveTimes(s: State)
    requires Inv(s) && |s.stack| > 1
    ensures -1 <= Top(s.stack).next < |s.stack| - 1 && Times(Leave(s))
  {
    TopNext(s);
    hide Links, Within, InOrder, Spaced;
    LeaveWithin(s);
    LeaveSpaced(s);
    assert InOrder(Leave(s).stack) by {
      LeaveInOrder(s);
    }
  }

  lemma LeaveInOrder(s: State)
    requires InOrder(s.stack) && |s.stack| > 1 && -1 <= Top(s.stack).next < |s.stack| - 1
    ensures InOrder(Leave(s).stack)
  {
  }

  lemma LeaveWithin(s: State)
    requires Links(s.stack) && InOrder(s.stack) && Within(s) && Spaced(s.stack) && |s.stack| > 1
    ensures -1 <= Top(s.stack).next < |s.stack| - 1 && Within(Leave(s))
  {
    TopNext(s);
    hide Links;
    var t, n, c := Leave(s), |s.stack| - 1, Top(s.stack).next;
    if c != -1 {
      assert s.stack[n].next == c;
      assert s.stack[c].correction <= s.stack[n].begin - s.stack[c].begin;
    }
  }

  lemma LeaveSpaced(s: State)
    requires Links(s.stack) && Spaced(s.stack) && |s.stack| > 1
    ensures -1 <= Top(s.stack).next < |s.stack| - 1 && Spaced(Leave(s).stack)
  {
    hide Links, Open;
    TopNext(s);
    var t, n, c := Leave(s), |s.stack| - 1, Top(s.stack).next;
    forall k | 1 <= k < n && 1 <= t.stack[k].next < k
      ensures t.stack[k].next != c
    {
      if c != -1 && c < k {
        NoOtherLink(s, c, k);
      }
    }
  }

  // ----- runs

  function Run(s: State, steps: seq<Step>): (t: State)
    requires Inv(s)
    ensures Inv(t)
    decreases |steps|
  {
    if steps == [] then s
    else
      var u := Run(s, steps[..|steps| - 1]);
      var step := steps[|steps| - 1];
      NextKeeps(u, step);
      Next(u, step)
  }

  lemma NextKeeps(s: State, step: Step)
    requires Inv(s)
    ensures Inv(Next(s, step))
  {
    match step
    case Instructions(n) =>
    case EnterBlock(ep, isInvIf, isAthrow) => EnterKeeps(s, ep, isInvIf, isAthrow);
    case LeaveBlock => LeaveKeeps(s);
  }

  // ----- inclusive time

  /** The finished spans during which no other entry of `ep` was open. */
  function Outer(log: seq<Exit>, ep: uint32): int {
    if log == [] then 0
    else
      var e := log[|log| - 1];
      Outer(log[..|log| - 1], ep) + if e.ep == ep && e.others == 0 then e.span else 0
  }

  /** The finished spans that lay inside another one of `ep` without becoming a correction. */
  function Doubled(log: seq<Exit>, ep: uint32): int {
    if log == [] then 0
    else
      var e := log[|log| - 1];
      Doubled(log[..|log| - 1], ep) + if e.ep == ep && e.others > 0 && !e.linked then e.span else 0
  }

  /** The corrections that wait on the stack. */
  function Pending(stack: seq<Frame>, ep: uint32): int {
    if stack == [] then 0 else Pending(Rest(stack), ep) + if Top(stack).ep == ep then Top(stack).correction else 0
  }

  lemma {:induction false} PendingUpdate(stack: seq<Frame>, j: nat, f: Frame, ep: uint32)
    requires j < |stack| && f.ep == stack[j].ep
    ensures Pending(stack[j := f], ep)
            == Pending(stack, ep) + if f.ep == ep then f.correction - stack[j].correction else 0
  {
    if j < |stack| - 1 {
      assert Rest(stack[j := f]) == Rest(stack)[j := f];
      PendingUpdate(Rest(stack), j, f, ep);
    } else {
      assert Rest(stack[j := f]) == Rest(stack);
    }
  }

  lemma {:induction false} OpenIff(stack: seq<Frame>, ep: uint32)
    ensures Open(stack, ep) > 0 <==> exists k :: 0 <= k < |stack| && stack[k].ep == ep
  {
    if stack != [] {
      OpenIff(Rest(stack), ep);
      if k :| 0 <= k < |stack| && stack[k].ep == ep && k < |stack| - 1 {
        assert Rest(stack)[k].ep == ep;
      }
      if k :| 0 <= k < |Rest(stack)| && Rest(stack)[k].ep == ep {
        assert stack[k].ep == ep;
      }
    }
  }

  ghost predicate InclusiveLaw(s: State, ep: uint32) {
    Sum(Totals(s.log, ep)) == Outer(s.log, ep) + Doubled(s.log, ep) + Pending(s.stack, ep)
  }

  lemma EnterInclusive(s: State, ep: uint32, isInvIf: bool, isAthrow: bool, x: uint32)
    requires s.stack != [] && InclusiveLaw(s, x)
    ensures InclusiveLaw(Enter(s, ep, isInvIf, isAthrow), x)
  {
    var t, n := Enter(s, ep, isInvIf, isAthrow), |s.stack|;
    PendingUpdate(s.stack, n - 1, t.stack[n - 1], x);
    assert Rest(t.stack) == s.stack[n - 1 := t.stack[n - 1]];
  }

  lemma LeavePending(s: State, x: uint32)
    requires Links(s.stack)
    ensures -1 <= Top(s.stack).next < |s.stack| - 1
    ensures Pending(Leave(s).stack, x) == Pending(s.stack, x)
      + if Top(s.stack).ep != x then 0
        else (if Top(s.stack).next != -1 then Left(s).span else 0) - Top(s.stack).correction
  {
    hide Links, Nearest, Open;
    TopNext(s);
    LinksNonempty(s.stack);
    var top, rest, n := Top(s.stack), Rest(s.stack), |s.stack| - 1;
    var t, c := Leave(s), top.next;
    if n == 0 {
      PendingUpdate(s.stack, 0, t.stack[0], x);
      assert t.stack == s.stack[0 := t.stack[0]];
    } else {
      if c != -1 {
        PendingUpdate(rest, c, Corrected(s)[c], x);
      }
      PendingUpdate(Corrected(s), n - 1, t.stack[n - 1], x);
    }
  }

  lemma LeaveOthers(s: State)
    requires Links(s.stack)
    ensures Left(s).linked ==> Left(s).others > 0
    ensures Left(s).others > 0 && !Left(s).linked ==> Left(s).ep == s.stack[0].ep && Left(s).caller != Root
  {
    TopNext(s);
    OpenIff(Rest(s.stack), Top(s.stack).ep);
    if Left(s).linked {
      assert Rest(s.stack)[Top(s.stack).next].ep == Top(s.stack).ep;
    }
  }

  lemma LeaveInclusive(s: State, x: uint32)
    requires Links(s.stack) && InclusiveLaw(s, x)
    ensures -1 <= Top(s.stack).next < |s.stack| - 1 && InclusiveLaw(Leave(s), x)
  {
    hide Links, Pending, Left, Leave, Corrected, Nearest, Open, Sum, Totals, Outer, Doubled;
    TopNext(s);
    LeavePending(s, x);
    LeaveOthers(s);
    OneMoreExit(s.log, Left(s), x);
    LeaveLogs(s);
    LeftInclusive(s);
  }

  lemma LeaveLogs(s: State)
    requires s.stack != [] && -1 <= Top(s.stack).next < |s.stack| - 1
    ensures Leave(s).log == s.log + [Left(s)] && Leave(s).icount == s.icount
  {
  }

  /** What one more exit adds to the sums over the log. */
  lemma OneMoreExit(log: seq<Exit>, e: Exit, x: uint32)
    ensures Sum(Totals(log + [e], x)) == Sum(Totals(log, x)) + (if e.ep == x then e.inclusive else 0)
    ensures Outer(log + [e], x) == Outer(log, x) + (if e.ep == x && e.others == 0 then e.span else 0)
    ensures Doubled(log + [e], x) == Doubled(log, x) + (if e.ep == x && e.others > 0 && !e.linked then e.span else 0)
  {
    hide Sum;
    assert (log + [e])[..|log|] == log;
    SumAppend(Totals(log, x), e.inclusive);
    assert Totals(log + [e], x) == Totals(log, x) + if e.ep == x then [e.inclusive] else [];
    assert e.ep != x ==> Totals(log + [e], x) == Totals(log, x);
  }

  lemma LeftInclusive(s: State)
    requires s.stack != []
    ensures Left(s).inclusive == Left(s).span - Top(s.stack).correction
    ensures Left(s).ep == Top(s.stack).ep && (Left(s).linked <==> Top(s.stack).next != -1)
  {
  }

  /** Entries that escape the correction are re-entries of the root's entry point. */
  ghost predicate OnlyRootDoubles(log: seq<Exit>, program: uint32) {
    forall k | 0 <= k < |log| && log[k].others > 0 && !log[k].linked :: log[k].ep == program && log[k].caller != Root
  }

  /** Only the program is ever left without a caller. */
  ghost predicate RootsOnly(log: seq<Exit>, program: uint32) {
    forall k | 0 <= k < |log| && log[k].caller.Root? :: log[k].ep == program
  }

  ghost predicate Spans(log: seq<Exit>) {
    forall k | 0 <= k < |log| :: 0 <= log[k].inclusive <= log[k].span && 0 <= log[k].self
  }

  lemma {:induction false} DoubledZeroIff(log: seq<Exit>, ep: uint32)
    requires Spans(log)
    ensures Doubled(log, ep) >= 0
    ensures Doubled(log, ep) == 0 <==>
              forall k | 0 <= k < |log| && log[k].ep == ep && log[k].others > 0 && !log[k].linked :: log[k].span == 0
  {
    if log != [] {
      var n := |log| - 1;
      DoubledZeroIff(log[..n], ep);
      assert forall k | 0 <= k < n :: log[..n][k] == log[k];
      if forall k | 0 <= k < n && log[..n][k].ep == ep && log[..n][k].others > 0 && !log[..n][k].linked ::
        log[..n][k].span == 0 {
        assert forall k | 0 <= k < n && log[k].ep == ep && log[k].others > 0 && !log[k].linked :: log[k].span == 0;
      }
    }
  }

  // ----- self time

  function SelfSum(log: seq<Exit>): int {
    if log == [] then 0 else SelfSum(log[..|log| - 1]) + log[|log| - 1].self
  }

  function RootSelf(log: seq<Exit>): int {
    if log == [] then 0
    else RootSelf(log[..|log| - 1]) + if log[|log| - 1].caller.Root? then log[|log| - 1].self else 0
  }

  function RootSpans(log: seq<Exit>): int {
    if log == [] then 0
    else RootSpans(log[..|log| - 1]) + if log[|log| - 1].caller.Root? then log[|log| - 1].span else 0
  }

  function CurSelf(stack: seq<Frame>): int {
    if stack == [] then 0 else CurSelf(Rest(stack)) + Top(stack).curSelf
  }

  lemma {:induction false} CurSelfUpdate(stack: seq<Frame>, j: nat, f: Frame)
    requires j < |stack|
    ensures CurSelf(stack[j := f]) == CurSelf(stack) + f.curSelf - stack[j].curSelf
  {
    if j < |stack| - 1 {
      assert Rest(stack[j := f]) == Rest(stack)[j := f];
      CurSelfUpdate(Rest(stack), j, f);
    } else {
      assert Rest(stack[j := f]) == Rest(stack);
    }
  }

  /** Every counted instruction is in a recorded sample, in an accumulated count, or running in the
      top block; what the bottom entry recorded stays accumulated there and is counted once more. */
  ghost predicate SelfLaw(s: State) {
    && s.stack != []
    && SelfSum(s.log) + CurSelf(s.stack) + (s.icount - Top(s.stack).beginSelf) == s.icount + RootSelf(s.log)
    && RootSpans(s.log) == s.stack[0].begin
  }

  lemma EnterSelf(s: State, ep: uint32, isInvIf: bool, isAthrow: bool)
    requires SelfLaw(s)
    ensures SelfLaw(Enter(s, ep, isInvIf, isAthrow))
  {
    var t, n := Enter(s, ep, isInvIf, isAthrow), |s.stack|;
    CurSelfUpdate(s.stack, n - 1, t.stack[n - 1]);
    assert Rest(t.stack) == s.stack[n - 1 := t.stack[n - 1]];
  }

  lemma LeaveSelf(s: State)
    requires SelfLaw(s) && -1 <= Top(s.stack).next < |s.stack| - 1
    ensures SelfLaw(Leave(s))
  {
    var top, rest, n := Top(s.stack), Rest(s.stack), |s.stack| - 1;
    var t, c := Leave(s), top.next;
    assert t.log[..|s.log|] == s.log;
    if n == 0 {
      CurSelfUpdate(s.stack, 0, t.stack[0]);
      assert t.stack == s.stack[0 := t.stack[0]];
    } else {
      if c != -1 {
        CurSelfUpdate(rest, c, Corrected(s)[c]);
      }
      CurSelfUpdate(Corrected(s), n - 1, t.stack[n - 1]);
    }
  }

  lemma {:induction false} RootSelfZeroIff(log: seq<Exit>)
    requires Spans(log)
    ensures RootSelf(log) >= 0
    ensures RootSelf(log) == 0 <==> forall k | 0 <= k < |log| && log[k].caller.Root? :: log[k].self == 0
  {
    if log != [] {
      var n := |log| - 1;
      RootSelfZeroIff(log[..n]);
      assert forall k | 0 <= k < n :: log[..n][k] == log[k];
      if forall k | 0 <= k < n && log[..n][k].caller.Root? :: log[..n][k].self == 0 {
        assert forall k | 0 <= k < n && log[k].caller.Root? :: log[k].self == 0;
      }
    }
  }

  // ----- all runs

  /** The laws, as one invariant of the machine. */
  ghost predicate Laws(s: State, program: uint32) {
    && Inv(s) && s.stack[0].ep == program && SelfLaw(s)
    && Spans(s.log) && OnlyRootDoubles(s.log, program) && RootsOnly(s.log, program)
    && (forall ep: uint32 :: InclusiveLaw(s, ep))
    && (forall ep: uint32 | ep != program :: OuterFits(s, ep))
  }

  lemma NextLaws(s: State, step: Step, program: uint32)
    requires Laws(s, program)
    ensures Laws(Next(s, step), program)
  {
    hide Links, Times, Pending, Nearest, InclusiveLaw, OuterFits;
    var t := Next(s, step);
    LinksNonempty(s.stack);
    NextKeeps(s, step);
    match step
    case Instructions(n) =>
      forall ep: uint32 ensures InclusiveLaw(t, ep) { CountInclusive(s, n, ep); }
      forall ep: uint32 | ep != program ensures OuterFits(t, ep) { CountFits(s, n, ep); }
    case EnterBlock(ep, isInvIf, isAthrow) =>
      EnterSelf(s, ep, isInvIf, isAthrow);
      forall x: uint32 ensures InclusiveLaw(t, x) { EnterInclusive(s, ep, isInvIf, isAthrow, x); }
      forall x: uint32 | x != program ensures OuterFits(t, x) { EnterFits(s, ep, isInvIf, isAthrow, x); }
    case LeaveBlock =>
      TopNext(s);
      LeaveSelf(s);
      LeaveLog(s, program);
      forall x: uint32 ensures InclusiveLaw(t, x) { LeaveInclusive(s, x); }
      forall x: uint32 | x != program ensures OuterFits(t, x) { LeaveFits(s, x); }
  }

  lemma CountInclusive(s: State, n: nat, ep: uint32)
    requires InclusiveLaw(s, ep)
    ensures InclusiveLaw(Count(s, n), ep)
  {
  }

  lemma LeaveLog(s: State, program: uint32)
    requires Inv(s) && s.stack[0].ep == program && Spans(s.log) && OnlyRootDoubles(s.log, program)
             && RootsOnly(s.log, program)
    ensures -1 <= Top(s.stack).next < |s.stack| - 1
    ensures Spans(Leave(s).log) && OnlyRootDoubles(Leave(s).log, program) && RootsOnly(Leave(s).log, program)
    ensures Leave(s).stack[0].ep == program
  {
    TopNext(s);
    LeaveOthers(s);
    assert Spans([Left(s)]);
    assert Leave(s).stack[0].ep == program;
  }

  lemma {:induction false} LawsOfRuns(program: uint32, steps: seq<Step>)
    ensures Laws(Run(Initial(program), steps), program)
  {
    hide Inv, InclusiveLaw, Next;
    if steps != [] {
      var n := |steps| - 1;
      LawsOfRuns(program, steps[..n]);
      NextLaws(Run(Initial(program), steps[..n]), steps[n], program);
    } else {
      InitialLaws(program);
    }
  }

  lemma InitialLaws(program: uint32)
    ensures Laws(Initial(program), program)
  {
    var s := Initial(program);
    forall ep: uint32
      ensures InclusiveLaw(s, ep)
    {
      assert Rest(s.stack) == [];
      assert Pending(Rest(s.stack), ep) == 0;
    }
    assert CurSelf(Rest(s.stack)) == 0;
  }

  /** Inclusive time is not counted twice: what is recorded for an entry point is the sum of its
      finished outermost spans and of the corrections pending on the stack, for every entry point
      other than the root's without condition, and for the root's exactly if it has not been
      entered again for a time. */
  lemma InclusiveTime(program: uint32, steps: seq<Step>, ep: uint32)
    ensures var s := Run(Initial(program), steps);
            var law := Sum(Totals(s.log, ep)) == Outer(s.log, ep) + Pending(s.stack, ep);
            && (ep != program ==> law)
            && (law <==>
                  forall k | 0 <= k < |s.log| && s.log[k].ep == ep && s.log[k].others > 0 && !s.log[k].linked ::
                    s.log[k].span == 0)
  {
    LawsOfRuns(program, steps);
    var s := Run(Initial(program), steps);
    assert InclusiveLaw(s, ep);
    DoubledZeroIff(s.log, ep);
  }

  /** Self time is conserved exactly if the bottom entry never recorded any. */
  lemma SelfTime(program: uint32, steps: seq<Step>)
    ensures var s := Run(Initial(program), steps);
            && s.stack != []
            && (SelfSum(s.log) + CurSelf(s.stack) + (s.icount - Top(s.stack).beginSelf) == s.icount
                <==> forall k | 0 <= k < |s.log| && s.log[k].caller.Root? :: s.log[k].self == 0)
            && RootSpans(s.log) + (s.icount - s.stack[0].begin) == s.icount
  {
    LawsOfRuns(program, steps);
    RootSelfZeroIff(Run(Initial(program), steps).log);
  }

  lemma RunNothing(s: State)
    requires Inv(s)
    ensures Run(s, []) == s
  {
  }

  lemma RunOne(s: State, steps: seq<Step>, step: Step)
    requires Inv(s)
    ensures Run(s, steps + [step]) == Next(Run(s, steps), step)
  {
    assert (steps + [step])[..|steps|] == steps;
  }

  /** The run that shows the condition is needed: the root's entry point is entered again, five
      instructions are executed and it is left. The five are recorded, although the outermost span
      of the entry point, that of the bottom entry, is not finished. */
  lemma RootReentryIsDoubled(program: uint32)
    ensures var s := Run(Initial(program), [EnterBlock(program, false, false), Instructions(5), LeaveBlock]);
            && Sum(Totals(s.log, program)) == 5
            && Outer(s.log, program) + Pending(s.stack, program) == 0
  {
    hide Run, Inv, Enter, Leave, Count, Totals, Outer, Pending, Sum;
    var steps := [EnterBlock(program, false, false), Instructions(5), LeaveBlock];
    var a := Initial(program);
    RunNothing(a);
    RunOne(a, [], steps[0]);
    RunOne(a, [steps[0]], steps[1]);
    RunOne(a, [steps[0], steps[1]], steps[2]);
    assert [] + [steps[0]] == [steps[0]] && [steps[0]] + [steps[1]] == [steps[0], steps[1]];
    assert [steps[0], steps[1]] + [steps[2]] == steps;
    Reentered(program);
    ReentryCounted(program, Exit(program, By(program), 5, 5, 5, false, 1),
                   Frame(program, 0, 0, 5, 0, -1, false, false));
  }

  lemma Reentered(program: uint32)
    ensures Enter(Initial(program), program, false, false).stack != []
    ensures var c := Count(Enter(Initial(program), program, false, false), 5);
            && -1 <= Top(c.stack).next < |c.stack| - 1
            && Leave(c) == State(5, [Frame(program, 0, 0, 5, 0, -1, false, false)],
                                 [Exit(program, By(program), 5, 5, 5, false, 1)])
  {
    var c := Count(Enter(Initial(program), program, false, false), 5);
    var bottom, top := Frame(program, 0, 0, 0, 0, -1, false, false), Frame(program, 0, 0, 0, 0, -1, false, false);
    assert c == State(5, [bottom, top], []);
    assert Rest(c.stack) == [bottom] && Rest([bottom]) == [] && Open([], program) == 0;
  }

  lemma ReentryCounted(program: uint32, e: Exit, f: Frame)
    requires e == Exit(program, By(program), 5, 5, 5, false, 1) && f.correction == 0
    ensures Sum(Totals([e], program)) == 5 && Outer([e], program) == 0 && Pending([f], program) == 0
  {
    assert [e][..0] == [] && Rest([f]) == [];
    assert Totals([e], program) == Totals([], program) + [5] && Totals([], program) == [];
    assert Outer([], program) == 0 && Pending([], program) == 0;
    hide Sum, Totals;
    SumOfOne(5);
    assert [] + [5] == [5];
  }

  lemma SumOfOne(x: int)
    ensures Sum([x]) == x
  {
    assert [x][..0] == [];
    assert Sum([]) == 0;
  }

  /** And that the bottom entry's self time is recorded again: five instructions, then the bottom
      entry is left twice. */
  lemma BottomSelfIsDoubled(program: uint32)
    ensures var s := Run(Initial(program), [Instructions(5), LeaveBlock, LeaveBlock]);
            && s.icount == 5 && SelfSum(s.log) == 10
            && s.log == [Exit(program, Root, 5, 5, 5, false, 0), Exit(program, Root, 0, 0, 5, false, 0)]
  {
    hide Run, Inv, Leave, Count, SelfSum;
    var steps := [Instructions(5), LeaveBlock, LeaveBlock];
    var a := Initial(program);
    RunNothing(a);
    RunOne(a, [], steps[0]);
    RunOne(a, [steps[0]], steps[1]);
    RunOne(a, [steps[0], steps[1]], steps[2]);
    assert [] + [steps[0]] == [steps[0]] && [steps[0]] + [steps[1]] == [steps[0], steps[1]];
    assert [steps[0], steps[1]] + [steps[2]] == steps;
    BottomLeft(program);
  }

  lemma BottomLeft(program: uint32)
    ensures var first, second := Exit(program, Root, 5, 5, 5, false, 0), Exit(program, Root, 0, 0, 5, false, 0);
            && Count(Initial(program), 5).stack != []
            && var one := Leave(Count(Initial(program), 5));
            && one == State(5, [Frame(program, 5, 5, 5, 0, -1, false, false)], [first])
            && Leave(one) == State(5, [Frame(program, 5, 5, 5, 0, -1, false, false)], [first, second])
            && SelfSum([first, second]) == 10
  {
    var first, second := Exit(program, Root, 5, 5, 5, false, 0), Exit(program, Root, 0, 0, 5, false, 0);
    assert [first, second][..1] == [first] && [first][..0] == [] && SelfSum([first]) == 5;
    var c := Count(Initial(program), 5);
    assert Rest(c.stack) == [] && Open([], program) == 0;
    assert [] + [first] == [first] && [first] + [second] == [first, second];
  }

  // ----- inclusive time and the clock

  /** The corrections of `ep` among the first `k` entries fit between its first and its nearest entry. */
  lemma {:induction false} PendingFits(s: State, k: nat, ep: uint32)
    requires Inv(s) && 1 <= k <= |s.stack| && ep != s.stack[0].ep
    ensures var below := s.stack[..k];
            var first, nearest := First(below, ep), Nearest(below, ep);
            && (first == -1 <==> nearest == -1)
            && (first == -1 ==> Pending(below, ep) == 0)
            && (first != -1 ==> first <= nearest)
            && (first != -1 ==>
                  Pending(below, ep) <= s.stack[nearest].correction + s.stack[nearest].begin - s.stack[first].begin)
    decreases k
  {
    hide Inv, First, Nearest, Pending;
    var below, f := s.stack[..k], s.stack[k - 1];
    OneMoreEntry(below, ep);
    assert Rest(below) == s.stack[..k - 1];
    if k > 1 {
      PendingFits(s, k - 1, ep);
      if f.ep == ep {
        assert f.next == Nearest(s.stack[..k - 1], ep) by { InvLinks(s); }
        if f.next != -1 {
          NextSpaced(s, k - 1);
        }
      }
    }
  }

  /** What the top entry adds to the entries below it. */
  lemma OneMoreEntry(stack: seq<Frame>, ep: uint32)
    requires stack != []
    ensures var n, f, below := |stack| - 1, Top(stack), Rest(stack);
            && Pending(stack, ep) == Pending(below, ep) + (if f.ep == ep then f.correction else 0)
            && (n == 0 ==> Pending(below, ep) == 0 && First(stack, ep) == Nearest(stack, ep) == -1)
            && (n > 0 ==> Nearest(stack, ep) == if f.ep == ep then n else Nearest(below, ep))
            && (n > 0 ==> First(stack, ep) == if First(below, ep) == -1 && f.ep == ep then n else First(below, ep))
  {
  }

  lemma NextSpaced(s: State, k: nat)
    requires Inv(s) && 1 <= k < |s.stack| && 1 <= s.stack[k].next < k
    ensures var j := s.stack[k].next; s.stack[j].correction <= s.stack[k].begin - s.stack[j].begin
  {
    hide Links;
  }

  lemma InvLinks(s: State)
    requires Inv(s)
    ensures Links(s.stack) && Spaced(s.stack)
  {
  }

  /** The time from which on `ep` may still be counted: the begin of its first open entry, or now. */
  function Since(s: State, ep: uint32): int {
    if First(s.stack, ep) == -1 then s.icount else s.stack[First(s.stack, ep)].begin
  }

  ghost predicate OuterFits(s: State, ep: uint32) {
    Outer(s.log, ep) <= Since(s, ep)
  }

  lemma {:induction false} FirstSame(s: seq<Frame>, t: seq<Frame>, ep: uint32)
    requires |s| == |t| && forall k | 0 <= k < |s| :: s[k].ep == t[k].ep
    ensures First(s, ep) == First(t, ep)
  {
    if |s| > 1 {
      FirstSame(Rest(s), Rest(t), ep);
    }
  }

  lemma EnterFits(s: State, ep: uint32, isInvIf: bool, isAthrow: bool, x: uint32)
    requires s.stack != [] && OuterFits(s, x)
    ensures OuterFits(Enter(s, ep, isInvIf, isAthrow), x)
  {
    var t, n := Enter(s, ep, isInvIf, isAthrow), |s.stack|;
    FirstSame(s.stack, Rest(t.stack), x);
  }

  lemma LeaveFits(s: State, x: uint32)
    requires Inv(s) && OuterFits(s, x) && x != s.stack[0].ep
    ensures -1 <= Top(s.stack).next < |s.stack| - 1 && OuterFits(Leave(s), x)
  {
    LeaveSince(s, x);
    OuterOfLeft(s, x);
    hide Links, Times, First, Nearest, Outer, Leave;
  }

  lemma OuterOfLeft(s: State, x: uint32)
    requires Links(s.stack) && x != s.stack[0].ep
    ensures -1 <= Top(s.stack).next < |s.stack| - 1
    ensures var top, first := Top(s.stack), First(Rest(s.stack), x);
            Outer(Leave(s).log, x) == Outer(s.log, x)
              + if top.ep == x && first == -1 then s.icount - top.begin else 0
  {
    TopNext(s);
    assert Leave(s).log[..|s.log|] == s.log;
    var rest := Rest(s.stack);
    OpenIff(rest, x);
    if First(rest, x) != -1 {
      assert rest[First(rest, x)].ep == x;
    }
    assert rest != [] ==> rest[0].ep != x;
  }

  lemma LeaveSince(s: State, x: uint32)
    requires Links(s.stack) && x != s.stack[0].ep
    ensures -1 <= Top(s.stack).next < |s.stack| - 1
    ensures var top, first := Top(s.stack), First(Rest(s.stack), x);
            && Since(Leave(s), x) == (if first == -1 then s.icount else s.stack[first].begin)
            && Since(s, x) == (if first != -1 then s.stack[first].begin
                               else if top.ep == x then top.begin else s.icount)
  {
    TopNext(s);
    if |s.stack| > 1 {
      LinksNonempty(s.stack);
      LeaveShape(s);
      LeaveBegins(s);
      FirstSame(Rest(s.stack), Leave(s).stack, x);
    }
  }

  lemma LeaveBegins(s: State)
    requires |s.stack| > 1 && -1 <= Top(s.stack).next < |s.stack| - 1
    ensures forall k | 0 <= k < |s.stack| - 1 :: Leave(s).stack[k].begin == s.stack[k].begin
  {
  }

  lemma CountFits(s: State, n: nat, ep: uint32)
    requires OuterFits(s, ep)
    ensures OuterFits(Count(s, n), ep)
  {
  }

  /** No recursion, direct or mutual, makes the recorded inclusive time of a function other than
      the root exceed the number of instructions counted. */
  lemma NeverMoreThanCounted(s: State, program: uint32, ep: uint32)
    requires Laws(s, program) && ep != program
    ensures Sum(Totals(s.log, ep)) <= s.icount
  {
    hide Outer, Pending, Totals, Sum, Nearest, First, Links, Spaced, SelfLaw, OnlyRootDoubles, RootsOnly, Spans,
         Doubled;
    LinksNonempty(s.stack);
    NoneDoubled(s.log, ep, program);
    PendingFits(s, |s.stack|, ep);
    assert InclusiveLaw(s, ep) && OuterFits(s, ep);
    assert s.stack[..|s.stack|] == s.stack;
    var nearest := Nearest(s.stack, ep);
    if nearest != -1 {
      assert s.stack[nearest].correction <= s.icount - s.stack[nearest].begin;
    }
  }

  // ----- the samples of all entry points

  function SelfTotal(log: seq<Exit>, eps: seq<uint32>): int {
    if eps == [] then 0 else Sum(Selfs(log, eps[0])) + SelfTotal(log, eps[1..])
  }

  lemma {:induction false} SelfTotalAppend(log: seq<Exit>, e: Exit, eps: seq<uint32>)
    requires Distinct(eps)
    ensures SelfTotal(log + [e], eps) == SelfTotal(log, eps) + if e.ep in eps then e.self else 0
  {
    if eps != [] {
      SelfTotalAppend(log, e, eps[1..]);
      assert (log + [e])[..|log|] == log;
      SumAppend(Selfs(log, eps[0]), e.self);
      assert e.ep != eps[0] ==> Selfs(log + [e], eps[0]) == Selfs(log, eps[0]);
      assert e.ep == eps[0] ==> e.ep !in eps[1..];
    }
  }

  ghost predicate Covers(eps: seq<uint32>, log: seq<Exit>) {
    Distinct(eps) && forall k | 0 <= k < |log| :: log[k].ep in eps
  }

  /** The self samples in the statistics of all entry points are the self samples of the log. */
  lemma {:induction false} SelfsAddUp(log: seq<Exit>, eps: seq<uint32>)
    requires Covers(eps, log)
    ensures SelfTotal(log, eps) == SelfSum(log)
  {
    hide SelfTotal, Covers;
    if log == [] {
      NoSelfs(eps);
    } else {
      var n := |log| - 1;
      CoversLess(eps, log);
      SelfsAddUp(log[..n], eps);
      SelfTotalAppend(log[..n], log[n], eps);
      assert log[..n] + [log[n]] == log;
    }
  }

  lemma CoversLess(eps: seq<uint32>, log: seq<Exit>)
    requires Covers(eps, log) && log != []
    ensures Covers(eps, log[..|log| - 1]) && log[|log| - 1].ep in eps && Distinct(eps)
  {
    assert forall k | 0 <= k < |log| - 1 :: log[..|log| - 1][k] == log[k];
  }

  lemma NoneDoubled(log: seq<Exit>, ep: uint32, program: uint32)
    requires Spans(log) && OnlyRootDoubles(log, program) && ep != program
    ensures Doubled(log, ep) == 0
  {
    DoubledZeroIff(log, ep);
  }

  lemma {:induction false} NoSelfs(eps: seq<uint32>)
    ensures SelfTotal([], eps) == 0
  {
    if eps != [] {
      NoSelfs(eps[1..]);
    }
  }
}
