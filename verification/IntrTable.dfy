/** The table of scheduled interrupts as a value, and what the main loop does to it. */
module IntrTable {

  /** A scheduled interrupt: level 0 is the NMI; `due` is an instruction count. */
  datatype Intr = Intr(irl: int, due: int, enabled: bool, repeating: bool, period: int)

  datatype State = State(intrs: seq<Intr>, icount: int)

  /** Which of two enabled entries comes first: by due count, then by level, then by slot. */
  predicate Before(s: seq<Intr>, i: nat, j: nat)
    requires i < |s| && j < |s|
  {
    s[i].due < s[j].due
    || (s[i].due == s[j].due && (s[i].irl < s[j].irl || (s[i].irl == s[j].irl && i <= j)))
  }

  /** The slot that intr_schedule_next selects, -1 if no entry is enabled. */
  function Least(s: seq<Intr>): (r: int)
    ensures -1 <= r < |s|
    ensures r == -1 <==> forall j | 0 <= j < |s| :: !s[j].enabled
    ensures r != -1 ==> s[r].enabled && forall j | 0 <= j < |s| && s[j].enabled :: Before(s, r, j)
  {
    if s == [] then -1
    else
      var n := |s| - 1;
      var r := Least(s[..n]);
      assert forall j | 0 <= j < n :: s[..n][j] == s[j];
      assert r != -1 ==> forall j | 0 <= j < n && s[j].enabled :: Before(s[..n], r, j);
      if !s[n].enabled then r
      else if r == -1 then n
      else if s[n].due < s[r].due || (s[n].due == s[r].due && s[n].irl < s[r].irl) then n
      else r
  }

  /** The selection is determined by the order alone. */
  lemma LeastUnique(s: seq<Intr>, r: int)
    requires -1 <= r < |s|
    requires r == -1 ==> forall j | 0 <= j < |s| :: !s[j].enabled
    requires r != -1 ==> s[r].enabled && forall j | 0 <= j < |s| && s[j].enabled :: Before(s, r, j)
    ensures r == Least(s)
  {
    var l := Least(s);
    if r != -1 {
      assert Before(s, r, l) && Before(s, l, r);
    }
  }

  predicate DueAt(i: Intr, t: int) {
    i.enabled && i.due == t
  }

  /** The first one-shot due at `t`, where the dispatch loop stops; |s| if there is none. */
  function FirstOneShot(s: seq<Intr>, t: int): (b: nat)
    ensures b <= |s|
    ensures b < |s| ==> DueAt(s[b], t) && !s[b].repeating
    ensures forall j | 0 <= j < b && DueAt(s[j], t) :: s[j].repeating
  {
    if s == [] then 0
    else
      var n := |s| - 1;
      assert forall j | 0 <= j < n :: s[..n][j] == s[j];
      var b := FirstOneShot(s[..n], t);
      if b < n then b else if DueAt(s[n], t) && !s[n].repeating then n else |s|
  }

  function Fired(i: Intr, k: nat, b: nat, t: int): Intr {
    if !DueAt(i, t) || k > b then i
    else if i.repeating then i.(due := t + i.period)
    else i.(enabled := false)
  }

  /** The table after a dispatch at `t`: due entries are moved on or switched off, up to and
      including the first one-shot. */
  function Dispatched(s: seq<Intr>, t: int): (r: seq<Intr>)
    ensures |r| == |s| && forall k | 0 <= k < |s| :: r[k] == Fired(s[k], k, FirstOneShot(s, t), t)
  {
    var b := FirstOneShot(s, t);
    seq(|s|, k requires 0 <= k < |s| => Fired(s[k], k, b, t))
  }

  /** An entry takes part in the dispatch if it is due and no due one-shot stands before it. */
  lemma DispatchSpelledOut(s: seq<Intr>, t: int, k: nat)
    requires k < |s|
    ensures Dispatched(s, t)[k] ==
            if s[k].enabled && s[k].due == t
               && forall j | 0 <= j < k && s[j].enabled && s[j].due == t :: s[j].repeating
            then if s[k].repeating then s[k].(due := t + s[k].period) else s[k].(enabled := false)
            else s[k]
  {
    var b := FirstOneShot(s, t);
    if k > b {
      assert s[b].enabled && s[b].due == t && !s[b].repeating;
    }
  }

  // ----- events

  datatype Event =
    | Add(count: int, irl: int, repeating: bool)
    | Disable(id: nat)
    | Tick(stays: bool)   // one pass of the main loop; it stays where it is when a trap is taken or the chip sleeps

  /** What intr_add refuses. */
  predicate Refused(count: int, irl: int, repeating: bool) {
    irl < 0 || irl > 15 || count < 0 || (count == 0 && repeating)
  }

  predicate Reusable(i: Intr) {
    !i.enabled && !i.repeating
  }

  function FirstReusable(s: seq<Intr>): (r: int)
    ensures -1 <= r < |s|
    ensures r == -1 <==> forall j | 0 <= j < |s| :: !Reusable(s[j])
    ensures r != -1 ==> Reusable(s[r]) && forall j | 0 <= j < r :: !Reusable(s[j])
  {
    if s == [] then -1
    else
      var n := |s| - 1;
      assert forall j | 0 <= j < n :: s[..n][j] == s[j];
      if FirstReusable(s[..n]) != -1 then FirstReusable(s[..n]) else if Reusable(s[n]) then n else -1
  }

  function Added(s: State, count: int, irl: int, repeating: bool): seq<Intr> {
    var i := Intr(irl, s.icount + count, true, repeating, count);
    if Refused(count, irl, repeating) then s.intrs
    else if FirstReusable(s.intrs) != -1 then s.intrs[FirstReusable(s.intrs) := i]
    else s.intrs + [i]
  }

  /** The check at the head of the loop. */
  predicate Dispatches(s: State) {
    Least(s.intrs) != -1 && s.intrs[Least(s.intrs)].due == s.icount
  }

  function Step(s: State, ev: Event): State {
    match ev
    case Add(count, irl, repeating) => s.(intrs := Added(s, count, irl, repeating))
    case Disable(id) => if id < |s.intrs| then s.(intrs := s.intrs[id := s.intrs[id].(enabled := false)]) else s
    case Tick(stays) =>
      State(if Dispatches(s) then Dispatched(s.intrs, s.icount) else s.intrs, if stays then s.icount else s.icount + 1)
  }

  function Run(s: State, evs: seq<Event>): State
    decreases |evs|
  {
    if evs == [] then s else Step(Run(s, evs[..|evs| - 1]), evs[|evs| - 1])
  }

  // ----- no interrupt is missed

  predicate NoPast(s: State) {
    forall j | 0 <= j < |s.intrs| && s.intrs[j].enabled :: s.icount <= s.intrs[j].due
  }

  predicate WellFormed(s: State) {
    forall j | 0 <= j < |s.intrs| && s.intrs[j].repeating :: s.intrs[j].period > 0
  }

  /** No due one-shot stands before another due entry: the dispatch reaches all of them. */
  predicate Clean(s: seq<Intr>, t: int) {
    forall i, j | 0 <= i < j < |s| && DueAt(s[i], t) && DueAt(s[j], t) :: s[i].repeating
  }

  /** A loop pass that advances misses no interrupt exactly if all that are due now can be
      dispatched together. */
  lemma TickMissesNoneIff(s: State)
    requires NoPast(s) && WellFormed(s)
    ensures NoPast(Step(s, Tick(false))) <==> Clean(s.intrs, s.icount)
  {
    var t, b := Step(s, Tick(false)), FirstOneShot(s.intrs, s.icount);
    if Dispatches(s) {
      if !Clean(s.intrs, s.icount) {
        var i, j :| 0 <= i < j < |s.intrs| && DueAt(s.intrs[i], s.icount) && DueAt(s.intrs[j], s.icount)
          && !s.intrs[i].repeating;
        assert t.intrs[j] == s.intrs[j];
      }
    } else {
      forall j | 0 <= j < |s.intrs| && s.intrs[j].enabled
        ensures s.intrs[j].due > s.icount
      {
        assert Before(s.intrs, Least(s.intrs), j);
      }
    }
  }

  /** The other events, and a pass that stays, never put an entry in the past. */
  lemma OthersMissNone(s: State, ev: Event)
    requires NoPast(s) && WellFormed(s) && ev != Tick(false)
    ensures NoPast(Step(s, ev))
  {
  }

  lemma StepWellFormed(s: State, ev: Event)
    requires WellFormed(s)
    ensures WellFormed(Step(s, ev))
  {
  }

  /** The state before event `k` of a run. */
  function At(s: State, evs: seq<Event>, k: nat): State
    requires k <= |evs|
  {
    Run(s, evs[..k])
  }

  lemma AtNext(s: State, evs: seq<Event>, k: nat)
    requires k < |evs|
    ensures At(s, evs, k + 1) == Step(At(s, evs, k), evs[k])
  {
    assert evs[..k + 1][..k] == evs[..k];
  }

  lemma {:induction false} RunWellFormed(s: State, evs: seq<Event>, k: nat)
    requires WellFormed(s) && k <= |evs|
    ensures WellFormed(At(s, evs, k))
  {
    hide WellFormed, Step;
    if k > 0 {
      RunWellFormed(s, evs, k - 1);
      AtNext(s, evs, k - 1);
      StepWellFormed(At(s, evs, k - 1), evs[k - 1]);
    }
  }

  /** A whole run misses no interrupt exactly if every pass that advances finds the interrupts due
      at its instruction dispatchable together. */
  lemma RunMissesNoneIff(s: State, evs: seq<Event>)
    requires NoPast(s) && WellFormed(s)
    ensures (forall k | 0 <= k <= |evs| :: NoPast(At(s, evs, k)))
            <==> (forall k | 0 <= k < |evs| && evs[k] == Tick(false) ::
                    Clean(At(s, evs, k).intrs, At(s, evs, k).icount))
  {
    hide NoPast, WellFormed, Clean, Step, Run;
    assert At(s, evs, 0) == s by { AtZero(s, evs); }
    if forall k | 0 <= k <= |evs| :: NoPast(At(s, evs, k)) {
      forall k | 0 <= k < |evs| && evs[k] == Tick(false)
        ensures Clean(At(s, evs, k).intrs, At(s, evs, k).icount)
      {
        RunWellFormed(s, evs, k);
        AtNext(s, evs, k);
        assert NoPast(At(s, evs, k)) && NoPast(At(s, evs, k + 1));
        TickMissesNoneIff(At(s, evs, k));
      }
    }
    if forall k | 0 <= k < |evs| && evs[k] == Tick(false) :: Clean(At(s, evs, k).intrs, At(s, evs, k).icount) {
      forall k | 0 <= k <= |evs|
        ensures NoPast(At(s, evs, k))
      {
        CleanRun(s, evs, k);
      }
    }
  }

  lemma AtZero(s: State, evs: seq<Event>)
    ensures At(s, evs, 0) == s
  {
  }

  lemma {:induction false} CleanRun(s: State, evs: seq<Event>, k: nat)
    requires NoPast(s) && WellFormed(s) && k <= |evs|
    requires forall i | 0 <= i < |evs| && evs[i] == Tick(false) :: Clean(At(s, evs, i).intrs, At(s, evs, i).icount)
    ensures NoPast(At(s, evs, k))
  {
    hide NoPast, WellFormed, Clean, Step, Run;
    AtZero(s, evs);
    if k > 0 {
      CleanRun(s, evs, k - 1);
      RunWellFormed(s, evs, k - 1);
      AtNext(s, evs, k - 1);
      if evs[k - 1] == Tick(false) {
        TickMissesNoneIff(At(s, evs, k - 1));
      } else {
        OthersMissNone(At(s, evs, k - 1), evs[k - 1]);
      }
    }
  }

  /** One missed interrupt silences the scheduler: until it is disabled nothing is dispatched any more,
      whatever is added or disabled besides, and passes of the loop alone leave the table as it is. */
  lemma {:induction false} MissedSilences(s: State, evs: seq<Event>, j: nat)
    requires j < |s.intrs| && s.intrs[j].enabled && s.intrs[j].due < s.icount && Disable(j) !in evs
    ensures var t := Run(s, evs);
            && j < |t.intrs| && t.intrs[j] == s.intrs[j] && t.icount >= s.icount && !Dispatches(t)
            && ((forall ev | ev in evs :: ev.Tick?) ==> t.intrs == s.intrs)
    decreases |evs|
  {
    hide Least;
    if evs == [] {
      MissedBlocks(s, j);
    } else {
      var n := |evs| - 1;
      assert evs[n] in evs;
      MissedSilences(s, evs[..n], j);
      MissedBlocks(Run(s, evs), j);
    }
  }

  /** An entry due in the past comes before every entry due now. */
  lemma MissedBlocks(s: State, j: nat)
    requires j < |s.intrs| && s.intrs[j].enabled && s.intrs[j].due < s.icount
    ensures !Dispatches(s)
  {
    assert Before(s.intrs, Least(s.intrs), j);
  }

  /** The run that shows it: two one-shots due at the same instruction. */
  lemma TwoOneShotsCollide()
    ensures var s := Run(State([], 0), [Add(0, 1, false), Add(0, 2, false), Tick(false)]);
            s.icount == 1 && s.intrs == [Intr(1, 0, false, false, 0), Intr(2, 0, true, false, 0)]
  {
    hide Step, Run;
    var start, evs := State([], 0), [Add(0, 1, false), Add(0, 2, false), Tick(false)];
    AtZero(start, evs);
    AtNext(start, evs, 0);
    AtNext(start, evs, 1);
    AtNext(start, evs, 2);
    assert evs[..3] == evs;
    TwoDue(At(start, evs, 0), At(start, evs, 1), At(start, evs, 2));
  }

  lemma TwoDue(s: State, t: State, u: State)
    requires s == State([], 0) && t == Step(s, Add(0, 1, false)) && u == Step(t, Add(0, 2, false))
    ensures Step(u, Tick(false)) == State([Intr(1, 0, false, false, 0), Intr(2, 0, true, false, 0)], 1)
  {
    var a, b := Intr(1, 0, true, false, 0), Intr(2, 0, true, false, 0);
    assert t.intrs == [a] && FirstReusable([a]) == -1;
    assert u.intrs == [a, b];
    hide Least;
    LeastUnique([a, b], 0);
    FirstDue([a, b], 0);
    assert Dispatched([a, b], 0) == [a.(enabled := false), b];
  }

  lemma FirstDue(s: seq<Intr>, t: int)
    requires s != [] && DueAt(s[0], t) && !s[0].repeating
    ensures FirstOneShot(s, t) == 0
  {
  }

  // ----- which interrupts a dispatch serves

  /** A clean dispatch serves every due interrupt and no other, and raises the most urgent level. */
  lemma CleanDispatchServesAll(s: State)
    requires Dispatches(s) && Clean(s.intrs, s.icount)
    ensures var t := Dispatched(s.intrs, s.icount);
            forall j | 0 <= j < |s.intrs| ::
              t[j] == if !DueAt(s.intrs[j], s.icount) then s.intrs[j]
                      else if s.intrs[j].repeating then s.intrs[j].(due := s.icount + s.intrs[j].period)
                      else s.intrs[j].(enabled := false)
    ensures forall j | 0 <= j < |s.intrs| && DueAt(s.intrs[j], s.icount) ::
            s.intrs[Least(s.intrs)].irl <= s.intrs[j].irl
  {
    var b := FirstOneShot(s.intrs, s.icount);
    forall j | 0 <= j < |s.intrs| && DueAt(s.intrs[j], s.icount)
      ensures j <= b && s.intrs[Least(s.intrs)].irl <= s.intrs[j].irl
    {
      assert Before(s.intrs, Least(s.intrs), j);
    }
  }

  // ----- repeating interrupts

  /** How often entry `j` has been due and moved on during a run. */
  function Firings(s: State, evs: seq<Event>, j: nat): nat
    decreases |evs|
  {
    if evs == [] then 0
    else
      var n := |evs| - 1;
      var u := Run(s, evs[..n]);
      Firings(s, evs[..n], j)
      + if evs[n].Tick? && Dispatches(u) && j < |u.intrs| && DueAt(u.intrs[j], u.icount)
           && j <= FirstOneShot(u.intrs, u.icount) then 1 else 0
  }

  /** Entry `j` repeats with this period, counting from `start`. */
  predicate Repeats(s: State, j: nat, period: int) {
    j < |s.intrs| && s.intrs[j].enabled && s.intrs[j].repeating && s.intrs[j].period == period
  }

  /** The due counts of a repeating interrupt are exactly start, start + period, start + 2 * period,
      and so on, one for each time it fires. */
  lemma {:induction false} Progression(s: State, evs: seq<Event>, j: nat, period: int)
    requires Repeats(s, j, period) && forall k | 0 <= k < |evs| :: evs[k] != Disable(j)
    ensures var t := Run(s, evs);
            Repeats(t, j, period) && t.intrs[j].due == s.intrs[j].due + Firings(s, evs, j) * period
    decreases |evs|
  {
    hide Step, Dispatches, DueAt, FirstOneShot;
    if evs != [] {
      var n := |evs| - 1;
      assert forall k | 0 <= k < n :: evs[..n][k] == evs[k];
      Progression(s, evs[..n], j, period);
      StepRepeats(Run(s, evs[..n]), evs[n], j, period);
      Distribute(Firings(s, evs[..n], j), period);
    }
  }

  lemma Distribute(n: nat, p: int)
    ensures (n + 1) * p == n * p + p
  {
  }

  lemma StepRepeats(u: State, ev: Event, j: nat, period: int)
    requires Repeats(u, j, period) && ev != Disable(j)
    ensures Repeats(Step(u, ev), j, period)
    ensures Step(u, ev).intrs[j].due == u.intrs[j].due
              + if ev.Tick? && Dispatches(u) && DueAt(u.intrs[j], u.icount) && j <= FirstOneShot(u.intrs, u.icount)
                then period else 0
  {
  }

  /** And it is never more than one period ahead: as long as nothing is missed, its due count is
      the next member of the progression. */
  lemma {:induction false} NeverAhead(s: State, evs: seq<Event>, j: nat, period: int)
    requires Repeats(s, j, period) && forall k | 0 <= k < |evs| :: evs[k] != Disable(j)
    requires s.intrs[j].due <= s.icount + period && period > 0
    ensures var t := Run(s, evs); Repeats(t, j, period) && t.intrs[j].due <= t.icount + period
    decreases |evs|
  {
    if evs != [] {
      var n := |evs| - 1;
      assert forall k | 0 <= k < n :: evs[..n][k] == evs[k];
      NeverAhead(s, evs[..n], j, period);
      StepRepeats(Run(s, evs[..n]), evs[n], j, period);
    }
  }
}
