/** The interrupt scheduler and the part of the main loop that drives it. */
module Interrupts {
  import opened IntrTable

  const MAX_INTRS: nat := 1000

  /** What a pass of the main loop does after the scheduler has had its turn. */
  datatype Pass = NmiTrap | LevelTrap(irl: nat) | Sleeps | Executes

  class Scheduler {
    const intrs: array<Intr>
    var lastSet: int
    var nextId: int
    var nextAt: int
    var icount: int
    var irlState: nat
    var nmiState: bool
    var powerDown: bool

    ghost function Abs(): State
      reads this, intrs
      requires -1 <= lastSet < intrs.Length
    {
      State(intrs[..lastSet + 1], icount)
    }

    /** The selected entry is the least of the table. */
    ghost predicate Valid()
      reads this, intrs
    {
      && intrs.Length == MAX_INTRS && -1 <= lastSet < intrs.Length
      && 0 <= icount
      && Selected()
    }

    ghost predicate Selected()
      reads this, intrs
      requires -1 <= lastSet < intrs.Length
    {
      && nextId == Least(Abs().intrs)
      && nextAt == if nextId == -1 then -1 else intrs[nextId].due
    }

    /** intr_init_module, with a zeroed table. */
    constructor ()
      ensures Valid() && Abs() == State([], 0) && irlState == 0 && !nmiState && !powerDown
      ensures fresh(intrs)
    {
      intrs := new Intr[1000](_ => Intr(0, 0, false, false, 0));
      lastSet, nextId, nextAt, icount, irlState, nmiState, powerDown := -1, -1, -1, 0, 0, false, false;
      new;
      assert intrs[..0] == [];
    }

    /** intr_schedule_next. */
    method ScheduleNext()
      requires -1 <= lastSet < intrs.Length
      modifies this`nextId, this`nextAt
      ensures Selected()
      ensures nextId == -1 ==> nextAt == -1 && forall j | 0 <= j <= lastSet :: !intrs[j].enabled
      ensures nextId != -1 ==>
                && 0 <= nextId <= lastSet && intrs[nextId].enabled && nextAt == intrs[nextId].due
                && forall j | 0 <= j <= lastSet && intrs[j].enabled ::
                     || intrs[nextId].due < intrs[j].due
                     || (intrs[nextId].due == intrs[j].due
                         && (intrs[nextId].irl < intrs[j].irl || (intrs[nextId].irl == intrs[j].irl && nextId <= j)))
    {
      hide Least, Before;
      nextId := -1;
      var i := 0;
      LeastNone(intrs[..0]);
      while i <= lastSet
        invariant 0 <= i <= lastSet + 1 && nextId == Least(intrs[..i])
      {
        LeastNext(intrs[..i], intrs[i]);
        assert intrs[..i + 1] == intrs[..i] + [intrs[i]];
        if intrs[i].enabled {
          if nextId == -1 {
            nextId := i;
          } else if intrs[i].due < intrs[nextId].due {
            nextId := i;
          } else if intrs[i].due == intrs[nextId].due {
            if intrs[i].irl < intrs[nextId].irl {
              nextId := i;
            }
          }
        }
        i := i + 1;
      }
      nextAt := if nextId == -1 then -1 else intrs[nextId].due;
      LeastSpelledOut(intrs[..lastSet + 1]);
      assert forall j | 0 <= j <= lastSet :: intrs[..lastSet + 1][j] == intrs[j];
    }

    /** The new entry stands in `slot`, the first that is neither enabled nor repeating, or a new one
        behind all the others; no other entry has changed. */
    twostate predicate Placed(slot: nat, count: int, irl: int, repeating: bool)
      requires -1 <= lastSet < intrs.Length && -1 <= old(lastSet) < intrs.Length && slot < intrs.Length
      reads this, intrs
    {
      && intrs[slot].due == icount + count && intrs[slot].irl == irl && intrs[slot].enabled
      && intrs[slot].repeating == repeating && intrs[slot].period == count
      && (forall k | 0 <= k < intrs.Length && k != slot :: intrs[k] == old(intrs[k]))
      && (forall k | 0 <= k < slot :: old(intrs[k].enabled) || old(intrs[k].repeating))
      && if slot <= old(lastSet)
         then lastSet == old(lastSet) && !old(intrs[slot].enabled) && !old(intrs[slot].repeating)
         else slot == lastSet == old(lastSet) + 1
    }

    /** intr_add. The guard on the table size lets the slot behind the last one through, so the
        caller has to see to it that there is room. */
    method Add(count: int, irl: int, repeating: bool)
      requires Valid()
      requires lastSet + 1 < intrs.Length || FirstReusable(Abs().intrs) != -1
      modifies this`lastSet, this`nextId, this`nextAt, intrs
      ensures Valid() && Abs() == Step(old(Abs()), IntrTable.Add(count, irl, repeating))
      ensures irl < 0 || irl > 15 || count < 0 || (count == 0 && repeating) ==>
                lastSet == old(lastSet) && intrs[..] == old(intrs[..])
      ensures 0 <= irl <= 15 && 0 <= count && (count > 0 || !repeating) ==>
                exists slot: nat | slot < intrs.Length :: Placed(slot, count, irl, repeating)
    {
      hide Least, Before, FirstReusable, Added, Selected;
      AddRefused(Abs(), count, irl, repeating);
      if irl < 0 || irl > 15 {
        return;
      }
      if count < 0 {
        return;
      }
      if count == 0 && repeating {
        return;
      }
      ghost var was := Abs();
      var slot := -1;
      var i := 0;
      while i <= lastSet
        invariant 0 <= i <= lastSet + 1
        invariant forall j | 0 <= j < i :: !Reusable(intrs[j])
      {
        if !intrs[i].enabled && !intrs[i].repeating {
          slot := i;
          break;
        }
        i := i + 1;
      }
      ReusableIs(was.intrs, slot);
      if slot == -1 {
        if lastSet >= MAX_INTRS {
          return;
        }
        slot := lastSet + 1;
        lastSet := lastSet + 1;
      }
      intrs[slot] := Intr(irl, icount + count, true, repeating, count);
      AddedIs(was, count, irl, repeating, slot, intrs[..lastSet + 1]);
      ScheduleNext();
      assert Placed(slot, count, irl, repeating);
    }

    /** intr_disable; any slot of the array may be named. */
    method Disable(id: nat)
      requires Valid() && id < MAX_INTRS
      modifies this`nextId, this`nextAt, intrs
      ensures Valid() && Abs() == Step(old(Abs()), IntrTable.Disable(id))
      ensures intrs[id] == old(intrs[id]).(enabled := false)
      ensures forall k | 0 <= k < intrs.Length && k != id :: intrs[k] == old(intrs[k])
    {
      ghost var was := Abs();
      intrs[id] := intrs[id].(enabled := false);
      assert Abs().intrs == Step(was, IntrTable.Disable(id)).intrs;
      ScheduleNext();
    }

    /** vSetInterrupt. */
    method SetInterrupt(irl: int)
      modifies this`irlState, this`nmiState
      ensures irlState == (if irl > 0 then irl else old(irlState)) && nmiState == (irl <= 0 || old(nmiState))
    {
      if irl > 0 {
        irlState := irl;
      } else {
        nmiState := true;
      }
    }

    /** intr_dispatch: raises the level of the selected entry, then moves the due entries on. */
    method Dispatch()
      requires Valid() && Dispatches(Abs())
      modifies this`irlState, this`nmiState, intrs
      ensures Abs().intrs == Dispatched(old(Abs()).intrs, icount)
      ensures var irl := old(intrs[nextId]).irl;
              irlState == (if irl > 0 then irl else old(irlState)) && nmiState == (irl <= 0 || old(nmiState))
    {
      hide Least, Dispatched, Before;
      SetInterrupt(intrs[nextId].irl);
      MoveOn();
    }

    /** The loop of intr_dispatch over all entries due at this instruction count. */
    method MoveOn()
      requires -1 <= lastSet < intrs.Length
      modifies intrs
      ensures Abs().intrs == Dispatched(old(Abs()).intrs, icount)
    {
      hide Least, Dispatched, FirstOneShot, Fired, Before;
      ghost var was, b := Abs().intrs, FirstOneShot(Abs().intrs, icount);
      var i := 0;
      while i <= lastSet
        invariant 0 <= i <= lastSet + 1 && i <= b
        invariant forall k | 0 <= k < i :: intrs[k] == Fired(was[k], k, b, icount)
        invariant forall k | i <= k <= lastSet :: intrs[k] == was[k]
      {
        OneShotIs(was, icount, i);
        if intrs[i].enabled {
          if intrs[i].due == icount {
            if intrs[i].repeating {
              intrs[i] := intrs[i].(due := icount + intrs[i].period);
            } else {
              intrs[i] := intrs[i].(enabled := false);
              break;
            }
          }
        }
        i := i + 1;
      }
      DispatchedIs(was, icount, i, Abs().intrs);
    }

    /** The scheduler's turn at the head of the loop. */
    method Head()
      requires Valid()
      modifies this`irlState, this`nmiState, this`nextId, this`nextAt, intrs
      ensures Valid()
      ensures Abs().intrs == if Dispatches(old(Abs())) then Dispatched(old(Abs()).intrs, icount) else old(Abs()).intrs
      ensures old(Dispatches(Abs())) ==>
                var irl := old(intrs[nextId]).irl;
                irlState == (if irl > 0 then irl else old(irlState)) && nmiState == (irl <= 0 || old(nmiState))
      ensures !old(Dispatches(Abs())) ==> irlState == old(irlState) && nmiState == old(nmiState)
    {
      hide Least, Dispatched, Before, Dispatches;
      DispatchIff(Abs().intrs, icount);
      if icount == nextAt {
        Dispatch();
        ScheduleNext();
      }
    }

    /** One pass of the main loop: `ie` and `pil` are the interrupt enable bit and the level of the
        processor status register. The instruction counter moves only if an instruction executes. */
    method LoopPass(ie: bool, pil: nat) returns (p: Pass)
      requires Valid()
      modifies this, intrs
      ensures Valid() && Abs() == Step(old(Abs()), Tick(p != Executes))
      ensures icount == old(icount) + if p == Executes then 1 else 0
      ensures old(Dispatches(Abs())) ==>
                var irl := old(intrs[nextId]).irl;
                irlState == (if irl > 0 then irl else old(irlState)) && nmiState == (irl <= 0 || old(nmiState))
      ensures !old(Dispatches(Abs())) ==> irlState == old(irlState) && nmiState == old(nmiState)
      ensures p == (if ie && nmiState then NmiTrap else if ie && irlState > pil then LevelTrap(irlState)
                    else if old(powerDown) then Sleeps else Executes)
      ensures powerDown == (old(powerDown) && !p.NmiTrap? && !p.LevelTrap?)
    {
      hide Least, Dispatched, Before, Dispatches;
      Head();
      if ie {
        if nmiState {
          powerDown := false;
          return NmiTrap;
        }
        if irlState > pil {
          powerDown := false;
          return LevelTrap(irlState);
        }
      }
      if powerDown {
        return Sleeps;
      }
      icount := icount + 1;
      p := Executes;
    }
  }

  lemma LeastNone(s: seq<Intr>)
    ensures s == [] ==> Least(s) == -1
  {
  }

  lemma LeastNext(s: seq<Intr>, x: Intr)
    ensures var r := Least(s);
            -1 <= r < |s| && Least(s + [x]) ==
            if !x.enabled || (r != -1 && (s[r].due < x.due || (s[r].due == x.due && s[r].irl <= x.irl))) then r
            else |s|
  {
    assert (s + [x])[..|s|] == s;
  }

  lemma LeastSpelledOut(s: seq<Intr>)
    ensures var r := Least(s);
            && -1 <= r < |s|
            && (r == -1 ==> forall j | 0 <= j < |s| :: !s[j].enabled)
            && (r != -1 ==>
                 && s[r].enabled
                 && forall j | 0 <= j < |s| && s[j].enabled ::
                      s[r].due < s[j].due
                      || (s[r].due == s[j].due && (s[r].irl < s[j].irl || (s[r].irl == s[j].irl && r <= j))))
  {
    var r := Least(s);
    assert r != -1 ==> forall j | 0 <= j < |s| && s[j].enabled :: Before(s, r, j);
  }

  lemma AddRefused(s: State, count: int, irl: int, repeating: bool)
    ensures irl < 0 || irl > 15 || count < 0 || (count == 0 && repeating) ==> Added(s, count, irl, repeating) == s.intrs
  {
  }

  /** The table after the write of a new entry. */
  lemma AddedIs(s: State, count: int, irl: int, repeating: bool, slot: nat, t: seq<Intr>)
    requires 0 <= irl <= 15 && 0 <= count && (count > 0 || !repeating)
    requires slot == if FirstReusable(s.intrs) == -1 then |s.intrs| else FirstReusable(s.intrs)
    requires |t| == if slot == |s.intrs| then |s.intrs| + 1 else |s.intrs|
    requires t[slot] == Intr(irl, s.icount + count, true, repeating, count)
    requires forall k | 0 <= k < |s.intrs| && k != slot :: t[k] == s.intrs[k]
    ensures t == Added(s, count, irl, repeating)
  {
    hide FirstReusable;
  }

  lemma ReusableIs(s: seq<Intr>, r: int)
    requires -1 <= r < |s|
    requires r == -1 ==> forall j | 0 <= j < |s| :: !Reusable(s[j])
    requires r != -1 ==> Reusable(s[r]) && forall j | 0 <= j < r :: !Reusable(s[j])
    ensures r == FirstReusable(s)
  {
    var f := FirstReusable(s);
    if r != -1 && f != -1 && f < r {
      assert false;
    }
  }

  /** The loop stands at or before the first due one-shot, and handles entry `i` accordingly. */
  lemma OneShotIs(s: seq<Intr>, t: int, i: nat)
    requires i < |s| && i <= FirstOneShot(s, t)
    ensures i == FirstOneShot(s, t) <==> DueAt(s[i], t) && !s[i].repeating
    ensures Fired(s[i], i, FirstOneShot(s, t), t)
            == if !DueAt(s[i], t) then s[i]
               else if s[i].repeating then s[i].(due := t + s[i].period) else s[i].(enabled := false)
  {
  }

  lemma DispatchedIs(s: seq<Intr>, t: int, i: nat, r: seq<Intr>)
    requires |r| == |s| && i <= |s| && i <= FirstOneShot(s, t)
    requires i < |s| ==> i == FirstOneShot(s, t) && r[i] == s[i].(enabled := false)
    requires forall k | 0 <= k < i :: r[k] == Fired(s[k], k, FirstOneShot(s, t), t)
    requires forall k | i < k < |s| :: r[k] == s[k]
    ensures r == Dispatched(s, t)
  {
    var b := FirstOneShot(s, t);
    forall k | 0 <= k < |s|
      ensures r[k] == Fired(s[k], k, b, t)
    {
    }
    hide Fired;
  }

  /** Comparing the counter with the announced count is asking whether the least entry is due. */
  lemma DispatchIff(s: seq<Intr>, t: int)
    requires 0 <= t
    ensures t == (if Least(s) == -1 then -1 else s[Least(s)].due) <==> Dispatches(State(s, t))
  {
  }
}
