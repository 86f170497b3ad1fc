/** The stack pointer and the stack limit register: every write of the stack pointer goes
    through one routine that checks it against the limit. */
module GlobalRegs {
  import opened Bits

  const NO_EXCEPTION: nat := 0
  const OPLIM_EXCEPTION: nat := 4
  const PRIV_INSTR_EXCEPTION: nat := 9

  /** Bit 31 of oplim switches the check on; the limit is a word address. */
  predicate Enabled(oplim: uint32) {
    oplim >= 0x8000_0000
  }

  function Limit(oplim: uint32): uint32 {
    oplim % 0x8000_0000 / 4 * 4
  }

  predicate Crosses(oplim: uint32, optop: uint32) {
    Enabled(oplim) && Limit(oplim) > optop
  }

  function Disabled(oplim: uint32): (r: uint32)
    ensures !Enabled(r) && Limit(r) == Limit(oplim)
  {
    oplim % 0x8000_0000
  }

  /** vSetupException: of two pending exceptions the one with the smaller number stays. */
  function Raise(current: nat, eid: nat): nat {
    if current == NO_EXCEPTION || eid < current then eid else current
  }

  /** What is pending after several exceptions have been raised. */
  function Pending(eids: seq<nat>): nat {
    if eids == [] then NO_EXCEPTION else Raise(Pending(eids[..|eids| - 1]), eids[|eids| - 1])
  }

  /** In whatever order exceptions are raised, the one with the smallest number of all is pending. */
  lemma {:induction false} PendingIsFirst(eids: seq<nat>)
    requires NO_EXCEPTION !in eids
    ensures Pending(eids) == NO_EXCEPTION <==> eids == []
    ensures eids != [] ==> Pending(eids) in eids && forall e | e in eids :: Pending(eids) <= e
  {
    if eids != [] {
      var n := |eids| - 1;
      PendingIsFirst(eids[..n]);
      assert forall e | e in eids :: e in eids[..n] || e == eids[n];
    }
  }

  datatype Limits = Limits(optop: uint32, oplim: uint32, exception: nat)

  /** What a write of both registers at once would do: only the new pair is compared. */
  function BothAtOnce(s: Limits, optop: uint32, oplim: uint32): Limits {
    var limit: uint32 := oplim / 4 * 4;
    if Crosses(limit, optop) then Limits(optop, Disabled(limit), Raise(s.exception, OPLIM_EXCEPTION))
    else Limits(optop, limit, s.exception)
  }

  class Registers {
    var optop: uint32
    var oplim: uint32
    var exception: nat
    var settingUpTrapFrame: bool

    /** An enabled limit is never above the stack pointer. */
    predicate Disciplined()
      reads this
    {
      !Crosses(oplim, optop)
    }

    ghost function Contents(): Limits
      reads this
    {
      Limits(optop, oplim, exception)
    }

    constructor ()
      ensures Disciplined() && exception == NO_EXCEPTION && !settingUpTrapFrame
    {
      optop, oplim, exception, settingUpTrapFrame := 0x1000, 0, NO_EXCEPTION, false;
    }

    method SetupException(eid: nat)
      modifies this`exception
      ensures exception == Raise(old(exception), eid)
    {
      if exception == NO_EXCEPTION || eid < exception {
        exception := eid;
      }
    }

    /** vUpdateGR (GR_optop, value). */
    method UpdateOptop(value: uint32)
      modifies this`optop, this`oplim, this`exception
      ensures !settingUpTrapFrame && Crosses(old(oplim), value) ==>
                Contents() == Limits(old(optop), Disabled(old(oplim)), Raise(old(exception), OPLIM_EXCEPTION))
      ensures settingUpTrapFrame || !Crosses(old(oplim), value) ==>
                Contents() == Limits(value, old(oplim), old(exception))
      ensures !settingUpTrapFrame && old(Disciplined()) ==> Disciplined()
      ensures var l := old(oplim);
              var refused := !settingUpTrapFrame && l >= 0x8000_0000 && l - 0x8000_0000 - l % 4 > value;
              && optop == (if refused then old(optop) else value)
              && oplim == (if refused then l - 0x8000_0000 else l)
              && exception == if refused && (old(exception) == 0 || old(exception) > 4) then 4 else old(exception)
    {
      if settingUpTrapFrame {
        optop := value;
      } else {
        if oplim >= 0x8000_0000 && oplim % 0x8000_0000 / 4 * 4 > value {
          SetupException(OPLIM_EXCEPTION);
          oplim := oplim % 0x8000_0000;
          return;
        }
        optop := value;
      }
    }

    /** vUpdateGR (GR_oplim, value). */
    method UpdateOplim(value: uint32)
      modifies this`oplim, this`exception
      ensures Contents() == BothAtOnce(old(Contents()), old(optop), value)
      ensures Disciplined()
      ensures var l := value - value % 4;
              var refused := l >= 0x8000_0000 && l - 0x8000_0000 > optop;
              && optop == old(optop) && oplim == (if refused then l - 0x8000_0000 else l)
              && exception == if refused && (old(exception) == 0 || old(exception) > 4) then 4 else old(exception)
    {
      Aligned(value);
      oplim := value / 4 * 4;
      LimitOfMasked(value);
      if oplim >= 0x8000_0000 && oplim % 0x8000_0000 / 4 * 4 > optop {
        SetupException(OPLIM_EXCEPTION);
        oplim := oplim % 0x8000_0000;
      }
    }

    /** opc_priv_update_optop, given the two stack words it reads: three writes that amount to
        one. Without privilege nothing but the exception changes. */
    method PrivUpdateOptop(privileged: bool, newOptop: uint32, newOplim: uint32)
      requires !settingUpTrapFrame
      modifies this`optop, this`oplim, this`exception
      ensures privileged ==> Contents() == BothAtOnce(old(Contents()), newOptop, newOplim)
      ensures !privileged ==> Contents() == old(Contents()).(exception := Raise(old(exception), PRIV_INSTR_EXCEPTION))
      ensures privileged || old(Disciplined()) ==> Disciplined()
      ensures var l := newOplim - newOplim % 4;
              var refused := l >= 0x8000_0000 && l - 0x8000_0000 > newOptop;
              privileged ==>
                && optop == newOptop && oplim == (if refused then l - 0x8000_0000 else l)
                && exception == if refused && (old(exception) == 0 || old(exception) > 4) then 4 else old(exception)
      ensures !privileged ==>
                && optop == old(optop) && oplim == old(oplim)
                && exception == if old(exception) == 0 || old(exception) > 9 then 9 else old(exception)
    {
      if !privileged {
        SetupException(PRIV_INSTR_EXCEPTION);
        return;
      }
      UpdateOplim(newOplim % 0x8000_0000);
      UpdateOptop(newOptop);
      UpdateOplim(newOplim);
      UpdateOptop(optop);
    }

    /** Any sequence of writes outside trap-frame setup keeps the limit below the stack pointer. */
    method Writes(ws: seq<RegWrite>)
      requires Disciplined() && !settingUpTrapFrame
      modifies this
      ensures Disciplined() && !settingUpTrapFrame
      ensures Contents() == AfterWrites(old(Contents()), ws)
    {
      var k := 0;
      while k < |ws|
        invariant k <= |ws| && Disciplined() && !settingUpTrapFrame
        invariant Contents() == AfterWrites(old(Contents()), ws[..k])
      {
        assert ws[..k + 1][..k] == ws[..k];
        match ws[k] {
          case Optop(v) => UpdateOptop(v);
          case Oplim(v) => UpdateOplim(v);
          case Both(v, l) => PrivUpdateOptop(true, v, l);
        }
        k := k + 1;
      }
      assert ws[..k] == ws;
    }
  }

  lemma Aligned(value: uint32)
    ensures value / 4 * 4 == value - value % 4
    ensures value >= 0x8000_0000 ==> value % 0x8000_0000 / 4 * 4 == value - value % 4 - 0x8000_0000
    ensures value / 4 * 4 >= 0x8000_0000 <==> value >= 0x8000_0000
  {
  }

  lemma LimitOfMasked(value: uint32)
    ensures Limit(value / 4 * 4) == value / 4 * 4 % 0x8000_0000
  {
  }

  datatype RegWrite = Optop(v: uint32) | Oplim(v: uint32) | Both(v: uint32, l: uint32)

  function AfterWrite(s: Limits, w: RegWrite): Limits {
    match w
    case Optop(v) =>
      if Crosses(s.oplim, v) then Limits(s.optop, Disabled(s.oplim), Raise(s.exception, OPLIM_EXCEPTION))
      else s.(optop := v)
    case Oplim(v) => BothAtOnce(s, s.optop, v)
    case Both(v, l) => BothAtOnce(s, v, l)
  }

  function AfterWrites(s: Limits, ws: seq<RegWrite>): Limits {
    if ws == [] then s else AfterWrite(AfterWrites(s, ws[..|ws| - 1]), ws[|ws| - 1])
  }

  predicate Offends(s: Limits, w: RegWrite) {
    match w
    case Optop(v) => Crosses(s.oplim, v)
    case Oplim(v) => Crosses(v, s.optop)
    case Both(v, l) => Crosses(l, v)
  }

  lemma OneWrite(s: Limits, w: RegWrite)
    ensures AfterWrite(s, w).exception != NO_EXCEPTION <==> s.exception != NO_EXCEPTION || Offends(s, w)
    ensures !Crosses(s.oplim, s.optop) ==> !Crosses(AfterWrite(s, w).oplim, AfterWrite(s, w).optop)
  {
    hide Crosses, Disabled;
    DisabledNeverCrosses(s.oplim, s.optop);
    if w.Oplim? {
      var limit: uint32 := w.v / 4 * 4;
      MaskedCrosses(w.v, s.optop);
      DisabledNeverCrosses(limit, s.optop);
    } else if w.Both? {
      var limit: uint32 := w.l / 4 * 4;
      MaskedCrosses(w.l, w.v);
      DisabledNeverCrosses(limit, w.v);
    }
  }

  lemma MaskedCrosses(limit: uint32, optop: uint32)
    ensures Crosses(limit / 4 * 4, optop) <==> Crosses(limit, optop)
  {
    var q, r := limit / 4, limit % 4;
    assert limit % 0x8000_0000 / 4 == (limit / 4 * 4) % 0x8000_0000 / 4;
  }

  lemma DisabledNeverCrosses(limit: uint32, optop: uint32)
    ensures !Crosses(Disabled(limit), optop)
  {
  }

  /** Write `k` of a run puts an enabled limit above the stack pointer. */
  predicate OffendsAt(s: Limits, ws: seq<RegWrite>, k: nat)
    requires k < |ws|
  {
    Offends(AfterWrites(s, ws[..k]), ws[k])
  }

  /** A limit exception is raised by a run exactly if some write put an enabled limit above the
      stack pointer at the moment of that write. */
  lemma {:induction false} ExceptionIff(s: Limits, ws: seq<RegWrite>)
    requires s.exception == NO_EXCEPTION && !Crosses(s.oplim, s.optop)
    ensures !Crosses(AfterWrites(s, ws).oplim, AfterWrites(s, ws).optop)
    ensures AfterWrites(s, ws).exception != NO_EXCEPTION <==> exists k :: 0 <= k < |ws| && OffendsAt(s, ws, k)
  {
    hide AfterWrite, Offends, Crosses;
    if ws != [] {
      var n := |ws| - 1;
      ExceptionIff(s, ws[..n]);
      OneWrite(AfterWrites(s, ws[..n]), ws[n]);
      forall k | 0 <= k < n
        ensures OffendsAt(s, ws[..n], k) == OffendsAt(s, ws, k)
      {
        assert ws[..n][..k] == ws[..k];
      }
      assert OffendsAt(s, ws, n) == Offends(AfterWrites(s, ws[..n]), ws[n]);
      if k :| 0 <= k < n && OffendsAt(s, ws[..n], k) {
        assert OffendsAt(s, ws, k);
      }
      if k :| 0 <= k < |ws| && OffendsAt(s, ws, k) {
        assert k < n ==> OffendsAt(s, ws[..n], k);
      }
    }
  }

  /** Two plain writes are no substitute for the update of both registers: each order raises an
      exception on the way between two allowed pairs. */
  lemma OrderOfTwoWritesMatters()
    ensures
      var high, low := Limits(0x2000, 0x8000_2000, NO_EXCEPTION), Limits(0x1000, 0x8000_1000, NO_EXCEPTION);
      && AfterWrite(high, Both(0x1000, 0x8000_1000)) == low
      && AfterWrite(low, Both(0x2000, 0x8000_2000)) == high
      && AfterWrites(high, [Optop(0x1000), Oplim(0x8000_1000)]).exception == OPLIM_EXCEPTION
      && AfterWrites(low, [Oplim(0x8000_2000), Optop(0x2000)]).exception == OPLIM_EXCEPTION
  {
    var high, low := Limits(0x2000, 0x8000_2000, NO_EXCEPTION), Limits(0x1000, 0x8000_1000, NO_EXCEPTION);
    var down, up := [Optop(0x1000), Oplim(0x8000_1000)], [Oplim(0x8000_2000), Optop(0x2000)];
    assert down[..1] == [Optop(0x1000)] && down[..1][..0] == [];
    assert up[..1] == [Oplim(0x8000_2000)] && up[..1][..0] == [];
    assert AfterWrites(high, down[..1]).exception == OPLIM_EXCEPTION;
    assert AfterWrites(low, up[..1]).exception == OPLIM_EXCEPTION;
  }
}
