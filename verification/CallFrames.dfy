/** Calls, returns and operand traffic on raw stack memory. */
module CallFrames {
  import opened Bits
  import opened GlobalRegs
  import opened FrameStack
  import opened JavaInts
  import opened StackShuffles

  datatype Outcome = Done | OplimTrap

  class Machine {
    const gr: Registers
    var pc: uint32
    var vars: uint32
    var frame: uint32
    var constPool: uint32
    var mem: seq<uint32>         // the word at byte address a is mem[a / 4]
    const base: uint32           // where the first activation starts
    ghost var stack: seq<Act>

    /** Memory and registers represent the list of activations. */
    ghost predicate Valid()
      reads this, gr
    {
      && InMemory(mem, base, stack)
      && vars == VarsOf(base, stack) && frame == FrameOf(base, stack)
      && gr.optop == OptopOf(base, stack) && constPool == Top(stack).cp
      && gr.Disciplined() && gr.exception == NO_EXCEPTION && !gr.settingUpTrapFrame
    }

    ghost function Abs(): State
      reads this
    {
      State(pc, stack)
    }

    /** The first activation, as reset code leaves it: no locals, five words, no operands. */
    constructor (gr: Registers, base: uint32, mem: seq<uint32>, pc: uint32, cp: uint32)
      requires base % 4 == 0 && 20 <= base && base / 4 < |mem|
      requires gr.optop == base - 20 && gr.Disciplined() && gr.exception == NO_EXCEPTION && !gr.settingUpTrapFrame
      ensures Valid() && this.gr == gr && this.base == base && this.mem == mem && this.pc == pc
      ensures |stack| == 1 && Top(stack).locals == [] && Top(stack).ops == [] && Top(stack).cp == cp
    {
      this.gr, this.base, this.mem, this.pc := gr, base, mem, pc;
      vars, frame, constPool := base, base, cp;
      var b := base / 4;
      ghost var top := Act([], [mem[b], mem[b - 1], mem[b - 2], mem[b - 3], mem[b - 4]], [], cp);
      stack := [top];
      new;
      Bottom(mem, base, top);
    }

    /** A stack word: the operand stack slot `offset` words above the stack pointer, and so on. */
    function Word(addr: int): uint32
      reads this
      requires 0 <= addr && addr / 4 < |mem|
    {
      mem[addr / 4]
    }

    /** A write to memory; a pending exception suppresses it. */
    method WriteWord(addr: int, v: uint32)
      requires 0 <= addr && addr / 4 < |mem|
      modifies this`mem
      ensures mem == if gr.exception == NO_EXCEPTION then old(mem)[addr / 4 := v] else old(mem)
    {
      if gr.exception == NO_EXCEPTION {
        mem := mem[addr / 4 := v];
      }
    }

    /** SIZE_AND_STACK_RETURN: the stack pointer moves if the limit allows it, the pc in any case. */
    method SizeAndStackReturn(size: nat, words: int)
      requires 0 <= gr.optop - 4 * words < 0x1_0000_0000 && !gr.settingUpTrapFrame
      modifies this`pc, gr`optop, gr`oplim, gr`exception
      ensures pc == Wrap32(old(pc) + size)
      ensures Crosses(old(gr.oplim), old(gr.optop) - 4 * words) ==>
                gr.Contents() == Limits(old(gr.optop), Disabled(old(gr.oplim)),
                  Raise(old(gr.exception), OPLIM_EXCEPTION))
      ensures !Crosses(old(gr.oplim), old(gr.optop) - 4 * words) ==>
                gr.Contents() == Limits(old(gr.optop) - 4 * words, old(gr.oplim), old(gr.exception))
    {
      gr.UpdateOptop(gr.optop - words * 4);
      pc := Wrap32(pc + size);
    }

    /** What is left by an instruction that the stack limit refused: only the limit has been
        switched off and the exception raised; memory still represents the same activations. */
    ghost predicate TrappedState(before: Limits, was: seq<Act>)
      reads this, gr
    {
      && stack == was && InMemory(mem, base, stack)
      && vars == VarsOf(base, stack) && frame == FrameOf(base, stack) && constPool == Top(stack).cp
      && gr.Contents() == Limits(before.optop, Disabled(before.oplim), OPLIM_EXCEPTION)
      && !gr.settingUpTrapFrame
    }

    /** The stack pointer has moved, the limit has not been crossed, nothing else happened. */
    twostate predicate Moved(size: nat)
      reads this, gr
    {
      Valid() && pc == Wrap32(old(pc) + size) && gr.oplim == old(gr.oplim)
    }

    /** What a rearranging instruction leaves: the rearranged operands, or everything as it was. */
    twostate predicate Rearranges(r: Outcome, kind: Kind)
      requires old(stack) != [] && Depth(kind) <= |Top(old(stack)).ops| && 4 * Growth(kind) <= old(gr.optop)
      reads this, gr
    {
      && (r == OplimTrap <==> Crosses(old(gr.oplim), old(gr.optop) - 4 * Growth(kind)))
      && pc == Wrap32(old(pc) + 1)
      && (r == Done ==> Moved(1) && stack == RearrangedTop(old(stack), kind))
      && (r == OplimTrap ==> TrappedState(old(gr.Contents()), old(stack)))
    }

    /** A constant pushed; `size` is the length of the instruction. */
    method Push(v: uint32, size: nat) returns (r: Outcome)
      requires Valid() && 4 <= gr.optop
      modifies this, gr
      ensures r == OplimTrap <==> Crosses(old(gr.oplim), old(gr.optop) - 4)
      ensures pc == Wrap32(old(pc) + size)
      ensures r == Done ==> Moved(size) && stack == Pushed(old(stack), v)
      ensures r == OplimTrap ==> TrappedState(old(gr.Contents()), old(stack))
    {
      hide Linked, HoldsAt, Crosses, Pushed;
      Grown(mem, base, stack, v);
      TopParts(mem, base, stack);
      WriteWord(gr.optop, v);
      r := if Crosses(gr.oplim, gr.optop - 4) then OplimTrap else Done;
      SizeAndStackReturn(size, 1);
      if r == Done {
        TopOfPushed(stack, v);
        stack := Pushed(stack, v);
      }
    }

    method Pop(size: nat)
      requires Valid() && 1 <= |Top(stack).ops|
      modifies this, gr
      ensures Moved(size) && stack == Argued(old(stack), 1) && mem == old(mem)
    {
      hide Linked, HoldsAt, InParts, Argued, InMemory, Crosses, VarsOf, FrameOf, Raise, Disabled, Wrap32;
      HigherIsSafe(gr.oplim, gr.optop);
      Shrunk(mem, base, stack, 1);
      TopParts(mem, base, stack);
      SizeAndStackReturn(size, -1);
      TopOfArgued(stack, 1);
      stack := Argued(stack, 1);
    }

    method Dup() returns (r: Outcome)
      requires Valid() && 1 <= |Top(stack).ops| && 4 <= gr.optop
      modifies this, gr
      ensures r == OplimTrap <==> Crosses(old(gr.oplim), old(gr.optop) - 4)
      ensures pc == Wrap32(old(pc) + 1)
      ensures r == Done ==> Moved(1) && stack == Pushed(old(stack), Top(old(stack)).ops[|Top(old(stack)).ops| - 1])
      ensures r == OplimTrap ==> TrappedState(old(gr.Contents()), old(stack))
    {
      hide Linked, HoldsAt, InMemory, Crosses, Pushed, InParts, Raise, Disabled, VarsOf, FrameOf, OptopOf, Wrap32;
      OperandAt(mem, base, stack, 1);
      TopParts(mem, base, stack);
      r := Push(Word(gr.optop + 4), 1);
    }

    /** iload and its relatives. */
    method Load(offset: nat, size: nat) returns (r: Outcome)
      requires Valid() && offset < |Top(stack).locals| && 4 <= gr.optop
      modifies this, gr
      ensures r == OplimTrap <==> Crosses(old(gr.oplim), old(gr.optop) - 4)
      ensures pc == Wrap32(old(pc) + size)
      ensures r == Done ==> Moved(size) && stack == Pushed(old(stack), Top(old(stack)).locals[offset])
      ensures r == OplimTrap ==> TrappedState(old(gr.Contents()), old(stack))
    {
      hide Linked, HoldsAt, InMemory, Crosses, Pushed, InParts, Raise, Disabled;
      LocalAt(mem, base, stack, offset);
      TopParts(mem, base, stack);
      r := Push(Word(vars - 4 * offset), size);
    }

    /** lload and dload: both words are copied before the stack pointer moves. */
    method LoadTwo(offset: nat, size: nat) returns (r: Outcome)
      requires Valid() && offset + 1 < |Top(stack).locals| && 8 <= gr.optop
      modifies this, gr
      ensures r == OplimTrap <==> Crosses(old(gr.oplim), old(gr.optop) - 8)
      ensures pc == Wrap32(old(pc) + size)
      ensures r == Done ==>
                var locals := Top(old(stack)).locals;
                Moved(size) && stack == Pushed(Pushed(old(stack), locals[offset]), locals[offset + 1])
      ensures r == OplimTrap ==> TrappedState(old(gr.Contents()), old(stack))
    {
      hide Linked, HoldsAt, InMemory, Crosses, Pushed, InParts, OptopOf, VarsOf, FrameOf, Disabled, Wrap32, Top;
      NotEmpty(mem, base, stack);
      ghost var grown := Pushed(Pushed(stack, Top(stack).locals[offset]), Top(stack).locals[offset + 1]);
      TopParts(mem, base, stack);
      TwoLoaded(mem, base, stack, offset);
      WriteWord(gr.optop, Word(vars - 4 * offset));
      WriteWord(gr.optop - 4, Word(vars - 4 * offset - 4));
      r := if Crosses(gr.oplim, gr.optop - 8) then OplimTrap else Done;
      SizeAndStackReturn(size, 2);
      if r == Done {
        stack := grown;
      }
    }

    /** istore and its relatives. */
    method Store(offset: nat, size: nat)
      requires Valid() && offset < |Top(stack).locals| && 1 <= |Top(stack).ops|
      modifies this, gr
      ensures Moved(size) && stack == Stored(old(stack), offset, 1)
    {
      hide Linked, HoldsAt, InMemory, InParts, Stored, OptopOf, VarsOf, FrameOf, Wrap32, Top;
      NotEmpty(mem, base, stack);
      TopParts(mem, base, stack);
      OneStored(mem, base, stack, offset);
      WriteWord(vars - 4 * offset, Word(gr.optop + 4));
      SizeAndStackReturn(size, -1);
      stack := Stored(stack, offset, 1);
    }

    /** lstore and dstore. */
    method StoreTwo(offset: nat, size: nat)
      requires Valid() && offset + 1 < |Top(stack).locals| && 2 <= |Top(stack).ops|
      modifies this, gr
      ensures Moved(size) && stack == Stored(old(stack), offset, 2)
    {
      hide Linked, HoldsAt, InMemory, InParts, Stored, OptopOf, VarsOf, FrameOf, Wrap32, Top;
      NotEmpty(mem, base, stack);
      TopParts(mem, base, stack);
      TwoStored(mem, base, stack, offset);
      WriteWord(vars - 4 * offset, Word(gr.optop + 8));
      WriteWord(vars - 4 * offset - 4, Word(gr.optop + 4));
      SizeAndStackReturn(size, -2);
      stack := Stored(stack, offset, 2);
    }

    /** In the middle of a rearrangement of `was`: the operands are `ops`, or the move of the stack
        pointer was refused and nothing has changed since. */
    ghost predicate Copying(was: seq<Act>, ops: seq<uint32>, before: Limits)
      reads this, gr
    {
      && was != []
      && (gr.exception == NO_EXCEPTION ==> Valid() && stack == WithOps(was, ops) && gr.oplim == before.oplim)
      && (gr.exception != NO_EXCEPTION ==> TrappedState(before, was))
    }

    /** COPY_STACK_ITEM between two operands, counted from the top. */
    method CopyItem(dest: nat, src: nat, ghost was: seq<Act>, ghost ops: seq<uint32>, ghost before: Limits)
      returns (ghost copied: seq<uint32>)
      requires 1 <= dest <= |ops| && 1 <= src <= |ops|
      requires gr.optop / 4 + dest < |mem| && gr.optop / 4 + src < |mem| && Copying(was, ops, before)
      modifies this`mem, this`stack
      ensures |mem| == |old(mem)| && copied == Copy(ops, dest, src) && Copying(was, copied, before)
    {
      hide Linked, HoldsAt, InMemory, InParts, Crosses, OptopOf, VarsOf, FrameOf, WithOps, Copy, Top, Disabled;
      copied := Copy(ops, dest, src);
      if gr.exception == NO_EXCEPTION {
        TopWithOps(was, ops);
        TopParts(mem, base, stack);
        OperandCopied(mem, base, stack, dest, src);
        TopWithOps(stack, copied);
      }
      WriteWord(gr.optop + 4 * dest, Word(gr.optop + 4 * src));
      if gr.exception == NO_EXCEPTION {
        stack := WithOps(was, copied);
      }
    }

    /** The stack pointer moved down first, so that a refused move leaves all operands alone. */
    method Lower(n: nat) returns (r: Outcome)
      requires Valid() && 4 * n <= gr.optop && gr.optop / 4 < |mem|
      modifies this`stack, gr`optop, gr`oplim, gr`exception
      ensures r == OplimTrap <==> Crosses(old(gr.oplim), old(gr.optop) - 4 * n)
      ensures r == Done <==> gr.exception == NO_EXCEPTION
      ensures gr.optop <= old(gr.optop)
      ensures Copying(old(stack), Top(old(stack)).ops + Below(mem, old(gr.optop) / 4, n), old(gr.Contents()))
    {
      hide Linked, HoldsAt, InMemory, InParts, Crosses, OptopOf, VarsOf, FrameOf, WithOps, Top, Disabled, Below;
      NotEmpty(mem, base, stack);
      TopParts(mem, base, stack);
      Lowered(mem, base, stack, n);
      RaisedIsPending(gr.exception);
      ghost var grown := WithOps(stack, Top(stack).ops + Below(mem, gr.optop / 4, n));
      TopWithOps(stack, Top(stack).ops + Below(mem, gr.optop / 4, n));
      r := if Crosses(gr.oplim, gr.optop - 4 * n) then OplimTrap else Done;
      gr.UpdateOptop(gr.optop - 4 * n);
      if r == Done {
        stack := grown;
      }
    }

    /** The end of a rearrangement: the stack pointer stays where it is. */
    method EndCopies(ghost was: seq<Act>, ghost ops: seq<uint32>, ghost before: Limits)
      requires Copying(was, ops, before)
      modifies this`pc, gr`optop, gr`oplim, gr`exception
      ensures pc == Wrap32(old(pc) + 1) && gr.exception == old(gr.exception) && Copying(was, ops, before)
    {
      hide Linked, HoldsAt, InMemory, InParts, Crosses, OptopOf, VarsOf, FrameOf, WithOps, Top, Disabled;
      DisabledNeverCrosses(before.oplim, gr.optop);
      SizeAndStackReturn(1, 0);
    }

    /** There are stack words above the pointer for each operand and two more. */
    lemma CopyRoom()
      requires Valid()
      ensures stack != [] && gr.optop / 4 + |Top(stack).ops| + 2 < |mem|
    {
      hide Linked, HoldsAt, InParts, Flat;
      TopParts(mem, base, stack);
    }

    lemma CopyingMeans(was: seq<Act>, ops: seq<uint32>, before: Limits)
      requires Copying(was, ops, before)
      ensures gr.exception == NO_EXCEPTION ==> Valid() && stack == WithOps(was, ops) && gr.oplim == before.oplim
      ensures gr.exception != NO_EXCEPTION ==> TrappedState(before, was)
    {
    }

    method DupX1() returns (r: Outcome)
      requires Valid() && 2 <= |Top(stack).ops| && 4 <= gr.optop
      modifies this, gr
      ensures Rearranges(r, Kind.DupX1)
    {
      hide Valid, Copying, Crosses, WithOps, Top, Below, Copy, Wrap32;
      CopyRoom();
      ghost var was, before, junk := stack, gr.Contents(), Below(mem, gr.optop / 4, 1);
      ghost var ops := Top(stack).ops + junk;
      CopiesDupX1(Top(stack).ops, junk);
      r := Lower(1);
      ops := CopyItem(1, 2, was, ops, before);
      ops := CopyItem(2, 3, was, ops, before);
      ops := CopyItem(3, 1, was, ops, before);
      EndCopies(was, ops, before);
      RearrangedIs(was, Kind.DupX1);
      CopyingMeans(was, ops, before);
    }

    method DupX2() returns (r: Outcome)
      requires Valid() && 3 <= |Top(stack).ops| && 4 <= gr.optop
      modifies this, gr
      ensures Rearranges(r, Kind.DupX2)
    {
      hide Valid, Copying, Crosses, WithOps, Top, Below, Copy, Wrap32;
      CopyRoom();
      ghost var was, before, junk := stack, gr.Contents(), Below(mem, gr.optop / 4, 1);
      ghost var ops := Top(stack).ops + junk;
      CopiesDupX2(Top(stack).ops, junk);
      r := Lower(1);
      ops := CopyItem(1, 2, was, ops, before);
      ops := CopyItem(2, 3, was, ops, before);
      ops := CopyItem(3, 4, was, ops, before);
      ops := CopyItem(4, 1, was, ops, before);
      EndCopies(was, ops, before);
      RearrangedIs(was, Kind.DupX2);
      CopyingMeans(was, ops, before);
    }

    method Dup2X1() returns (r: Outcome)
      requires Valid() && 3 <= |Top(stack).ops| && 8 <= gr.optop
      modifies this, gr
      ensures Rearranges(r, Kind.Dup2X1)
    {
      hide Valid, Copying, Crosses, WithOps, Top, Below, Copy, Wrap32;
      CopyRoom();
      ghost var was, before, junk := stack, gr.Contents(), Below(mem, gr.optop / 4, 2);
      ghost var ops := Top(stack).ops + junk;
      CopiesDup2X1(Top(stack).ops, junk);
      r := Lower(2);
      ops := CopyItem(1, 3, was, ops, before);
      ops := CopyItem(2, 4, was, ops, before);
      ops := CopyItem(3, 5, was, ops, before);
      ops := CopyItem(4, 1, was, ops, before);
      ops := CopyItem(5, 2, was, ops, before);
      EndCopies(was, ops, before);
      RearrangedIs(was, Kind.Dup2X1);
      CopyingMeans(was, ops, before);
    }

    method Dup2X2() returns (r: Outcome)
      requires Valid() && 4 <= |Top(stack).ops| && 8 <= gr.optop
      modifies this, gr
      ensures Rearranges(r, Kind.Dup2X2)
    {
      hide Valid, Copying, Crosses, WithOps, Top, Below, Copy, Wrap32, TrappedState, RearrangedTop, Without, Last,
           Rearranged;
      CopyRoom();
      ghost var was, before, junk := stack, gr.Contents(), Below(mem, gr.optop / 4, 2);
      ghost var ops := Top(stack).ops + junk;
      CopiesDup2X2(Top(stack).ops, junk);
      r := Lower(2);
      ops := CopyItem(1, 3, was, ops, before);
      ops := CopyItem(2, 4, was, ops, before);
      ops := CopyItem(3, 5, was, ops, before);
      ops := CopyItem(4, 6, was, ops, before);
      ops := CopyItem(5, 1, was, ops, before);
      ops := CopyItem(6, 2, was, ops, before);
      EndCopies(was, ops, before);
      RearrangedIs(was, Kind.Dup2X2);
      CopyingMeans(was, ops, before);
    }

    method Dup2() returns (r: Outcome)
      requires Valid() && 2 <= |Top(stack).ops| && 8 <= gr.optop
      modifies this, gr
      ensures Rearranges(r, Kind.Dup2)
    {
      hide Linked, HoldsAt, InMemory, Crosses, InParts, OptopOf, VarsOf, FrameOf, Disabled, Wrap32, Top,
           RearrangedTop, Raise;
      NotEmpty(mem, base, stack);
      ghost var grown := RearrangedTop(stack, Kind.Dup2);
      TopParts(mem, base, stack);
      RaisedIsPending(gr.exception);
      TwoDoubled(mem, base, stack);
      WriteWord(gr.optop, Word(gr.optop + 8));
      WriteWord(gr.optop - 4, Word(gr.optop + 4));
      r := if Crosses(gr.oplim, gr.optop - 8) then OplimTrap else Done;
      SizeAndStackReturn(1, 2);
      if r == Done {
        stack := grown;
      }
    }

    /** The stack pointer stays, so the limit cannot refuse a swap. */
    method Swap()
      requires Valid() && 2 <= |Top(stack).ops|
      modifies this, gr
      ensures Rearranges(Done, Kind.Swap)
    {
      hide Linked, HoldsAt, InMemory, Crosses, InParts, OptopOf, VarsOf, FrameOf, Disabled, Wrap32, Top,
           RearrangedTop, Raise;
      NotEmpty(mem, base, stack);
      TopParts(mem, base, stack);
      TwoSwapped(mem, base, stack);
      var i := Word(gr.optop + 4);
      WriteWord(gr.optop + 4, Word(gr.optop + 8));
      WriteWord(gr.optop + 8, i);
      SizeAndStackReturn(1, 0);
      stack := RearrangedTop(stack, Kind.Swap);
    }

    method ExecuteRearrange(kind: Kind) returns (r: Outcome)
      requires Valid() && Depth(kind) <= |Top(stack).ops| && 4 * Growth(kind) <= gr.optop
      modifies this, gr
      ensures Rearranges(r, kind)
    {
      hide Valid, Crosses, Top, RearrangedTop, Wrap32, Disabled;
      r := Done;
      match kind
      case Swap => Swap();
      case Dup2 => r := Dup2();
      case DupX1 => r := DupX1();
      case DupX2 => r := DupX2();
      case Dup2X1 => r := Dup2X1();
      case Dup2X2 => r := Dup2X2();
    }

    /** setupMethodCall. Either the limit refuses the deepest stack pointer of the call, and
        nothing but the limit and the exception has changed, or none of the later writes of the
        stack pointer can be refused. */
    method SetupMethodCall(m: Method, nargs: nat) returns (r: Outcome)
      requires Valid() && Legal(Abs(), Invoke(m, nargs)) && m.nlocals + 20 <= gr.optop
      modifies this, gr
      ensures r == OplimTrap <==> Crosses(old(gr.oplim), old(gr.optop) - m.nlocals - 20)
      ensures r == OplimTrap ==> TrappedState(old(gr.Contents()), old(stack)) && pc == old(pc) && mem == old(mem)
      ensures r == OplimTrap ==> vars == old(vars) && frame == old(frame) && constPool == old(constPool)
      ensures r == Done ==> Valid() && gr.oplim == old(gr.oplim) && Next(base, old(Abs()), Invoke(m, nargs), Abs())
      ensures r == Done ==>
                && pc == m.code && constPool == m.constPool
                && vars == old(gr.optop) + nargs && frame == old(gr.optop) - m.nlocals && gr.optop == frame - 20
      ensures r == Done ==>
                var at := frame / 4;
                && 4 <= at < |mem| == |old(mem)|
                && mem[at] == (old(pc) + 3) % 0x1_0000_0000 && mem[at - 1] == old(vars)
                && mem[at - 2] == old(frame) && mem[at - 3] == old(constPool) && mem[at - 4] == m.addr
                && forall k | 0 <= k < |mem| && !(at - 4 <= k <= at) :: mem[k] == old(mem)[k]
    {
      hide Linked, HoldsAt, InMemory, InParts, Crosses, Called, Below, Saved, Raise, Argued, Disabled, OptopOf,
           VarsOf, FrameOf, Wrap32, Next, Top;
      NotEmpty(mem, base, stack);
      TopParts(mem, base, stack);
      var newFrame, newVars := gr.optop - m.nlocals, gr.optop + nargs;
      var newOptop := newFrame - 20;
      r := Probe(newOptop);
      if r == Done {
        EnterFrame(m, nargs, newFrame, newVars);
      }
    }

    /** The part of setupMethodCall that follows an accepted trial. */
    method EnterFrame(m: Method, nargs: nat, newFrame: uint32, newVars: uint32)
      requires Valid() && Legal(Abs(), Invoke(m, nargs)) && m.nlocals + 20 <= gr.optop
      requires newFrame == gr.optop - m.nlocals && newVars == gr.optop + nargs
      requires forall v: uint32 | newFrame - 20 <= v :: !Crosses(gr.oplim, v)
      modifies this, gr
      ensures Valid() && gr.oplim == old(gr.oplim) && Next(base, old(Abs()), Invoke(m, nargs), Abs())
      ensures pc == m.code && constPool == m.constPool
      ensures vars == newVars && frame == newFrame && gr.optop == newFrame - 20
      ensures var at := newFrame / 4;
              && 4 <= at < |mem| == |old(mem)|
              && mem[at] == (old(pc) + 3) % 0x1_0000_0000 && mem[at - 1] == old(vars)
              && mem[at - 2] == old(frame) && mem[at - 3] == old(constPool) && mem[at - 4] == m.addr
              && forall k | 0 <= k < |mem| && !(at - 4 <= k <= at) :: mem[k] == old(mem)[k]
    {
      hide Linked, HoldsAt, InMemory, InParts, Crosses, Called, Below, Saved, Argued, OptopOf, VarsOf, FrameOf,
           Wrap32, Next, Top, Raise, Disabled;
      NotEmpty(mem, base, stack);
      TopParts(mem, base, stack);
      Entered(mem, base, stack, pc, m, nargs / 4);
      ghost var junk := Below(mem, gr.optop / 4, m.nlocals / 4);
      ghost var stack' := Called(base, stack, pc, m, nargs / 4, junk);
      CalledShape(base, stack, pc, m, nargs / 4, junk);
      PcWraps(pc + 3);
      WordsBelow(gr.optop, m.nlocals);
      MakeRoom(m.nlocals / 4);
      WriteFive(Wrap32(pc + 3), vars, frame, constPool, m.addr);
      constPool, pc, vars, frame := m.constPool, m.code, newVars, newFrame;
      gr.UpdateOptop(newFrame - 20);
      stack := stack';
    }

    /** The trial write of the deepest stack pointer, taken back if it was accepted. */
    method Probe(newOptop: uint32) returns (r: Outcome)
      requires newOptop <= gr.optop && gr.exception == NO_EXCEPTION && !gr.settingUpTrapFrame
      modifies gr`optop, gr`oplim, gr`exception
      ensures r == OplimTrap <==> Crosses(old(gr.oplim), newOptop)
      ensures r == OplimTrap ==> gr.Contents() == Limits(old(gr.optop), Disabled(old(gr.oplim)), OPLIM_EXCEPTION)
      ensures r == Done ==>
                gr.Contents() == old(gr.Contents()) && forall v: uint32 | newOptop <= v :: !Crosses(gr.oplim, v)
    {
      hide Crosses, Disabled, Raise;
      var oldOptop := gr.optop;
      RaisedIsPending(gr.exception);
      gr.UpdateOptop(newOptop);
      if gr.exception != NO_EXCEPTION {
        return OplimTrap;
      }
      HigherIsSafe(gr.oplim, newOptop);
      gr.UpdateOptop(oldOptop);
      r := Done;
    }

    /** One write of the stack pointer for each local that is not an argument. */
    method MakeRoom(n: nat)
      requires 4 * n <= gr.optop && !gr.settingUpTrapFrame
      requires forall v: uint32 | gr.optop - 4 * n <= v :: !Crosses(gr.oplim, v)
      modifies gr`optop, gr`oplim, gr`exception
      ensures gr.Contents() == old(gr.Contents()).(optop := old(gr.optop) - 4 * n)
    {
      hide Crosses;
      var i := 0;
      while i < n
        invariant i <= n && gr.Contents() == old(gr.Contents()).(optop := old(gr.optop) - 4 * i)
      {
        gr.UpdateOptop(gr.optop - 4);
        i := i + 1;
      }
    }

    /** The five writes of a call, from the stack pointer downwards. */
    method WriteFive(returnPc: uint32, oldVars: uint32, oldFrame: uint32, oldPool: uint32, methodAddr: uint32)
      requires gr.optop % 4 == 0 && 16 <= gr.optop && gr.optop / 4 < |mem| && gr.exception == NO_EXCEPTION
      modifies this`mem
      ensures mem == Saved(old(mem), gr.optop / 4, [returnPc, oldVars, oldFrame, oldPool, methodAddr])
      ensures var at := gr.optop / 4;
              && |mem| == |old(mem)| && mem[at] == returnPc && mem[at - 1] == oldVars
              && mem[at - 2] == oldFrame && mem[at - 3] == oldPool && mem[at - 4] == methodAddr
              && forall k | 0 <= k < |mem| && !(at - 4 <= k <= at) :: mem[k] == old(mem)[k]
    {
      SavedWords(mem, gr.optop / 4, [returnPc, oldVars, oldFrame, oldPool, methodAddr]);
      WriteWord(gr.optop, returnPc);
      WriteWord(gr.optop - 4, oldVars);
      WriteWord(gr.optop - 8, oldFrame);
      WriteWord(gr.optop - 12, oldPool);
      WriteWord(gr.optop - 16, methodAddr);
    }

    /** The returns with no, one and two result words. The stack limit cannot refuse them. */
    method Return0()
      requires Valid() && Legal(Abs(), Return(0))
      modifies this, gr
      ensures Valid() && gr.oplim == old(gr.oplim) && Next(base, old(Abs()), Return(0), Abs())
      ensures var f := old(frame) / 4;
              && 3 <= f < |old(mem)| && pc == old(mem)[f] && vars == old(mem)[f - 1]
              && frame == old(mem)[f - 2] && constPool == old(mem)[f - 3]
      ensures gr.optop == old(vars) && mem == old(mem)
    {
      hide Linked, HoldsAt, InMemory, InParts, Crosses, OptopOf, VarsOf, FrameOf, WithResults, Raise, Disabled,
           Returned;
      ReturnShape(mem, base, stack, 0);
      HigherIsSafe(gr.oplim, gr.optop);
      pc := Word(frame);
      var varsTmp := Word(frame - 4);
      var optopTmp := vars;
      constPool := Word(frame - 12);
      frame := Word(frame - 8);
      vars := varsTmp;
      gr.UpdateOptop(optopTmp);
      stack := Returned(stack, 0);
    }

    method Return1()
      requires Valid() && Legal(Abs(), Return(1))
      modifies this, gr
      ensures Valid() && gr.oplim == old(gr.oplim) && Next(base, old(Abs()), Return(1), Abs())
      ensures var f := old(frame) / 4;
              && 3 <= f < |old(mem)| && pc == old(mem)[f] && vars == old(mem)[f - 1]
              && frame == old(mem)[f - 2] && constPool == old(mem)[f - 3]
      ensures var v, at := old(vars) / 4, old(gr.optop) / 4;
              && at + 2 < v < |old(mem)| && mem == old(mem)[v := old(mem)[at + 1]] && gr.optop == old(vars) - 4
    {
      hide Linked, HoldsAt, InMemory, InParts, Crosses, OptopOf, VarsOf, FrameOf, Copied, WithResults, Raise,
           Disabled, Returned;
      ReturnShape(mem, base, stack, 1);
      HigherIsSafe(gr.oplim, gr.optop);
      pc := Word(frame);
      var varsTmp := Word(frame - 4);
      CopyResults(1);
      var optopTmp := vars - 4;
      constPool := Word(frame - 12);
      frame := Word(frame - 8);
      gr.UpdateOptop(optopTmp);
      vars := varsTmp;
      stack := Returned(stack, 1);
    }

    method Return2()
      requires Valid() && Legal(Abs(), Return(2))
      modifies this, gr
      ensures Valid() && gr.oplim == old(gr.oplim) && Next(base, old(Abs()), Return(2), Abs())
      ensures var f := old(frame) / 4;
              && 3 <= f < |old(mem)| && pc == old(mem)[f] && vars == old(mem)[f - 1]
              && frame == old(mem)[f - 2] && constPool == old(mem)[f - 3]
      ensures var v, at := old(vars) / 4, old(gr.optop) / 4;
              && at + 2 < v < |old(mem)| && mem == old(mem)[v := old(mem)[at + 2]][v - 1 := old(mem)[at + 1]]
              && gr.optop == old(vars) - 8
    {
      hide Linked, HoldsAt, InMemory, InParts, Crosses, OptopOf, VarsOf, FrameOf, Copied, WithResults, Raise,
           Disabled, Returned;
      ReturnShape(mem, base, stack, 2);
      HigherIsSafe(gr.oplim, gr.optop);
      pc := Word(frame);
      var varsTmp := Word(frame - 4);
      CopyResults(2);
      var optopTmp := vars - 8;
      vars := varsTmp;
      constPool := Word(frame - 12);
      frame := Word(frame - 8);
      gr.UpdateOptop(optopTmp);
      stack := Returned(stack, 2);
    }

    /** The COPY_STACK_ITEM of a return: the result words go where the arguments were. */
    method CopyResults(results: nat)
      requires 1 <= results <= 2 && gr.optop % 4 == 0 && vars % 4 == 0
      requires gr.optop / 4 + 2 < |mem| && 2 <= vars / 4 < |mem| && gr.exception == NO_EXCEPTION
      modifies this`mem
      ensures mem == Copied(old(mem), gr.optop / 4, vars / 4, results)
      ensures var at, v := gr.optop / 4, vars / 4;
              && (results == 1 ==> mem == old(mem)[v := old(mem)[at + 1]])
              && (results == 2 && at + 2 < v ==> mem == old(mem)[v := old(mem)[at + 2]][v - 1 := old(mem)[at + 1]])
    {
      if results == 1 {
        WriteWord(vars, Word(gr.optop + 4));
      } else {
        WriteWord(vars, Word(gr.optop + 8));
        WriteWord(vars - 4, Word(gr.optop + 4));
      }
    }

    /** doTableSwitch: five word reads at most, one operand popped. */
    method DoTableSwitch()
      requires Valid() && 1 <= |Top(stack).ops| && |mem| == 0x4000_0000
      modifies this, gr
      ensures Valid() && gr.oplim == old(gr.oplim) && mem == old(mem) && stack == Argued(old(stack), 1)
      ensures pc == SwitchTarget(mem, old(pc), S32(Top(old(stack)).ops[|Top(old(stack)).ops| - 1]))
    {
      hide Linked, HoldsAt, InParts, InMemory, S32, Wrap32, VarsOf, FrameOf, OptopOf, Argued, Crosses, Raise, Disabled;
      OperandAt(mem, base, stack, 1);
      TopParts(mem, base, stack);
      var aligned := Wrap32(pc / 4 * 4 + 4);
      var default, low, high := S32(Word(aligned)), S32(Word(Wrap32(aligned + 4))), S32(Word(Wrap32(aligned + 8)));
      var index := S32(Word(gr.optop + 4));
      var offset: int;
      if index < low || index > high {
        offset := default;
      } else {
        offset := S32(Word(Wrap32(aligned + 12 + (index - low) * 4)));
      }
      pc := Wrap32(pc + offset);
      label jumped:
      Pop(0);
      SamePc(pc, old@jumped(pc));
    }

    /** One instruction: a step of the abstract machine unless the stack limit refuses it. */
    method Execute(step: Step) returns (r: Outcome)
      requires Valid() && Legal(Abs(), step) && Room(step)
      modifies this, gr
      ensures r == Done ==> Valid() && gr.oplim == old(gr.oplim) && Next(base, old(Abs()), step, Abs())
      ensures r == OplimTrap ==> TrappedState(old(gr.Contents()), old(stack))
      ensures r == OplimTrap <==> Refuses(old(gr.oplim), old(gr.optop), step)
    {
      hide InMemory, VarsOf, FrameOf, OptopOf, Crosses, Disabled, Next, Called, Returned, Argued, Stored, Pushed,
           WithTop, Wrap32, Raise;
      r := Done;
      match step
      case Invoke(m, nargs) => r := SetupMethodCall(m, nargs);
      case Return(results) =>
        if results == 0 {
          Return0();
        } else if results == 1 {
          Return1();
        } else {
          Return2();
        }
      case _ => r := ExecuteOperand(step);
    }

    method ExecuteOperand(step: Step) returns (r: Outcome)
      requires Valid() && Legal(Abs(), step) && Room(step) && !step.Invoke? && !step.Return?
      modifies this, gr
      ensures r == Done ==> Valid() && gr.oplim == old(gr.oplim) && Next(base, old(Abs()), step, Abs())
      ensures r == OplimTrap ==> TrappedState(old(gr.Contents()), old(stack))
      ensures r == OplimTrap <==> Refuses(old(gr.oplim), old(gr.optop), step)
    {
      hide InMemory, VarsOf, FrameOf, OptopOf, Crosses, Disabled, Called, Returned, Argued, Stored, Pushed, WithTop,
           Wrap32, Raise, Top, RearrangedTop, TrappedState, Depth, Growth, Words, Rest;
      NotEmpty(mem, base, stack);
      r := Done;
      match step
      case Push(v, size) => r := Push(v, size);
      case Pop(size) => Pop(size);
      case Dup => r := Dup();
      case Load(offset, count, size) =>
        if count == 1 {
          r := Load(offset, size);
        } else {
          r := LoadTwo(offset, size);
        }
        LoadedWords(old(stack), offset, count);
      case Store(offset, count, size) =>
        if count == 1 {
          Store(offset, size);
        } else {
          StoreTwo(offset, size);
        }
      case Rearrange(kind) => r := ExecuteRearrange(kind);
    }

    /** There is memory below the stack pointer for what the step pushes. */
    ghost predicate Room(step: Step)
      reads this, gr
    {
      Needs(step) <= gr.optop
    }

    /** The registers show the shape of the top activation, and whether it is the first one. */
    predicate CanExecute(step: Step)
      reads this, gr
    {
      var locals, ops := (vars - frame) / 4, (frame - 20 - gr.optop) / 4;
      match step
      case Push(_, _) => 4 <= gr.optop
      case Pop(_) => 1 <= ops
      case Dup => 1 <= ops && 4 <= gr.optop
      case Load(offset, count, _) => 1 <= count <= 2 && offset + count <= locals && 4 * count <= gr.optop
      case Store(offset, count, _) => 1 <= count <= 2 && offset + count <= locals && count <= ops
      case Rearrange(kind) => Depth(kind) <= ops && 4 * Growth(kind) <= gr.optop
      case Invoke(m, nargs) => m.nlocals % 4 == 0 && nargs % 4 == 0 && nargs / 4 <= ops && m.nlocals + 20 <= gr.optop
      case Return(results) => vars < base && results <= 2 && results <= ops
    }

    lemma CanExecuteIff(step: Step)
      requires Valid()
      ensures CanExecute(step) <==> Legal(Abs(), step) && Room(step)
    {
      hide InMemory, VarsOf, FrameOf, OptopOf, Crosses, Linked, HoldsAt, Top;
      NotEmpty(mem, base, stack);
      ShapeFromRegisters(mem, base, stack);
    }

    /** The limit refuses the step in a state of the abstract machine. */
    predicate RefusesIn(oplim: uint32, s: State, step: Step)
      reads this
    {
      var optop := OptopOf(base, s.stack);
      0 <= optop < 0x1_0000_0000 && Refuses(oplim, optop, step)
    }

    /** Any program: as long as its steps are legal, there is room and no limit exception is
        raised, raw memory and registers follow a run of the abstract machine. */
    method RunSteps(steps: seq<Step>) returns (n: nat, ghost states: seq<State>)
      requires Valid()
      modifies this, gr
      ensures n <= |steps| && FrameStack.Run(base, steps[..n], states)
      ensures states[0] == old(Abs()) && states[n].stack == stack
      ensures Valid() ==> states[n] == Abs() && (n < |steps| ==> !(Legal(Abs(), steps[n]) && Room(steps[n])))
      ensures !Valid() ==> n < |steps| && TrappedState(Limits(gr.optop, old(gr.oplim), NO_EXCEPTION), stack)
      ensures !Valid() <==> n < |steps| && Legal(states[n], steps[n]) && Room(steps[n])
                            && Refuses(old(gr.oplim), gr.optop, steps[n])
      ensures forall k | 0 <= k < n :: !RefusesIn(old(gr.oplim), states[k], steps[k])
    {
      hide Legal, Next, InMemory, Refuses, OptopOf;
      n, states := 0, [Abs()];
      while n < |steps|
        invariant n <= |steps| && Valid() && gr.oplim == old(gr.oplim)
        invariant FrameStack.Run(base, steps[..n], states) && states[0] == old(Abs()) && states[n] == Abs()
        invariant forall k | 0 <= k < n :: !RefusesIn(old(gr.oplim), states[k], steps[k])
      {
        ghost var before := states;
        CanExecuteIff(steps[n]);
        if !CanExecute(steps[n]) {
          return;
        }
        var r := Execute(steps[n]);
        if r == OplimTrap {
          return;
        }
        states := states + [Abs()];
        RunExtended(base, steps, n, before, Abs());
        n := n + 1;
      }
    }
  }

  /** The bytes by which a step makes the stack grow. */
  function Needs(step: Step): nat {
    match step
    case Push(_, _) => 4
    case Dup => 4
    case Load(_, count, _) => 4 * count
    case Rearrange(kind) => 4 * Growth(kind)
    case Invoke(m, _) => m.nlocals + 20
    case _ => 0
  }

  /** The limit refuses the step: only a step that makes the stack grow can cross it. */
  predicate Refuses(oplim: uint32, optop: uint32, step: Step) {
    0 < Needs(step) <= optop && Crosses(oplim, optop - Needs(step))
  }

  /** Where a tableswitch at `pc` goes for an index, as the words in memory say. */
  function SwitchTarget(mem: seq<uint32>, pc: uint32, index: int): uint32
    requires |mem| == 0x4000_0000
  {
    var aligned := Wrap32(pc / 4 * 4 + 4);
    var low, high := S32(mem[Wrap32(aligned + 4) / 4]), S32(mem[Wrap32(aligned + 8) / 4]);
    Wrap32(pc + if index < low || index > high then S32(mem[aligned / 4])
                else S32(mem[Wrap32(aligned + 12 + (index - low) * 4) / 4]))
  }

  lemma PcWraps(pc: int)
    ensures Wrap32(pc) == pc % 0x1_0000_0000
  {
  }

  lemma WordsBelow(addr: int, bytes: nat)
    requires addr % 4 == 0 && bytes % 4 == 0 && bytes + 20 <= addr
    ensures addr / 4 - bytes / 4 == (addr - bytes) / 4 && (addr - bytes) % 4 == 0 && 5 <= (addr - bytes) / 4
  {
  }

  lemma SamePc(a: uint32, b: uint32)
    requires a == Wrap32(b + 0)
    ensures a == b
  {
  }

  lemma RunExtended(base: uint32, steps: seq<Step>, n: nat, states: seq<State>, next: State)
    requires n < |steps| && FrameStack.Run(base, steps[..n], states)
    requires Legal(states[n], steps[n]) && Next(base, states[n], steps[n], next)
    ensures FrameStack.Run(base, steps[..n + 1], states + [next])
  {
    hide Legal, Next;
  }

  lemma ShapeFromRegisters(mem: seq<uint32>, base: uint32, stack: seq<Act>)
    requires InMemory(mem, base, stack)
    ensures |Top(stack).locals| == (VarsOf(base, stack) - FrameOf(base, stack)) / 4
    ensures |Top(stack).ops| == (FrameOf(base, stack) - 20 - OptopOf(base, stack)) / 4
    ensures VarsOf(base, stack) < base <==> |stack| > 1
  {
    TopParts(mem, base, stack);
    if |stack| > 1 {
      LinkedRest(base, stack);
      LinkedRest(base, Rest(stack));
      TopAndRest(Rest(stack));
      PartsIff(mem, base, Rest(Rest(stack)), Top(Rest(stack)));
    }
  }

  lemma LoadedWords(stack: seq<Act>, offset: nat, count: nat)
    requires stack != [] && 1 <= count <= 2 && offset + count <= |Top(stack).locals|
    ensures var top := Top(stack);
            WithTop(stack, top.(ops := top.ops + top.locals[offset..offset + count]))
            == if count == 1 then Pushed(stack, top.locals[offset])
               else Pushed(Pushed(stack, top.locals[offset]), top.locals[offset + 1])
  {
    var top := Top(stack);
    if count == 1 {
      assert top.locals[offset..offset + count] == [top.locals[offset]];
    } else {
      PushedTwice(stack, top.locals[offset], top.locals[offset + 1]);
      assert top.locals[offset..offset + count] == [top.locals[offset], top.locals[offset + 1]];
    }
  }

  /** Everything a return needs to know, in terms of the registers. */
  lemma ReturnShape(mem: seq<uint32>, base: uint32, stack: seq<Act>, results: nat)
    requires InMemory(mem, base, stack) && |stack| > 1 && results <= 2 && results <= |Top(stack).ops|
    ensures var at, v, f, saved := OptopOf(base, stack) / 4, VarsOf(base, stack) / 4, FrameOf(base, stack) / 4,
            Top(stack).saved;
            && |saved| == 5 && 0 <= at && at + 2 < |mem| && 5 <= f <= v < |mem|
            && mem[f] == saved[0] && mem[f - 1] == saved[1] && mem[f - 2] == saved[2] && mem[f - 3] == saved[3]
            && Copied(mem, at, v, results)[f - 2] == saved[2] && Copied(mem, at, v, results)[f - 3] == saved[3]
            && InMemory(Copied(mem, at, v, results), base, Returned(stack, results))
            && saved[1] == VarsOf(base, Returned(stack, results)) && saved[2] == FrameOf(base, Returned(stack, results))
            && saved[3] == Top(Returned(stack, results)).cp
            && OptopOf(base, Returned(stack, results)) == VarsOf(base, stack) - 4 * results
            && OptopOf(base, stack) <= VarsOf(base, stack) - 20
            && OptopOf(base, stack) % 4 == 0 && VarsOf(base, stack) % 4 == 0 && FrameOf(base, stack) % 4 == 0
  {
    hide Flat, Linked, HoldsAt, Copied, WithResults, InMemory, InParts;
    ReturnWords(mem, base, stack, results);
    Links(mem, base, stack);
    LinkedRest(base, stack);
    TopParts(mem, base, stack);
    Left(mem, base, stack, results);
    RestOfAppended(Rest(Rest(stack)), Top(Returned(stack, results)));
  }

  lemma Links(mem: seq<uint32>, base: uint32, stack: seq<Act>)
    requires InMemory(mem, base, stack)
    ensures Linked(base, stack)
  {
  }

  lemma RaisedIsPending(current: nat)
    ensures Raise(current, OPLIM_EXCEPTION) != NO_EXCEPTION
    ensures current == NO_EXCEPTION ==> Raise(current, OPLIM_EXCEPTION) == OPLIM_EXCEPTION
  {
  }

  /** What the limit lets pass, it lets pass further up. */
  lemma HigherIsSafe(oplim: uint32, low: uint32)
    requires !Crosses(oplim, low)
    ensures forall v: uint32 | low <= v :: !Crosses(oplim, v)
  {
  }

  lemma CalledShape(base: uint32, stack: seq<Act>, pc: uint32, m: Method, n: nat, junk: seq<uint32>)
    requires stack != [] && n <= |Top(stack).ops|
    requires 0 <= VarsOf(base, stack) && 0 <= FrameOf(base, stack)
    ensures var t := Called(base, stack, pc, m, n, junk);
            && |t| == |stack| + 1 && |Top(t).locals| == n + |junk| && Top(t).locals[n..] == junk
            && Top(t).cp == m.constPool
            && Top(t).saved == [Wrap32(pc + 3), VarsOf(base, stack), FrameOf(base, stack), Top(stack).cp, m.addr]
            && (Legal(State(pc, stack), Invoke(m, 4 * n)) && |junk| == m.nlocals / 4 ==>
                 Next(base, State(pc, stack), Invoke(m, 4 * n), State(m.code, t)))
  {
    hide VarsOf, FrameOf, Wrap32;
  }
}
