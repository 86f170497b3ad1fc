/** The instructions that rearrange operands: copies of single stack words, one after another,
    over words that are still to be read. */
module StackShuffles {
  import opened Bits
  import opened FrameStack

  /** The operand stack after the word `src` from the top has been copied over the word `dest` from the top. */
  function Copy(ops: seq<uint32>, dest: nat, src: nat): (r: seq<uint32>)
    requires 1 <= dest <= |ops| && 1 <= src <= |ops|
    ensures |r| == |ops|
  {
    ops[|ops| - dest := ops[|ops| - src]]
  }

  function WithOps(stack: seq<Act>, ops: seq<uint32>): seq<Act>
    requires stack != []
  {
    WithTop(stack, Top(stack).(ops := ops))
  }

  lemma TopWithOps(stack: seq<Act>, ops: seq<uint32>)
    requires stack != []
    ensures WithOps(stack, ops) != [] && Top(WithOps(stack, ops)) == Top(stack).(ops := ops)
    ensures forall more: seq<uint32> :: WithOps(WithOps(stack, ops), more) == WithOps(stack, more)
    ensures WithOps(stack, Top(stack).ops) == stack
  {
    RestOfAppended(Rest(stack), Top(stack).(ops := ops));
    TopAndRest(stack);
  }

  /** A stack word copied over another one. */
  lemma OperandCopied(mem: seq<uint32>, base: uint32, stack: seq<Act>, dest: nat, src: nat)
    requires InMemory(mem, base, stack)
    requires 1 <= dest <= |Top(stack).ops| && 1 <= src <= |Top(stack).ops|
    ensures var at, stack' := OptopOf(base, stack) / 4, WithOps(stack, Copy(Top(stack).ops, dest, src));
            && 0 <= at && at + dest < |mem| && at + src < |mem|
            && InMemory(mem[at + dest := mem[at + src]], base, stack')
            && OptopOf(base, stack') == OptopOf(base, stack)
            && VarsOf(base, stack') == VarsOf(base, stack) && FrameOf(base, stack') == FrameOf(base, stack)
  {
    hide HoldsAt, Flat, Linked;
    OperandAt(mem, base, stack, dest);
    OperandAt(mem, base, stack, src);
    OperandWritten(mem, base, stack, dest, mem[OptopOf(base, stack) / 4 + src]);
  }

  lemma OperandWritten(mem: seq<uint32>, base: uint32, stack: seq<Act>, i: nat, v: uint32)
    requires InMemory(mem, base, stack) && 1 <= i <= |Top(stack).ops|
    ensures var at, ops := OptopOf(base, stack) / 4, Top(stack).ops;
            var stack' := WithOps(stack, ops[|ops| - i := v]);
            && 0 <= at && at + i < |mem| && InMemory(mem[at + i := v], base, stack')
            && OptopOf(base, stack') == OptopOf(base, stack)
            && VarsOf(base, stack') == VarsOf(base, stack) && FrameOf(base, stack') == FrameOf(base, stack)
  {
    hide HoldsAt, Flat, Linked;
    var top, vars := Top(stack), VarsOf(base, stack);
    var saved := vars - 4 * |top.locals|;
    var ops := saved - 4 * |top.saved|;
    var k := |top.ops| - i;
    var top' := top.(ops := top.ops[k := v]);
    var at := OptopOf(base, stack) / 4 + i;
    OperandAt(mem, base, stack, i);
    TopParts(mem, base, stack);
    TopAndRest(stack);
    PartsIff(mem, base, Rest(stack), top);
    Aligned(mem, ops, top.ops);
    assert at == ops / 4 - k;
    HoldsElsewhere(mem, base, Flat(Rest(stack)), at, v);
    HoldsElsewhere(mem, vars, top.locals, at, v);
    HoldsElsewhere(mem, saved, top.saved, at, v);
    HoldsUpdated(mem, ops, top.ops, k, v);
    PartsIff(mem[at := v], base, Rest(stack), top');
    LinkedWithTop(base, stack, top');
    RestOfAppended(Rest(stack), top');
  }

  /** Moving the stack pointer down makes whatever lies there an operand. */
  lemma Lowered(mem: seq<uint32>, base: uint32, stack: seq<Act>, n: nat)
    requires InMemory(mem, base, stack) && 4 * n <= OptopOf(base, stack)
    ensures 0 <= OptopOf(base, stack) / 4 < |mem| && n <= OptopOf(base, stack) / 4
    ensures var stack' := WithOps(stack, Top(stack).ops + Below(mem, OptopOf(base, stack) / 4, n));
            && InMemory(mem, base, stack')
            && OptopOf(base, stack') == OptopOf(base, stack) - 4 * n
            && VarsOf(base, stack') == VarsOf(base, stack) && FrameOf(base, stack') == FrameOf(base, stack)
  {
    hide HoldsAt, Flat, Linked, Below;
    var top, at := Top(stack), OptopOf(base, stack) / 4;
    TopParts(mem, base, stack);
    TopAndRest(stack);
    Aligned(mem, base, Flat(stack));
    var junk := Below(mem, at, n);
    var top' := top.(ops := top.ops + junk);
    FlatAppended(Rest(stack), top, junk);
    HoldsConcat(mem, base, Flat(stack), junk);
    LinkedWithTop(base, stack, top');
    RestOfAppended(Rest(stack), top');
  }

  /** The two top words copied to the free stack slots. */
  lemma TwoDoubled(mem: seq<uint32>, base: uint32, stack: seq<Act>)
    requires InMemory(mem, base, stack) && 8 <= OptopOf(base, stack) && 2 <= |Top(stack).ops|
    ensures var at, grown := OptopOf(base, stack) / 4, RearrangedTop(stack, Dup2);
            && at + 2 < |mem|
            && var mem1 := mem[at := mem[at + 2]];
            && var mem2 := mem1[at - 1 := mem1[at + 1]];
            && InMemory(mem2, base, grown) && InMemory(mem2, base, stack)
            && OptopOf(base, grown) == OptopOf(base, stack) - 8
            && VarsOf(base, grown) == VarsOf(base, stack) && FrameOf(base, grown) == FrameOf(base, stack)
            && Top(grown).cp == Top(stack).cp
  {
    hide InMemory, Pushed, Argued, OptopOf, VarsOf, FrameOf, RearrangedTop;
    NotEmpty(mem, base, stack);
    var ops := Top(stack).ops;
    var v, w := ops[|ops| - 2], ops[|ops| - 1];
    var one := Pushed(stack, v);
    OperandAt(mem, base, stack, 2);
    Grown(mem, base, stack, v);
    TopOfPushed(stack, v);
    var mem1 := mem[OptopOf(base, stack) / 4 := v];
    OperandAt(mem1, base, stack, 1);
    Grown(mem1, base, one, w);
    TopOfPushed(one, w);
    PushedTwice(stack, v, w);
    Shrunk(mem1[OptopOf(base, one) / 4 := w], base, Pushed(one, w), 2);
    DoubledIs(stack);
  }

  lemma DoubledIs(stack: seq<Act>)
    requires stack != [] && 2 <= |Top(stack).ops|
    ensures var ops := Top(stack).ops;
            RearrangedTop(stack, Dup2) == WithTop(stack, Top(stack).(ops := ops + [ops[|ops| - 2], ops[|ops| - 1]]))
  {
    var ops := Top(stack).ops;
    var v, w := ops[|ops| - 2], ops[|ops| - 1];
    assert Last(ops, 2) == [v, w] && Without(ops, 2) + [v, w, v, w] == ops + [v, w];
  }

  /** The two top words exchanged by way of a third place. */
  lemma TwoSwapped(mem: seq<uint32>, base: uint32, stack: seq<Act>)
    requires InMemory(mem, base, stack) && 2 <= |Top(stack).ops|
    ensures var at, swapped := OptopOf(base, stack) / 4, RearrangedTop(stack, Swap);
            && 0 <= at && at + 2 < |mem|
            && InMemory(mem[at + 1 := mem[at + 2]][at + 2 := mem[at + 1]], base, swapped)
            && OptopOf(base, swapped) == OptopOf(base, stack)
            && VarsOf(base, swapped) == VarsOf(base, stack) && FrameOf(base, swapped) == FrameOf(base, stack)
            && Top(swapped).cp == Top(stack).cp
  {
    hide InMemory, OptopOf, VarsOf, FrameOf, RearrangedTop, WithOps;
    NotEmpty(mem, base, stack);
    var ops := Top(stack).ops;
    var half := Copy(ops, 1, 2);
    OperandAt(mem, base, stack, 1);
    OperandCopied(mem, base, stack, 1, 2);
    TopWithOps(stack, half);
    var at := OptopOf(base, stack) / 4;
    OperandWritten(mem[at + 1 := mem[at + 2]], base, WithOps(stack, half), 2, ops[|ops| - 1]);
    SwappedIs(ops);
    RearrangedIs(stack, Swap);
    TopWithOps(stack, half[|ops| - 2 := ops[|ops| - 1]]);
  }

  lemma SwappedIs(ops: seq<uint32>)
    requires 2 <= |ops|
    ensures Copy(ops, 1, 2)[|ops| - 2 := ops[|ops| - 1]] == Without(ops, 2) + Rearranged(Swap, Last(ops, 2))
  {
  }

  lemma RearrangedIs(stack: seq<Act>, kind: Kind)
    requires stack != [] && Depth(kind) <= |Top(stack).ops|
    ensures RearrangedTop(stack, kind)
            == WithOps(stack, Without(Top(stack).ops, Depth(kind))
                              + Rearranged(kind, Last(Top(stack).ops, Depth(kind))))
  {
  }

  // ----- what the copies amount to

  lemma CopiesDupX1(ops: seq<uint32>, junk: seq<uint32>)
    requires 2 <= |ops| && |junk| == 1
    ensures Copy(Copy(Copy(ops + junk, 1, 2), 2, 3), 3, 1) == Without(ops, 2) + Rearranged(DupX1, Last(ops, 2))
  {
  }

  lemma CopiesDupX2(ops: seq<uint32>, junk: seq<uint32>)
    requires 3 <= |ops| && |junk| == 1
    ensures Copy(Copy(Copy(Copy(ops + junk, 1, 2), 2, 3), 3, 4), 4, 1)
            == Without(ops, 3) + Rearranged(DupX2, Last(ops, 3))
  {
  }

  lemma CopiesDup2X1(ops: seq<uint32>, junk: seq<uint32>)
    requires 3 <= |ops| && |junk| == 2
    ensures Copy(Copy(Copy(Copy(Copy(ops + junk, 1, 3), 2, 4), 3, 5), 4, 1), 5, 2)
            == Without(ops, 3) + Rearranged(Dup2X1, Last(ops, 3))
  {
  }

  lemma CopiesDup2X2(ops: seq<uint32>, junk: seq<uint32>)
    requires 4 <= |ops| && |junk| == 2
    ensures Copy(Copy(Copy(Copy(Copy(Copy(ops + junk, 1, 3), 2, 4), 3, 5), 4, 6), 5, 1), 6, 2)
            == Without(ops, 4) + Rearranged(Dup2X2, Last(ops, 4))
  {
  }

  lemma RearrangedOps(stack: seq<Act>, low: seq<uint32>, kind: Kind, ws: seq<uint32>)
    requires stack != [] && |ws| == Depth(kind)
    ensures var s := WithOps(stack, low + ws);
            && s != [] && |Top(s).ops| == |low| + |ws|
            && RearrangedTop(s, kind) == WithOps(stack, low + Rearranged(kind, ws))
  {
    hide WithTop, Without, Last, WithOps, RearrangedTop, Rearranged, Depth;
    TopWithOps(stack, low + ws);
    Cut(low, ws);
    RearrangedIs(WithOps(stack, low + ws), kind);
  }

  /** The six instructions word by word, the top of the stack on the right. */
  lemma RearrangedSpelledOut(stack: seq<Act>, low: seq<uint32>, a: uint32, b: uint32, c: uint32, d: uint32)
    requires stack != []
    ensures var s := WithOps(stack, low + [a, b]);
            && RearrangedTop(s, Swap) == WithOps(stack, low + [b, a])
            && RearrangedTop(s, Dup2) == WithOps(stack, low + [a, b, a, b])
            && RearrangedTop(s, DupX1) == WithOps(stack, low + [b, a, b])
    ensures var s := WithOps(stack, low + [a, b, c]);
            && RearrangedTop(s, DupX2) == WithOps(stack, low + [c, a, b, c])
            && RearrangedTop(s, Dup2X1) == WithOps(stack, low + [b, c, a, b, c])
    ensures var s := WithOps(stack, low + [a, b, c, d]);
            RearrangedTop(s, Dup2X2) == WithOps(stack, low + [c, d, a, b, c, d])
  {
    RearrangedOps(stack, low, Swap, [a, b]);
    RearrangedOps(stack, low, Dup2, [a, b]);
    RearrangedOps(stack, low, DupX1, [a, b]);
    RearrangedOps(stack, low, DupX2, [a, b, c]);
    RearrangedOps(stack, low, Dup2X1, [a, b, c]);
    RearrangedOps(stack, low, Dup2X2, [a, b, c, d]);
  }

  lemma Cut(low: seq<uint32>, ws: seq<uint32>)
    ensures Without(low + ws, |ws|) == low && Last(low + ws, |ws|) == ws
  {
  }

  lemma TopTwo(ops: seq<uint32>)
    requires 2 <= |ops|
    ensures Last(ops, 2) == [ops[|ops| - 2], ops[|ops| - 1]]
    ensures ops == Without(ops, 2) + [ops[|ops| - 2], ops[|ops| - 1]]
  {
  }

  /** How the instructions combine: inserting a copy of the top word below the next one and dropping
      the top is a swap, and swapping twice, or doubling and dropping, is nothing. */
  lemma ShuffleLaws(stack: seq<Act>)
    requires stack != [] && 2 <= |Top(stack).ops|
    ensures 3 == |Rearranged(DupX1, Last(Top(stack).ops, 2))|
    ensures |Top(RearrangedTop(stack, DupX1)).ops| >= 1 && |Top(RearrangedTop(stack, Dup2)).ops| >= 2
    ensures |Top(RearrangedTop(stack, Swap)).ops| >= 2
    ensures Argued(RearrangedTop(stack, DupX1), 1) == RearrangedTop(stack, Swap)
    ensures RearrangedTop(RearrangedTop(stack, Swap), Swap) == stack
    ensures Argued(RearrangedTop(stack, Dup2), 2) == stack
  {
    hide Without, Last;
    var ops := Top(stack).ops;
    var low, a, b := Without(ops, 2), ops[|ops| - 2], ops[|ops| - 1];
    TopTwo(ops);
    TopWithOps(stack, low + [b, a, b]);
    TopWithOps(stack, low + [b, a]);
    TopWithOps(stack, low + [a, b, a, b]);
    TopWithOps(stack, ops);
    Cut(low + [b, a], [b]);
    Cut(low, [b, a]);
    Cut(ops, [a, b]);
    assert low + [b, a] + [b] == low + [b, a, b] && ops + [a, b] == low + [a, b, a, b];
  }
}
