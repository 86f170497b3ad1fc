/** The abstract list of activations, and how it lies in raw stack memory. */
module FrameStack {
  import opened Bits

  /** An activation: arguments and locals, the five words saved by the call that made it
      (return pc, vars, frame, constant pool, method), its operand stack, its constant pool. */
  datatype Act = Act(locals: seq<uint32>, saved: seq<uint32>, ops: seq<uint32>, cp: uint32)

  function Words(a: Act): seq<uint32> {
    a.locals + a.saved + a.ops
  }

  function Flat(stack: seq<Act>): seq<uint32> {
    if stack == [] then [] else Flat(stack[..|stack| - 1]) + Words(stack[|stack| - 1])
  }

  function Top(stack: seq<Act>): Act
    requires stack != []
  {
    stack[|stack| - 1]
  }

  function Rest(stack: seq<Act>): seq<Act>
    requires stack != []
  {
    stack[..|stack| - 1]
  }

  function WithTop(stack: seq<Act>, a: Act): seq<Act>
    requires stack != []
  {
    Rest(stack) + [a]
  }

  /** The registers, as the shape of the stack determines them. */
  function VarsOf(base: uint32, stack: seq<Act>): int
    requires stack != []
  {
    base - 4 * |Flat(Rest(stack))|
  }

  function FrameOf(base: uint32, stack: seq<Act>): int
    requires stack != []
  {
    VarsOf(base, stack) - 4 * |Top(stack).locals|
  }

  function OptopOf(base: uint32, stack: seq<Act>): int {
    base - 4 * |Flat(stack)|
  }

  /** Each activation but the first holds the registers of its caller. */
  predicate Linked(base: uint32, stack: seq<Act>) {
    stack == [] ||
    (&& Linked(base, Rest(stack))
     && |Top(stack).saved| == 5
     && (|stack| > 1 ==>
           && Top(stack).saved[1] == VarsOf(base, Rest(stack))
           && Top(stack).saved[2] == FrameOf(base, Rest(stack))
           && Top(stack).saved[3] == Top(Rest(stack)).cp))
  }

  /** `ws` lies in memory at `addr` and the word addresses below it. */
  predicate HoldsAt(mem: seq<uint32>, addr: int, ws: seq<uint32>) {
    && addr % 4 == 0 && 4 * |ws| <= addr && addr / 4 < |mem|
    && forall k | 0 <= k < |ws| :: mem[addr / 4 - k] == ws[k]
  }

  lemma HoldsConcat(mem: seq<uint32>, addr: int, xs: seq<uint32>, ys: seq<uint32>)
    ensures HoldsAt(mem, addr, xs + ys) <==> HoldsAt(mem, addr, xs) && HoldsAt(mem, addr - 4 * |xs|, ys)
  {
    var n, a := |xs|, addr / 4;
    if HoldsAt(mem, addr, xs + ys) {
      forall k | 0 <= k < n
        ensures mem[a - k] == xs[k]
      {
        assert (xs + ys)[k] == xs[k];
      }
      forall k | 0 <= k < |ys|
        ensures mem[(addr - 4 * n) / 4 - k] == ys[k]
      {
        assert (xs + ys)[n + k] == ys[k];
      }
    }
    if HoldsAt(mem, addr, xs) && HoldsAt(mem, addr - 4 * n, ys) {
      forall k | 0 <= k < |xs + ys|
        ensures mem[a - k] == (xs + ys)[k]
      {
        if k >= n {
          assert mem[(addr - 4 * n) / 4 - (k - n)] == ys[k - n];
        }
      }
    }
  }

  /** A write elsewhere leaves held words alone. */
  lemma HoldsElsewhere(mem: seq<uint32>, addr: int, ws: seq<uint32>, at: int, v: uint32)
    requires HoldsAt(mem, addr, ws) && 0 <= at < |mem| && (at > addr / 4 || at <= addr / 4 - |ws|)
    ensures HoldsAt(mem[at := v], addr, ws)
  {
  }

  /** Memory and stack agree. */
  predicate InMemory(mem: seq<uint32>, base: uint32, stack: seq<Act>) {
    stack != [] && Linked(base, stack) && HoldsAt(mem, base, Flat(stack))
  }

  lemma NotEmpty(mem: seq<uint32>, base: uint32, stack: seq<Act>)
    requires InMemory(mem, base, stack)
    ensures stack != []
  {
  }

  /** The same, part by part. */
  predicate InParts(mem: seq<uint32>, base: uint32, rest: seq<Act>, top: Act, vars: int) {
    && HoldsAt(mem, base, Flat(rest))
    && vars == base - 4 * |Flat(rest)|
    && HoldsAt(mem, vars, top.locals)
    && HoldsAt(mem, vars - 4 * |top.locals|, top.saved)
    && HoldsAt(mem, vars - 4 * |top.locals| - 4 * |top.saved|, top.ops)
  }

  lemma PartsIff(mem: seq<uint32>, base: uint32, rest: seq<Act>, top: Act)
    ensures Flat(rest + [top]) == Flat(rest) + Words(top)
    ensures |Flat(rest + [top])| == |Flat(rest)| + |top.locals| + |top.saved| + |top.ops|
    ensures HoldsAt(mem, base, Flat(rest + [top])) <==> InParts(mem, base, rest, top, base - 4 * |Flat(rest)|)
  {
    hide HoldsAt;
    assert (rest + [top])[..|rest|] == rest;
    var vars := base - 4 * |Flat(rest)|;
    HoldsConcat(mem, base, Flat(rest), Words(top));
    HoldsConcat(mem, vars, top.locals + top.saved, top.ops);
    HoldsConcat(mem, vars, top.locals, top.saved);
  }

  lemma TopAndRest(stack: seq<Act>)
    requires stack != []
    ensures Rest(stack) + [Top(stack)] == stack
  {
  }

  lemma RestOfAppended(rest: seq<Act>, a: Act)
    ensures Rest(rest + [a]) == rest && Top(rest + [a]) == a
  {
  }

  /** Changing locals and operands of the top activation keeps the links. */
  lemma LinkedWithTop(base: uint32, stack: seq<Act>, a: Act)
    requires stack != [] && Linked(base, stack) && a.saved == Top(stack).saved
    ensures Linked(base, WithTop(stack, a))
    ensures VarsOf(base, WithTop(stack, a)) == VarsOf(base, stack)
  {
    RestOfAppended(Rest(stack), a);
  }

  // ----- the abstract steps

  /** The values that a call reads from the method block. */
  datatype Method = Method(addr: uint32, code: uint32, nlocals: nat, constPool: uint32)

  datatype State = State(pc: uint32, stack: seq<Act>)

  /** The instructions that rearrange the top of the operand stack. */
  datatype Kind = Dup2 | DupX1 | DupX2 | Dup2X1 | Dup2X2 | Swap

  /** How many words they take, and how many more they leave. */
  function Depth(kind: Kind): nat {
    match kind
    case Dup2 | DupX1 | Swap => 2
    case DupX2 | Dup2X1 => 3
    case Dup2X2 => 4
  }

  function Growth(kind: Kind): nat {
    match kind
    case Swap => 0
    case DupX1 | DupX2 => 1
    case Dup2 | Dup2X1 | Dup2X2 => 2
  }

  /** What takes the place of the top words, the deepest first. */
  function Rearranged(kind: Kind, ws: seq<uint32>): (r: seq<uint32>)
    requires |ws| == Depth(kind)
    ensures |r| == |ws| + Growth(kind)
  {
    match kind
    case Swap => [ws[1], ws[0]]
    case DupX1 => [ws[1], ws[0], ws[1]]
    case DupX2 => [ws[2], ws[0], ws[1], ws[2]]
    case Dup2 => [ws[0], ws[1], ws[0], ws[1]]
    case Dup2X1 => [ws[1], ws[2], ws[0], ws[1], ws[2]]
    case Dup2X2 => [ws[2], ws[3], ws[0], ws[1], ws[2], ws[3]]
  }

  datatype Step =
    | Push(v: uint32, size: nat)
    | Pop(size: nat)
    | Dup
    | Load(offset: nat, count: nat, size: nat)
    | Store(offset: nat, count: nat, size: nat)
    | Rearrange(kind: Kind)
    | Invoke(m: Method, nargs: nat)
    | Return(results: nat)

  function Last(ws: seq<uint32>, n: nat): (r: seq<uint32>)
    requires n <= |ws|
    ensures |r| == n
  {
    ws[|ws| - n..]
  }

  function Without(ws: seq<uint32>, n: nat): seq<uint32>
    requires n <= |ws|
  {
    ws[..|ws| - n]
  }

  /** What the verified class files that run on the machine guarantee of each step. */
  predicate Legal(s: State, step: Step) {
    && s.stack != []
    && match step
       case Push(_, _) => true
       case Pop(_) => 1 <= |Top(s.stack).ops|
       case Dup => 1 <= |Top(s.stack).ops|
       case Load(offset, count, _) => 1 <= count <= 2 && offset + count <= |Top(s.stack).locals|
       case Store(offset, count, _) =>
         1 <= count <= 2 && offset + count <= |Top(s.stack).locals| && count <= |Top(s.stack).ops|
       case Rearrange(kind) => Depth(kind) <= |Top(s.stack).ops|
       case Invoke(m, nargs) => m.nlocals % 4 == 0 && nargs % 4 == 0 && nargs / 4 <= |Top(s.stack).ops|
       case Return(results) => |s.stack| > 1 && results <= 2 && results <= |Top(s.stack).ops|
  }

  /** `xs` written over part of `locals`. */
  function Overwrite(locals: seq<uint32>, offset: nat, xs: seq<uint32>): (r: seq<uint32>)
    requires offset + |xs| <= |locals|
    ensures |r| == |locals|
  {
    locals[..offset] + xs + locals[offset + |xs|..]
  }

  function Argued(stack: seq<Act>, n: nat): seq<Act>
    requires stack != [] && n <= |Top(stack).ops|
  {
    WithTop(stack, Top(stack).(ops := Without(Top(stack).ops, n)))
  }

  function RearrangedTop(stack: seq<Act>, kind: Kind): seq<Act>
    requires stack != [] && Depth(kind) <= |Top(stack).ops|
  {
    var ops, d := Top(stack).ops, Depth(kind);
    WithTop(stack, Top(stack).(ops := Without(ops, d) + Rearranged(kind, Last(ops, d))))
  }

  /** The stack after a call: the arguments have become the first locals of the callee; the other
      locals keep whatever was in memory. */
  function Called(base: uint32, stack: seq<Act>, pc: uint32, m: Method, n: nat, junk: seq<uint32>): seq<Act>
    requires stack != [] && n <= |Top(stack).ops|
    requires 0 <= VarsOf(base, stack) && 0 <= FrameOf(base, stack)
  {
    Argued(stack, n)
    + [Act(Last(Top(stack).ops, n) + junk,
           [Wrap32(pc + 3), VarsOf(base, stack), FrameOf(base, stack), Top(stack).cp, m.addr],
           [], m.constPool)]
  }

  /** The stack after a return: the results are on the operand stack of the caller. */
  function Returned(stack: seq<Act>, results: nat): seq<Act>
    requires |stack| > 1 && results <= |Top(stack).ops|
  {
    var caller := Top(Rest(stack));
    WithTop(Rest(stack), caller.(ops := caller.ops + Last(Top(stack).ops, results)))
  }

  /** One step without a trap. Only the locals that a call does not set are left open. */
  predicate Next(base: uint32, s: State, step: Step, t: State)
    requires Legal(s, step)
  {
    var top := Top(s.stack);
    match step
    case Push(v, size) =>
      t == State(Wrap32(s.pc + size), Pushed(s.stack, v))
    case Pop(size) =>
      t == State(Wrap32(s.pc + size), Argued(s.stack, 1))
    case Dup =>
      t == State(Wrap32(s.pc + 1), Pushed(s.stack, top.ops[|top.ops| - 1]))
    case Load(offset, count, size) =>
      t == State(Wrap32(s.pc + size), WithTop(s.stack, top.(ops := top.ops + top.locals[offset..offset + count])))
    case Store(offset, count, size) =>
      t == State(Wrap32(s.pc + size), Stored(s.stack, offset, count))
    case Rearrange(kind) =>
      t == State(Wrap32(s.pc + 1), RearrangedTop(s.stack, kind))
    case Invoke(m, nargs) =>
      && t.pc == m.code && |t.stack| == |s.stack| + 1
      && |Top(t.stack).locals| == nargs / 4 + m.nlocals / 4
      && 0 <= VarsOf(base, s.stack) && 0 <= FrameOf(base, s.stack)
      && t.stack == Called(base, s.stack, s.pc, m, nargs / 4, Top(t.stack).locals[nargs / 4..])
    case Return(results) =>
      && |top.saved| == 5
      && t == State(top.saved[0], Returned(s.stack, results))
  }

  /** A run: the states before, between and after the steps. */
  predicate Run(base: uint32, steps: seq<Step>, states: seq<State>) {
    && |states| == |steps| + 1
    && forall k | 0 <= k < |steps| :: Legal(states[k], steps[k]) && Next(base, states[k], steps[k], states[k + 1])
  }

  // ----- writes to stack memory, and the abstract steps they amount to

  /** `n` words of memory from index `at` downwards. */
  function Below(mem: seq<uint32>, at: nat, n: nat): (ws: seq<uint32>)
    requires n <= at < |mem|
    ensures |ws| == n
    ensures 4 * at < 0x1_0000_0000 ==> HoldsAt(mem, 4 * at, ws)
  {
    if n == 0 then [] else Below(mem, at, n - 1) + [mem[at - (n - 1)]]
  }

  /** A word written at the stack pointer becomes the top operand once the pointer moves below
      it, and changes nothing if it does not. */
  lemma Grown(mem: seq<uint32>, base: uint32, stack: seq<Act>, v: uint32)
    requires InMemory(mem, base, stack) && 4 <= OptopOf(base, stack)
    ensures OptopOf(base, stack) / 4 < |mem|
    ensures InMemory(mem[OptopOf(base, stack) / 4 := v], base, Pushed(stack, v))
    ensures InMemory(mem[OptopOf(base, stack) / 4 := v], base, stack)
    ensures OptopOf(base, Pushed(stack, v)) == OptopOf(base, stack) - 4
    ensures VarsOf(base, Pushed(stack, v)) == VarsOf(base, stack)
    ensures FrameOf(base, Pushed(stack, v)) == FrameOf(base, stack)
  {
    var top, at := Top(stack), OptopOf(base, stack) / 4;
    var mem', top' := mem[at := v], top.(ops := top.ops + [v]);
    TopAndRest(stack);
    PartsIff(mem, base, Rest(stack), top);
    PartsIff(mem', base, Rest(stack), top');
    LinkedWithTop(base, stack, top');
    RestOfAppended(Rest(stack), top');
    FlatAppended(Rest(stack), top, [v]);
    HoldsElsewhere(mem, base, Flat(stack), at, v);
    HoldsConcat(mem', base, Flat(stack), [v]);
  }

  lemma FlatSplit(rest: seq<Act>, top: Act, n: nat)
    requires n <= |top.ops|
    ensures Flat(rest + [top]) == Flat(rest + [top.(ops := Without(top.ops, n))]) + Last(top.ops, n)
  {
    var less := top.(ops := Without(top.ops, n));
    RestOfAppended(rest, top);
    RestOfAppended(rest, less);
    var f, w := Flat(rest), top.locals + top.saved;
    assert top.ops == less.ops + Last(top.ops, n);
    assert f + (w + top.ops) == f + (w + less.ops) + Last(top.ops, n);
  }

  /** Moving the stack pointer up drops operands. */
  lemma Shrunk(mem: seq<uint32>, base: uint32, stack: seq<Act>, n: nat)
    requires InMemory(mem, base, stack) && n <= |Top(stack).ops|
    ensures InMemory(mem, base, Argued(stack, n))
    ensures OptopOf(base, Argued(stack, n)) == OptopOf(base, stack) + 4 * n
    ensures VarsOf(base, Argued(stack, n)) == VarsOf(base, stack)
    ensures FrameOf(base, Argued(stack, n)) == FrameOf(base, stack)
    ensures HoldsAt(mem, OptopOf(base, stack) + 4 * n, Last(Top(stack).ops, n))
  {
    hide HoldsAt, Flat, Linked;
    var top := Top(stack);
    var less := top.(ops := Without(top.ops, n));
    TopAndRest(stack);
    FlatSplit(Rest(stack), top, n);
    HoldsConcat(mem, base, Flat(Argued(stack, n)), Last(top.ops, n));
    LinkedWithTop(base, stack, less);
    RestOfAppended(Rest(stack), less);
  }

  /** The operand `n` words above the stack pointer. */
  lemma OperandAt(mem: seq<uint32>, base: uint32, stack: seq<Act>, n: nat)
    requires InMemory(mem, base, stack) && 1 <= n <= |Top(stack).ops|
    ensures 0 <= OptopOf(base, stack) && OptopOf(base, stack) / 4 + n < |mem|
    ensures mem[OptopOf(base, stack) / 4 + n] == Top(stack).ops[|Top(stack).ops| - n]
  {
    Shrunk(mem, base, stack, n);
    assert mem[(OptopOf(base, stack) + 4 * n) / 4 - 0] == Last(Top(stack).ops, n)[0];
  }

  /** Local variable `k`, counted down from the vars register. */
  lemma LocalAt(mem: seq<uint32>, base: uint32, stack: seq<Act>, k: nat)
    requires InMemory(mem, base, stack) && k < |Top(stack).locals|
    ensures 0 <= VarsOf(base, stack) / 4 - k < |mem|
    ensures mem[VarsOf(base, stack) / 4 - k] == Top(stack).locals[k]
  {
    TopParts(mem, base, stack);
  }

  /** Where the parts of the top activation lie. */
  lemma TopParts(mem: seq<uint32>, base: uint32, stack: seq<Act>)
    requires InMemory(mem, base, stack)
    ensures InParts(mem, base, Rest(stack), Top(stack), VarsOf(base, stack))
    ensures OptopOf(base, stack) == FrameOf(base, stack) - 20 - 4 * |Top(stack).ops|
    ensures 0 <= OptopOf(base, stack) <= FrameOf(base, stack) - 20
    ensures FrameOf(base, stack) <= VarsOf(base, stack) <= base
    ensures OptopOf(base, stack) % 4 == 0 && base % 4 == 0 && base / 4 < |mem|
  {
    TopAndRest(stack);
    PartsIff(mem, base, Rest(stack), Top(stack));
  }

  lemma HoldsUpdated(mem: seq<uint32>, addr: int, ws: seq<uint32>, k: nat, v: uint32)
    requires HoldsAt(mem, addr, ws) && k < |ws|
    ensures HoldsAt(mem[addr / 4 - k := v], addr, ws[k := v])
  {
  }

  lemma Aligned(mem: seq<uint32>, addr: int, ws: seq<uint32>)
    requires HoldsAt(mem, addr, ws)
    ensures addr % 4 == 0 && 4 * |ws| <= addr && addr / 4 < |mem|
  {
  }

  /** A word written to a local variable. */
  lemma LocalWritten(mem: seq<uint32>, base: uint32, stack: seq<Act>, k: nat, v: uint32)
    requires InMemory(mem, base, stack) && k < |Top(stack).locals|
    ensures var at, stack' := VarsOf(base, stack) / 4 - k, Written(stack, k, v);
            && 0 <= at < |mem| && InMemory(mem[at := v], base, stack')
            && OptopOf(base, stack') == OptopOf(base, stack)
            && VarsOf(base, stack') == VarsOf(base, stack) && FrameOf(base, stack') == FrameOf(base, stack)
  {
    hide HoldsAt, Flat, Linked;
    var top, vars := Top(stack), VarsOf(base, stack);
    var top' := top.(locals := top.locals[k := v]);
    var at := vars / 4 - k;
    TopParts(mem, base, stack);
    TopAndRest(stack);
    PartsIff(mem, base, Rest(stack), top);
    Aligned(mem, vars, top.locals);
    Aligned(mem, base, Flat(Rest(stack)));
    HoldsElsewhere(mem, base, Flat(Rest(stack)), at, v);
    HoldsUpdated(mem, vars, top.locals, k, v);
    HoldsElsewhere(mem, vars - 4 * |top.locals|, top.saved, at, v);
    HoldsElsewhere(mem, vars - 4 * |top.locals| - 4 * |top.saved|, top.ops, at, v);
    PartsIff(mem[at := v], base, Rest(stack), top');
    LinkedWithTop(base, stack, top');
    RestOfAppended(Rest(stack), top');
  }

  /** Memory after the five words of a call have been written from index `at` downwards. */
  function Saved(mem: seq<uint32>, at: nat, ws: seq<uint32>): (r: seq<uint32>)
    requires |ws| == 5 && 4 <= at < |mem|
    ensures |r| == |mem|
  {
    mem[at := ws[0]][at - 1 := ws[1]][at - 2 := ws[2]][at - 3 := ws[3]][at - 4 := ws[4]]
  }

  /** The five words, one by one, and every other word. */
  lemma SavedWords(mem: seq<uint32>, at: nat, five: seq<uint32>)
    requires |five| == 5 && 4 <= at < |mem|
    ensures var mem' := Saved(mem, at, five);
            && |mem'| == |mem| && mem'[at] == five[0] && mem'[at - 1] == five[1] && mem'[at - 2] == five[2]
            && mem'[at - 3] == five[3] && mem'[at - 4] == five[4]
            && forall k | 0 <= k < |mem| && !(at - 4 <= k <= at) :: mem'[k] == mem[k]
  {
  }

  lemma SavedElsewhere(mem: seq<uint32>, at: nat, five: seq<uint32>, addr: int, ws: seq<uint32>)
    requires |five| == 5 && 4 <= at < |mem|
    requires HoldsAt(mem, addr, ws) && at <= addr / 4 - |ws|
    ensures HoldsAt(Saved(mem, at, five), addr, ws)
  {
  }

  /** The stack frame that a call sets up. */
  lemma Entered(mem: seq<uint32>, base: uint32, stack: seq<Act>, pc: uint32, m: Method, n: nat)
    requires InMemory(mem, base, stack) && n <= |Top(stack).ops| && m.nlocals % 4 == 0
    requires m.nlocals + 20 <= OptopOf(base, stack)
    ensures 0 <= VarsOf(base, stack) && 0 <= FrameOf(base, stack)
    ensures var at := OptopOf(base, stack) / 4;
            var stack' := Called(base, stack, pc, m, n, Below(mem, at, m.nlocals / 4));
            && InMemory(Saved(mem, at - m.nlocals / 4, Top(stack').saved), base, stack')
            && VarsOf(base, stack') == OptopOf(base, stack) + 4 * n
            && FrameOf(base, stack') == OptopOf(base, stack) - m.nlocals
            && OptopOf(base, stack') == OptopOf(base, stack) - m.nlocals - 20
  {
    hide HoldsAt, Flat, Saved, Below, Linked;
    Aligned(mem, base, Flat(stack));
    TopParts(mem, base, stack);
    var at := OptopOf(base, stack) / 4;
    var junk := Below(mem, at, m.nlocals / 4);
    var stack', less := Called(base, stack, pc, m, n, junk), Argued(stack, n);
    var callee := Top(stack');
    var mem' := Saved(mem, at - m.nlocals / 4, callee.saved);
    RestOfAppended(less, callee);
    Shrunk(mem, base, stack, n);
    EnteredMemory(mem, base, stack, m, n, junk, callee.saved);
    PartsIff(mem', base, less, callee);
    RestOfAppended(Rest(stack), Top(less));
    LinkedCall(base, less, callee);
  }

  lemma LinkedCall(base: uint32, stack: seq<Act>, callee: Act)
    requires stack != [] && Linked(base, stack) && |callee.saved| == 5
    requires callee.saved[1] == VarsOf(base, stack) && callee.saved[2] == FrameOf(base, stack)
    requires callee.saved[3] == Top(stack).cp
    ensures Linked(base, stack + [callee])
  {
    hide Flat, VarsOf, FrameOf;
    RestOfAppended(stack, callee);
  }

  lemma EnteredMemory(mem: seq<uint32>, base: uint32, stack: seq<Act>, m: Method, n: nat,
                      junk: seq<uint32>, five: seq<uint32>)
    requires InMemory(mem, base, stack) && n <= |Top(stack).ops| && m.nlocals % 4 == 0 && |five| == 5
    requires m.nlocals + 20 <= OptopOf(base, stack)
    requires junk == Below(mem, OptopOf(base, stack) / 4, m.nlocals / 4)
    ensures var at, less := OptopOf(base, stack) / 4, Argued(stack, n);
            var mem' := Saved(mem, at - m.nlocals / 4, five);
            && HoldsAt(mem', base, Flat(less))
            && HoldsAt(mem', OptopOf(base, less), Last(Top(stack).ops, n) + junk)
            && HoldsAt(mem', OptopOf(base, stack) - m.nlocals, five)
            && HoldsAt(mem', OptopOf(base, stack) - m.nlocals - 20, [])
  {
    hide HoldsAt, Flat, Saved, Below, Linked;
    var at, less := OptopOf(base, stack) / 4, Argued(stack, n);
    var start := at - m.nlocals / 4;
    Aligned(mem, base, Flat(stack));
    Shrunk(mem, base, stack, n);
    assert 4 * at == OptopOf(base, stack);
    SavedElsewhere(mem, start, five, base, Flat(less));
    SavedElsewhere(mem, start, five, 4 * at + 4 * n, Last(Top(stack).ops, n));
    SavedElsewhere(mem, start, five, 4 * at, junk);
    HoldsConcat(Saved(mem, start, five), 4 * at + 4 * n, Last(Top(stack).ops, n), junk);
    SavedHeld(mem, start, five);
  }

  lemma SavedHeld(mem: seq<uint32>, at: nat, five: seq<uint32>)
    requires |five| == 5 && 5 <= at < |mem|
    ensures HoldsAt(Saved(mem, at, five), 4 * at, five)
    ensures HoldsAt(Saved(mem, at, five), 4 * at - 20, [])
  {
  }

  /** Memory after a return has written its results from index `v` downwards. */
  function WithResults(mem: seq<uint32>, v: int, ws: seq<uint32>): seq<uint32>
    requires |ws| <= 2 && |ws| <= v < |mem|
  {
    if |ws| == 0 then mem else if |ws| == 1 then mem[v := ws[0]] else mem[v := ws[0]][v - 1 := ws[1]]
  }

  /** The results have been written over the start of the callee. */
  lemma Left(mem: seq<uint32>, base: uint32, stack: seq<Act>, results: nat)
    requires InMemory(mem, base, stack) && |stack| > 1 && results <= 2 && results <= |Top(stack).ops|
    requires results <= VarsOf(base, stack) / 4 < |mem|
    ensures InMemory(WithResults(mem, VarsOf(base, stack) / 4, Last(Top(stack).ops, results)),
                     base, Returned(stack, results))
    ensures OptopOf(base, Returned(stack, results)) == VarsOf(base, stack) - 4 * results
    ensures VarsOf(base, Returned(stack, results)) == VarsOf(base, Rest(stack))
    ensures FrameOf(base, Returned(stack, results)) == FrameOf(base, Rest(stack))
  {
    hide Flat, Linked, HoldsAt, WithResults;
    var ws, below := Last(Top(stack).ops, results), Rest(stack);
    var caller := Top(below);
    var caller' := caller.(ops := caller.ops + ws);
    ResultsAbove(mem, base, stack, ws);
    LinkedRest(base, stack);
    LinkedWithTop(base, below, caller');
    RestOfAppended(Rest(below), caller');
    TopAndRest(below);
    FlatAppended(Rest(below), caller, ws);
  }

  /** The result words lie above the activations below the callee. */
  lemma ResultsAbove(mem: seq<uint32>, base: uint32, stack: seq<Act>, ws: seq<uint32>)
    requires InMemory(mem, base, stack) && |ws| <= 2 && |ws| <= VarsOf(base, stack) / 4 < |mem|
    ensures HoldsAt(WithResults(mem, VarsOf(base, stack) / 4, ws), base, Flat(Rest(stack)) + ws)
  {
    hide Flat, Linked, HoldsAt, WithResults;
    var below := Flat(Rest(stack));
    TopParts(mem, base, stack);
    ResultsWritten(mem, base, below, ws);
    HoldsConcat(WithResults(mem, VarsOf(base, stack) / 4, ws), base, below, ws);
  }

  lemma ResultsWritten(mem: seq<uint32>, base: uint32, below: seq<uint32>, ws: seq<uint32>)
    requires HoldsAt(mem, base, below) && |ws| <= 2 && 4 * |ws| <= base - 4 * |below|
    ensures var mem', v := WithResults(mem, base / 4 - |below|, ws), base - 4 * |below|;
            v / 4 == base / 4 - |below| && HoldsAt(mem', base, below) && HoldsAt(mem', v, ws)
  {
  }

  /** The first activation: five words and nothing else. */
  lemma Bottom(mem: seq<uint32>, base: uint32, top: Act)
    requires base % 4 == 0 && 20 <= base && base / 4 < |mem| && top.locals == [] && top.ops == []
    requires var b := base / 4; top.saved == [mem[b], mem[b - 1], mem[b - 2], mem[b - 3], mem[b - 4]]
    ensures InMemory(mem, base, [top])
    ensures VarsOf(base, [top]) == FrameOf(base, [top]) == base && OptopOf(base, [top]) == base - 20
  {
    assert [] + [top] == [top] && Rest([top]) == [];
    assert Linked(base, []);
    PartsIff(mem, base, [], top);
  }

  /** Memory after `results` operand words have been copied, the deepest first, from the operand
      stack at index `at` to the start of the activation at index `v`. */
  function Copied(mem: seq<uint32>, at: int, v: int, results: nat): (r: seq<uint32>)
    requires results <= 2 && 0 <= at && at + 2 < |mem| && 2 <= v < |mem|
    ensures |r| == |mem|
  {
    if results == 0 then mem
    else if results == 1 then mem[v := mem[at + 1]]
    else
      var mem1 := mem[v := mem[at + 2]];
      mem1[v - 1 := mem1[at + 1]]
  }

  /** The copy of the results reads each operand before it could be overwritten, and destroys
      none of the saved words that are still to be read: of the first two, which it may
      overwrite when there are not two locals, the values have been taken before. */
  lemma ReturnWords(mem: seq<uint32>, base: uint32, stack: seq<Act>, results: nat)
    requires InMemory(mem, base, stack) && |stack| > 1 && results <= 2 && results <= |Top(stack).ops|
    ensures var at, v, f, saved := OptopOf(base, stack) / 4, VarsOf(base, stack) / 4, FrameOf(base, stack) / 4,
            Top(stack).saved;
            && |saved| == 5 && 0 <= at && at + 2 < |mem| && 5 <= f <= v < |mem|
            && mem[f] == saved[0] && mem[f - 1] == saved[1] && mem[f - 2] == saved[2] && mem[f - 3] == saved[3]
            && Copied(mem, at, v, results)[f - 2] == saved[2] && Copied(mem, at, v, results)[f - 3] == saved[3]
            && Copied(mem, at, v, results) == WithResults(mem, v, Last(Top(stack).ops, results))
            && (|Top(stack).locals| == 0 && results > 0 ==>
                 Copied(mem, at, v, results)[f] == Last(Top(stack).ops, results)[0])
  {
    hide Flat, Linked, HoldsAt, Copied, WithResults;
    TopParts(mem, base, stack);
    LinkedRest(base, stack);
    FiveHeld(mem, FrameOf(base, stack), Top(stack).saved);
    if results >= 1 {
      OperandAt(mem, base, stack, 1);
    }
    if results >= 2 {
      OperandAt(mem, base, stack, 2);
    }
    Aligned(mem, VarsOf(base, stack), Top(stack).locals);
    CopiedWords(mem, OptopOf(base, stack) / 4, VarsOf(base, stack) / 4, FrameOf(base, stack) / 4,
                Last(Top(stack).ops, results));
  }

  lemma CopiedWords(mem: seq<uint32>, at: int, v: int, f: int, ws: seq<uint32>)
    requires |ws| <= 2 && 0 <= at && at + |ws| + 5 <= f <= v < |mem|
    requires forall k | 0 <= k < |ws| :: ws[k] == mem[at + |ws| - k]
    ensures var mem' := Copied(mem, at, v, |ws|);
            && mem' == WithResults(mem, v, ws) && mem'[f - 2] == mem[f - 2] && mem'[f - 3] == mem[f - 3]
            && (f == v && |ws| > 0 ==> mem'[f] == ws[0])
  {
  }

  lemma FiveHeld(mem: seq<uint32>, addr: int, five: seq<uint32>)
    requires HoldsAt(mem, addr, five) && |five| == 5
    ensures addr % 4 == 0 && 5 <= addr / 4 < |mem|
    ensures forall k | 0 <= k < 5 :: mem[addr / 4 - k] == five[k]
  {
  }

  lemma LinkedRest(base: uint32, stack: seq<Act>)
    requires stack != [] && Linked(base, stack)
    ensures Linked(base, Rest(stack)) && |Top(stack).saved| == 5
    ensures |stack| > 1 ==>
              && Top(stack).saved[1] == VarsOf(base, Rest(stack))
              && Top(stack).saved[2] == FrameOf(base, Rest(stack))
              && Top(stack).saved[3] == Top(Rest(stack)).cp
  {
  }

  lemma FlatAppended(rest: seq<Act>, top: Act, ws: seq<uint32>)
    ensures Flat(rest + [top.(ops := top.ops + ws)]) == Flat(rest + [top]) + ws
  {
    RestOfAppended(rest, top);
    RestOfAppended(rest, top.(ops := top.ops + ws));
    var f, w := Flat(rest), top.locals + top.saved;
    assert f + (w + (top.ops + ws)) == f + (w + top.ops) + ws;
  }

  /** The top activation with one more, or one written, word. */
  function Pushed(stack: seq<Act>, v: uint32): (s: seq<Act>)
    requires stack != []
    ensures s != []
  {
    WithTop(stack, Top(stack).(ops := Top(stack).ops + [v]))
  }

  function Written(stack: seq<Act>, k: nat, v: uint32): seq<Act>
    requires stack != [] && k < |Top(stack).locals|
  {
    WithTop(stack, Top(stack).(locals := Top(stack).locals[k := v]))
  }

  lemma PushedTwice(stack: seq<Act>, v: uint32, w: uint32)
    requires stack != []
    ensures Pushed(Pushed(stack, v), w) == WithTop(stack, Top(stack).(ops := Top(stack).ops + [v, w]))
    ensures Argued(Pushed(Pushed(stack, v), w), 2) == stack
  {
    var ops := Top(stack).ops;
    RestOfAppended(Rest(stack), Top(stack).(ops := ops + [v]));
    RestOfAppended(Rest(stack), Top(stack).(ops := ops + [v, w]));
    assert ops + [v] + [w] == ops + [v, w];
    assert Without(ops + [v, w], 2) == ops;
    TopAndRest(stack);
  }

  lemma WrittenTop(stack: seq<Act>, k: nat, v: uint32)
    requires stack != [] && k < |Top(stack).locals|
    ensures Written(stack, k, v) != [] && Rest(Written(stack, k, v)) == Rest(stack)
    ensures Top(Written(stack, k, v)) == Top(stack).(locals := Top(stack).locals[k := v])
  {
  }

  /** The stack after a store instruction. */
  function Stored(stack: seq<Act>, offset: nat, count: nat): seq<Act>
    requires stack != [] && offset + count <= |Top(stack).locals| && count <= |Top(stack).ops|
  {
    var top := Top(stack);
    WithTop(stack, top.(locals := Overwrite(top.locals, offset, Last(top.ops, count)), ops := Without(top.ops, count)))
  }

  lemma StoredOne(stack: seq<Act>, offset: nat)
    requires stack != [] && offset < |Top(stack).locals| && 1 <= |Top(stack).ops|
    ensures Top(Written(stack, offset, Top(stack).ops[|Top(stack).ops| - 1])).ops == Top(stack).ops
    ensures Argued(Written(stack, offset, Top(stack).ops[|Top(stack).ops| - 1]), 1) == Stored(stack, offset, 1)
  {
    OverwriteOne(Top(stack).locals, offset, Top(stack).ops);
    WrittenTop(stack, offset, Top(stack).ops[|Top(stack).ops| - 1]);
  }

  lemma StoredTwo(stack: seq<Act>, offset: nat)
    requires stack != [] && offset + 1 < |Top(stack).locals| && 2 <= |Top(stack).ops|
    ensures var ops := Top(stack).ops;
            var one := Written(stack, offset, ops[|ops| - 2]);
            && |Top(one).locals| == |Top(stack).locals| && Top(one).ops == ops
            && Top(Written(one, offset + 1, ops[|ops| - 1])).ops == ops
            && Argued(Written(one, offset + 1, ops[|ops| - 1]), 2) == Stored(stack, offset, 2)
  {
    var ops := Top(stack).ops;
    OverwriteTwo(Top(stack).locals, offset, ops);
    WrittenTop(stack, offset, ops[|ops| - 2]);
    WrittenTop(Written(stack, offset, ops[|ops| - 2]), offset + 1, ops[|ops| - 1]);
  }

  lemma OverwriteOne(locals: seq<uint32>, offset: nat, ops: seq<uint32>)
    requires offset < |locals| && 1 <= |ops|
    ensures Overwrite(locals, offset, Last(ops, 1)) == locals[offset := ops[|ops| - 1]]
  {
  }

  lemma OverwriteTwo(locals: seq<uint32>, offset: nat, ops: seq<uint32>)
    requires offset + 1 < |locals| && 2 <= |ops|
    ensures Overwrite(locals, offset, Last(ops, 2)) == locals[offset := ops[|ops| - 2]][offset + 1 := ops[|ops| - 1]]
  {
  }

  lemma TopOfPushed(stack: seq<Act>, v: uint32)
    requires stack != []
    ensures Pushed(stack, v) != [] && Top(Pushed(stack, v)).cp == Top(stack).cp
    ensures Top(Pushed(stack, v)).locals == Top(stack).locals && |Top(Pushed(stack, v)).ops| == |Top(stack).ops| + 1
  {
  }

  lemma TopOfArgued(stack: seq<Act>, n: nat)
    requires stack != [] && n <= |Top(stack).ops|
    ensures Argued(stack, n) != [] && Top(Argued(stack, n)).cp == Top(stack).cp
  {
  }

  /** Two words copied from local variables to the free stack slots. */
  lemma TwoLoaded(mem: seq<uint32>, base: uint32, stack: seq<Act>, offset: nat)
    requires InMemory(mem, base, stack) && 8 <= OptopOf(base, stack) && offset + 1 < |Top(stack).locals|
    ensures var at, vars, locals := OptopOf(base, stack) / 4, VarsOf(base, stack) / 4, Top(stack).locals;
            var grown := Pushed(Pushed(stack, locals[offset]), locals[offset + 1]);
            && at < |mem| && 0 <= vars - offset - 1 && vars - offset < |mem|
            && var mem1 := mem[at := mem[vars - offset]];
            && var mem2 := mem1[at - 1 := mem1[vars - offset - 1]];
            && InMemory(mem2, base, grown) && InMemory(mem2, base, stack)
            && OptopOf(base, grown) == OptopOf(base, stack) - 8
            && VarsOf(base, grown) == VarsOf(base, stack) && FrameOf(base, grown) == FrameOf(base, stack)
            && Top(grown).cp == Top(stack).cp
  {
    hide InMemory, Pushed, Argued, OptopOf, VarsOf, FrameOf;
    NotEmpty(mem, base, stack);
    var v, w := Top(stack).locals[offset], Top(stack).locals[offset + 1];
    var one := Pushed(stack, v);
    LocalAt(mem, base, stack, offset);
    Grown(mem, base, stack, v);
    TopOfPushed(stack, v);
    var mem1 := mem[OptopOf(base, stack) / 4 := v];
    LocalAt(mem1, base, one, offset + 1);
    Grown(mem1, base, one, w);
    TopOfPushed(one, w);
    PushedTwice(stack, v, w);
    Shrunk(mem1[OptopOf(base, one) / 4 := w], base, Pushed(one, w), 2);
  }

  lemma OneStored(mem: seq<uint32>, base: uint32, stack: seq<Act>, offset: nat)
    requires InMemory(mem, base, stack) && offset < |Top(stack).locals| && 1 <= |Top(stack).ops|
    ensures var at, vars := OptopOf(base, stack) / 4, VarsOf(base, stack) / 4;
            && 0 <= at && at + 1 < |mem| && 0 <= vars - offset < |mem|
            && InMemory(mem[vars - offset := mem[at + 1]], base, Stored(stack, offset, 1))
            && StoredRegisters(base, stack, offset, 1)
  {
    hide InMemory, Stored, Written, Argued, OptopOf, VarsOf, FrameOf;
    NotEmpty(mem, base, stack);
    var v := Top(stack).ops[|Top(stack).ops| - 1];
    OperandAt(mem, base, stack, 1);
    LocalWritten(mem, base, stack, offset, v);
    WrittenTop(stack, offset, v);
    StoredOne(stack, offset);
    Shrunk(mem[VarsOf(base, stack) / 4 - offset := v], base, Written(stack, offset, v), 1);
    TopOfStored(stack, offset, 1);
  }

  lemma TwoStored(mem: seq<uint32>, base: uint32, stack: seq<Act>, offset: nat)
    requires InMemory(mem, base, stack) && offset + 1 < |Top(stack).locals| && 2 <= |Top(stack).ops|
    ensures var at, vars := OptopOf(base, stack) / 4, VarsOf(base, stack) / 4;
            && 0 <= at && at + 2 < |mem| && 0 <= vars - offset - 1 && vars - offset < |mem|
            && var mem1 := mem[vars - offset := mem[at + 2]];
            && InMemory(mem1[vars - offset - 1 := mem1[at + 1]], base, Stored(stack, offset, 2))
            && StoredRegisters(base, stack, offset, 2)
  {
    hide InMemory, Stored, Written, Argued, OptopOf, VarsOf, FrameOf;
    NotEmpty(mem, base, stack);
    var v, w := Top(stack).ops[|Top(stack).ops| - 2], Top(stack).ops[|Top(stack).ops| - 1];
    var one := Written(stack, offset, v);
    StoredTwo(stack, offset);
    OperandAt(mem, base, stack, 2);
    LocalWritten(mem, base, stack, offset, v);
    WrittenTop(stack, offset, v);
    var mem1 := mem[VarsOf(base, stack) / 4 - offset := v];
    OperandAt(mem1, base, one, 1);
    LocalWritten(mem1, base, one, offset + 1, w);
    WrittenTop(one, offset + 1, w);
    Shrunk(mem1[VarsOf(base, one) / 4 - (offset + 1) := w], base, Written(one, offset + 1, w), 2);
    TopOfStored(stack, offset, 2);
  }

  predicate StoredRegisters(base: uint32, stack: seq<Act>, offset: nat, count: nat)
    requires stack != [] && offset + count <= |Top(stack).locals| && count <= |Top(stack).ops|
  {
    var stack' := Stored(stack, offset, count);
    && OptopOf(base, stack') == OptopOf(base, stack) + 4 * count
    && VarsOf(base, stack') == VarsOf(base, stack) && FrameOf(base, stack') == FrameOf(base, stack)
    && Top(stack').cp == Top(stack).cp
  }

  lemma TopOfStored(stack: seq<Act>, offset: nat, count: nat)
    requires stack != [] && offset + count <= |Top(stack).locals| && count <= |Top(stack).ops|
    ensures Stored(stack, offset, count) != [] && Top(Stored(stack, offset, count)).cp == Top(stack).cp
  {
  }

  // ----- what a callee can and cannot do

  /** The activations below the first `d + 1`, and the words saved in activation `d`, are as in `t`. */
  predicate CallersKept(s: State, t: State, d: nat)
    requires d < |s.stack| && d < |t.stack|
  {
    s.stack[..d] == t.stack[..d] && s.stack[d].saved == t.stack[d].saved
  }

  lemma StepKeepsCallers(base: uint32, s: State, step: Step, t: State, d: nat)
    requires Legal(s, step) && Next(base, s, step, t)
    requires d < |s.stack| && d < |t.stack|
    ensures CallersKept(s, t, d)
  {
    hide Wrap32, VarsOf, FrameOf, Flat, Overwrite, Last, Without, Rearranged;
    match step
    case Invoke(m, nargs) =>
      TopOnly(s.stack, Top(Argued(s.stack, nargs / 4)), d);
      assert t.stack[..d] == Argued(s.stack, nargs / 4)[..d];
    case Return(r) =>
      TopOnly(Rest(s.stack), Top(t.stack), d);
      assert Rest(s.stack)[..d] == s.stack[..d];
    case _ =>
      TopOnly(s.stack, Top(t.stack), d);
  }

  lemma TopOnly(stack: seq<Act>, a: Act, d: nat)
    requires d < |stack| && a.saved == Top(stack).saved
    ensures WithTop(stack, a)[..d] == stack[..d] && WithTop(stack, a)[d].saved == stack[d].saved
  {
  }

  /** The run from state `i` to state `j` never leaves the activations above the first `d`. */
  predicate StaysAbove(states: seq<State>, i: nat, j: nat, d: nat)
    requires i <= j < |states|
  {
    forall k | i <= k <= j :: d < |states[k].stack|
  }

  lemma {:induction false} RunKeepsCallers(base: uint32, steps: seq<Step>, states: seq<State>, i: nat, j: nat, d: nat)
    requires Run(base, steps, states) && i <= j < |states| && StaysAbove(states, i, j, d)
    ensures CallersKept(states[i], states[j], d)
    decreases j - i
  {
    hide Legal, Next;
    if i < j {
      RunKeepsCallers(base, steps, states, i, j - 1, d);
      StepKeepsCallers(base, states[j - 1], steps[j - 1], states[j], d);
    }
  }

  /** A call, anything the callee and its callees do, and the return of that callee: the caller
      continues behind the call, its arguments have been replaced by the results, and everything
      else is as it was, however deep the recursion in between. */
  lemma BalancedCall(base: uint32, steps: seq<Step>, states: seq<State>, m: Method, nargs: nat, results: nat)
    requires Run(base, steps, states) && |steps| >= 2
    requires steps[0] == Invoke(m, nargs) && steps[|steps| - 1] == Return(results)
    requires StaysAbove(states, 1, |steps| - 1, |states[0].stack|)
    requires |states[|steps|].stack| == |states[0].stack|
    ensures var first, last := states[0], states[|steps|];
            && Legal(first, steps[0]) && results <= |Top(states[|steps| - 1].stack).ops|
            && states[1].pc == m.code && |states[1].stack| == |first.stack| + 1
            && var args, callee := Top(first.stack).ops[|Top(first.stack).ops| - nargs / 4..], Top(states[1].stack);
            && callee.locals[..|args|] == args && callee.ops == [] && callee.cp == m.constPool
            && last.pc == (first.pc + 3) % 0x1_0000_0000
            && last.stack == WithTop(first.stack, Top(first.stack).(ops :=
                 Without(Top(first.stack).ops, nargs / 4) + Last(Top(states[|steps| - 1].stack).ops, results)))
            && VarsOf(base, last.stack) == VarsOf(base, first.stack)
            && FrameOf(base, last.stack) == FrameOf(base, first.stack)
            && OptopOf(base, last.stack) == OptopOf(base, first.stack) + nargs - 4 * results
  {
    var n, d := |steps| - 1, |states[0].stack|;
    var first, inside, before, last := states[0], states[1], states[n], states[n + 1];
    assert Legal(first, steps[0]) && Next(base, first, steps[0], inside);
    assert Legal(before, steps[n]) && Next(base, before, steps[n], last);
    RunKeepsCallers(base, steps, states, 1, n, d);
    var u := Argued(first.stack, nargs / 4);
    assert inside.stack[..d] == u;
    assert Rest(before.stack) == before.stack[..d] == u;
    RestOfAppended(Rest(first.stack), Top(u));
    assert Top(before.stack) == before.stack[d] && Top(inside.stack) == inside.stack[d];
    var a := Top(first.stack).(ops := Without(Top(first.stack).ops, nargs / 4) + Last(Top(before.stack).ops, results));
    RestOfAppended(Rest(first.stack), a);
    assert last.stack == Rest(first.stack) + [a];
    PartsIff([], base, Rest(first.stack), a);
    TopAndRest(first.stack);
    PartsIff([], base, Rest(first.stack), Top(first.stack));
  }
}
