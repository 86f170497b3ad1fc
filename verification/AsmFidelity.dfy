/** What the round trip preserves: operands, branch targets, labels, and the limits of it. */
module AsmFidelity {
  import opened Bits
  import opened JavaInts
  import opened Opcodes
  import opened Jasm
  import opened AsmRoundTrip
  import opened AsmProgram
  import Jdis

  // ----- operands

  function Targets(env: Env, labels: seq<Arg>): (s: seq<int>)
    ensures |s| == |labels|
  {
    if labels == [] then [] else Targets(env, labels[..|labels| - 1]) + [Value(env, labels[|labels| - 1])]
  }

  /** The operand that was given, if one was. */
  function Given(env: Env, x: Arg): seq<int> {
    if x == NoArg then [] else [Value(env, x)]
  }

  /** An instruction as it was given to the assembler: absolute targets, the two bytes that an indexed
      load or store packs into one argument, and otherwise all operands that were given, in full and
      whether or not there is room for them. */
  function Source(i: Instr, env: Env): Jdis.Text
    requires WellFormed(i)
  {
    var opc, a := i.opc, Value(env, i.arg);
    if opc == 170 then
      Jdis.TableText(i.table.low, i.table.high, Targets(env, i.table.slots), Value(env, i.table.def))
    else if opc == 171 then
      Jdis.LookupText(i.table.keys, Targets(env, i.table.labels), Value(env, i.table.def))
    else if 153 <= opc <= 168 || 198 <= opc <= 201 then Jdis.Jump(opc, a)
    else if 238 <= opc <= 246 then Jdis.Line(opc, [a / 0x100, a % 0x100])
    else Jdis.Line(opc, Given(env, i.arg) + Given(env, i.arg2))
  }

  predicate IsInt(x: int) {
    -0x8000_0000 <= x < 0x8000_0000
  }

  /** Every value the instruction uses, and the distance of a short branch, is a Java int. */
  predicate UsesInts(i: Instr, env: Env) {
    && IsInt(i.pc)
    && IsInt(Value(env, i.arg)) && IsInt(Value(env, i.arg2))
    && (IsBranch(i.opc) ==> IsInt(Value(env, i.arg) - i.pc))
    && (i.table.TableR? ==> IsInt(Value(env, i.table.def)) && forall l | l in i.table.slots :: IsInt(Value(env, l)))
    && (i.table.LookupR? ==> IsInt(Value(env, i.table.def)) && (forall l | l in i.table.labels :: IsInt(Value(env, l)))
                             && (forall k | k in i.table.keys :: IsInt(k)))
  }

  /** The operands the disassembler can give back: bytes are read unsigned (the increment of iinc
      and the value of bipush too), shorts signed (constant pool and wide local indexes too), and
      16-bit branch displacements have to fit. Of the indexed loads and stores, and of the extended
      opcode 21, nothing at all is printed unless the disassembler is told that the code is for Maya.
      An operand that the opcode does not take is not written, so there must be none. */
  predicate InRange(i: Instr, env: Env, maya: bool) {
    var opc, low, a, b := i.opc, i.opc % 0x100, Value(env, i.arg), Value(env, i.arg2);
    var none, one := i.arg == NoArg && i.arg2 == NoArg, i.arg2 == NoArg;
    if opc == 170 || opc == 171 || opc == 200 || opc == 201 then true
    else if opc / 0x100 == 255 then none && (low == 21 ==> maya)
    else if opc / 0x100 == 196 then -0x8000 <= a < 0x8000 && if low == 132 then -0x8000 <= b < 0x8000 else one
    else if 153 <= opc <= 168 || opc == 198 || opc == 199 then -0x8000 <= a - i.pc < 0x8000
    else if opc == 132 then 0 <= a < 0x100 && 0 <= b < 0x100
    else if opc == 185 || opc == 197 then -0x8000 <= a < 0x8000 && 0 <= b < 0x100
    else if opc == 237 then 0 <= a < 0x1_0000 && one
    else if 238 <= opc <= 246 then 0 <= a < 0x1_0000 && maya
    else if opc == 16 || opc == 18 || 21 <= opc <= 25 || 54 <= opc <= 58 || opc == 169 || opc == 188 then
      0 <= a < 0x100 && one
    else if opc == 17 || opc == 19 || opc == 20 || 178 <= opc <= 184 || opc == 187 || opc == 189
            || opc == 192 || opc == 193 then -0x8000 <= a < 0x8000 && one
    else none
  }

  lemma WideTarget(pc: nat, a: int)
    requires IsInt(a)
    ensures S32(pc + S32(a - pc)) == a == S32(S32(a - pc) + pc)
  {
    var k := (S32(a - pc) - (a - pc)) / 0x1_0000_0000;
    assert S32(a - pc) == a - pc + 0x1_0000_0000 * k;
    S32Period(a, k);
  }

  lemma ShortTarget(pc: nat, a: int)
    requires IsInt(a) && IsInt(a - pc)
    ensures S32(pc + S16(a - pc)) == a <==> Fits16(a - pc)
  {
    var k := (S16(a - pc) - (a - pc)) / 0x1_0000;
    assert S16(a - pc) == a - pc + 0x1_0000 * k;
    assert -0x1_0000 < k < 0x1_0000;
    if k != 0 {
      var m := (S32(a + 0x1_0000 * k) - (a + 0x1_0000 * k)) / 0x1_0000_0000;
      assert S32(a + 0x1_0000 * k) == a + 0x1_0000 * k + 0x1_0000_0000 * m;
    }
  }

  lemma {:induction false} TableTargets(env: Env, labels: seq<Arg>, pc: nat)
    requires forall l | l in labels :: IsInt(Value(env, l))
    ensures Jdis.Absolute(pc, Displacements(env, labels, pc)) == Targets(env, labels)
  {
    hide S32, Value;
    if labels != [] {
      var n := |labels| - 1;
      TableTargets(env, labels[..n], pc);
      assert labels[n] in labels;
      WideTarget(pc, Value(env, labels[n]));
      var d := Displacements(env, labels, pc);
      assert d[..|d| - 1] == Displacements(env, labels[..n], pc);
    }
  }

  lemma {:induction false} KeysKept(keys: seq<int>)
    requires forall k | k in keys :: IsInt(k)
    ensures Ints(keys) == keys
  {
    if keys != [] {
      KeysKept(keys[..|keys| - 1]);
      assert keys[|keys| - 1] in keys;
    }
  }

  lemma ByteKept(a: int)
    ensures a % 0x100 == a <==> 0 <= a < 0x100
  {
  }

  lemma HalfKept(a: int)
    ensures a % 0x1_0000 == a <==> 0 <= a < 0x1_0000
    ensures a / 0x100 % 0x100 == a / 0x100 <==> 0 <= a < 0x1_0000
  {
  }

  /** The listing shows an instruction as it was given exactly when its operands are in range. */
  lemma OperandsKeptIff(i: Instr, env: Env, maya: bool)
    requires WellFormed(i) && UsesInts(i, env)
    ensures Shown(i, env, maya) == Source(i, env) <==> InRange(i, env, maya)
  {
    var a, b := Value(env, i.arg), Value(env, i.arg2);
    hide S16, S32, Value, Jdis.Absolute, Displacements, Targets, Ints;
    if i.opc == OPC_TABLESWITCH {
      TableTargets(env, i.table.slots, i.pc);
      WideTarget(i.pc, Value(env, i.table.def));
    } else if i.opc == OPC_LOOKUPSWITCH {
      TableTargets(env, i.table.labels, i.pc);
      KeysKept(i.table.keys);
      WideTarget(i.pc, Value(env, i.table.def));
    } else if i.opc < 0x100 {
      PlainOperandsKeptIff(i, env, maya);
    } else {
      PrefixedOperandsKeptIff(i, env, maya);
    }
  }

  lemma PrefixedOperandsKeptIff(i: Instr, env: Env, maya: bool)
    requires WellFormed(i) && i.opc >= 0x100
    ensures Shown(i, env, maya) == Source(i, env) <==> InRange(i, env, maya)
  {
    var a, b := Value(env, i.arg), Value(env, i.arg2);
    hide S16, Value;
    S16Identity(a);
    S16Identity(b);
    var shown, source := Shown(i, env, maya), Source(i, env);
    if shown.Line? {
      SameOperands(shown.operands, source.operands);
    }
  }

  lemma PlainOperandsKeptIff(i: Instr, env: Env, maya: bool)
    requires WellFormed(i) && UsesInts(i, env) && i.opc < 0x100 && !IsSwitch(i.opc)
    ensures Shown(i, env, maya) == Source(i, env) <==> InRange(i, env, maya)
  {
    var a, b := Value(env, i.arg), Value(env, i.arg2);
    hide S16, S32, Value;
    S16Identity(a);
    S16Identity(b);
    ByteKept(a);
    ByteKept(b);
    HalfKept(a);
    WideTarget(i.pc, a);
    if IsBranch(i.opc) {
      ShortTarget(i.pc, a);
    }
    var shown, source := Shown(i, env, maya), Source(i, env);
    if shown.Line? && source.Line? {
      SameOperands(shown.operands, source.operands);
    }
  }

  lemma SameOperands(s: seq<int>, t: seq<int>)
    requires |s| <= 2
    ensures s == t <==> |s| == |t| && (|s| > 0 ==> s[0] == t[0]) && (|s| > 1 ==> s[1] == t[1])
  {
  }

  // ----- labels

  /** The addresses the instruction refers to, and the distance of a short branch, are Java ints. */
  predicate TargetInts(i: Instr, env: Env)
    requires WellFormed(i)
  {
    && IsInt(i.pc)
    && (IsBranch(i.opc) || IsWideBranch(i.opc) ==> IsInt(Value(env, i.arg)))
    && (IsBranch(i.opc) ==> IsInt(Value(env, i.arg) - i.pc))
    && (IsSwitch(i.opc) ==> IsInt(Value(env, i.table.def)) && forall l | l in TableLabels(i) :: IsInt(Value(env, l)))
  }

  function TableLabels(i: Instr): seq<Arg>
    requires WellFormed(i) && IsSwitch(i.opc)
  {
    if i.opc == OPC_TABLESWITCH then i.table.slots else i.table.labels
  }

  /** A short branch reaches its target. */
  predicate Reaches(i: Instr, env: Env) {
    IsBranch(i.opc) ==> Fits16(Value(env, i.arg) - i.pc)
  }

  /** The listing refers to the addresses that were given exactly if a short branch reaches them;
      no other operand matters. */
  lemma TargetsKeptIff(i: Instr, env: Env, maya: bool)
    requires WellFormed(i) && TargetInts(i, env)
    ensures Jdis.TextRefs(Shown(i, env, maya)) == Jdis.TextRefs(Source(i, env)) <==> Reaches(i, env)
  {
    hide S16, S32, Value, Fits16, Jdis.Absolute, Jdis.Elements, Displacements, Targets, Ints;
    if IsSwitch(i.opc) {
      TableTargets(env, TableLabels(i), i.pc);
      WideTarget(i.pc, Value(env, i.table.def));
    } else if IsBranch(i.opc) {
      ShortTarget(i.pc, Value(env, i.arg));
      OneTarget(S32(i.pc + S16(Value(env, i.arg) - i.pc)), Value(env, i.arg));
    } else if IsWideBranch(i.opc) {
      WideTarget(i.pc, Value(env, i.arg));
    }
  }

  lemma OneTarget(a: int, b: int)
    ensures {a} == {b} <==> a == b
  {
    assert a in {a};
  }

  /** All targets of the instruction, as given, are starts of instructions or the end of the code. */
  predicate Anchored(i: Instr, env: Env, starts: seq<nat>) {
    && WellFormed(i) && TargetInts(i, env) && Reaches(i, env)
    && forall t: int | t in Jdis.TextRefs(Source(i, env)) :: t in starts
  }

  /** Then so are all addresses that the disassembler labels: no printed target dangles. */
  lemma {:induction false} TargetsAreStarts(instrs: seq<Instr>, env: Env, n: nat)
    requires LaidOut(instrs) && AllDense(instrs) && n <= |instrs|
    requires forall k | 0 <= k < n :: Anchored(instrs[k], env, Starts(instrs, |instrs|))
    ensures Jdis.Walk(CodeOf(instrs, env), Starts(instrs, |instrs|))
    ensures forall t: int | t in Jdis.AllRefs(CodeOf(instrs, env), Starts(instrs, |instrs|), n) ::
              t in Starts(instrs, |instrs|)
  {
    hide CodeOf, Starts, LaidOut, AllDense, Jdis.Walk, Jdis.Readable, Jdis.Print, Jdis.Refs, Jdis.RefLength,
         Jdis.PrintLength, Jdis.TextRefs, Shown, Source, WellFormed, TargetInts, Reaches, LengthOf;
    WalksVisitThePcs(instrs, env);
    if n > 0 {
      TargetsAreStarts(instrs, env, n - 1);
      var i, code := instrs[n - 1], CodeOf(instrs, env);
      InPlaceDecodes(instrs, env, true, n - 1);
      Jdis.RefsArePrinted(code, i.pc, true);
      TargetsKeptIff(i, env, true);
    }
  }

  /** A label that was defined lies at such a place, in every state of the assembler. */
  lemma DefinedLabelIsAStart(instrs: seq<Instr>, lab: Local)
    requires LaidOut(instrs) && lab.Label? && lab.defd
    requires LabelOk(instrs, Starts(instrs, |instrs|)[|instrs|], lab)
    ensures exists s: nat | s in Starts(instrs, |instrs|) :: s == lab.arg
  {
    var starts, n := Starts(instrs, |instrs|), |instrs|;
    hide Starts, WellFormed;
    if lab.arg == starts[n] {
      assert starts[n] in starts;
    } else {
      var i :| i in instrs && i.pc == lab.arg;
      var k :| 0 <= k < n && instrs[k] == i;
      NextStart(instrs, k);
      assert starts[k] in starts;
    }
  }

  /** And so does the default of a switch that was given none. */
  lemma DefaultIsAStart(instrs: seq<Instr>, k: nat)
    requires LaidOut(instrs) && k < |instrs|
    ensures WellFormed(instrs[k]) && instrs[k].pc + LengthOf(instrs[k]) in Starts(instrs, |instrs|)
  {
    hide Starts, LaidOut, WellFormed, LengthOf;
    NextStart(instrs, k);
    assert Starts(instrs, |instrs|)[k + 1] in Starts(instrs, |instrs|);
  }

  /** A target is symbolic if it is a label that has been defined, or the next instruction, which is
      what a switch without a default goes to. */
  predicate IsSymbolic(locals: map<string, Local>, i: Instr, a: Arg)
    requires WellFormed(i)
  {
    || (a.LabelArg? && a.name in locals && locals[a.name].Label? && locals[a.name].defd)
    || a == Lit(i.pc + LengthOf(i))
  }

  predicate TargetsAreSymbolic(locals: map<string, Local>, i: Instr) {
    && WellFormed(i)
    && (IsBranch(i.opc) || IsWideBranch(i.opc) ==> IsSymbolic(locals, i, i.arg))
    && (IsSwitch(i.opc) ==>
          IsSymbolic(locals, i, i.table.def) && forall l | l in TableLabels(i) :: IsSymbolic(locals, i, l))
  }

  /** The slots of a resolved table are labels of its pairs, or the default. */
  lemma {:induction false} LabelIsGiven(keys: seq<int>, labels: seq<Arg>, key: int, def: Arg)
    requires |keys| == |labels|
    ensures LabelFor(keys, labels, key, def) == def || LabelFor(keys, labels, key, def) in labels
  {
    if keys != [] && keys[|keys| - 1] != key {
      LabelIsGiven(keys[..|keys| - 1], labels[..|labels| - 1], key, def);
    }
  }

  /** So a table whose pairs and default are symbolic has symbolic targets only. */
  lemma TableIsSymbolic(locals: map<string, Local>, i: Instr, keys: seq<int>, labels: seq<Arg>)
    requires WellFormed(i) && i.opc == OPC_TABLESWITCH && |keys| == |labels|
    requires TableOf(i.table, keys, labels, i.table.def, i.pc)
    requires IsSymbolic(locals, i, i.table.def) && forall l | l in labels :: IsSymbolic(locals, i, l)
    ensures TargetsAreSymbolic(locals, i)
  {
    hide IsSymbolic, LabelFor, IsLow, IsHigh, IsInstruction;
    forall l | l in i.table.slots
      ensures IsSymbolic(locals, i, l)
    {
      var k :| 0 <= k < |i.table.slots| && i.table.slots[k] == l;
      LabelIsGiven(keys, labels, i.table.low + k, i.table.def);
    }
  }

  /** The value of a symbolic target is the start of an instruction or the end of the code. */
  lemma SymbolicIsAStart(m: Jasm.MethodData, env: Env, k: nat, a: Arg)
    requires m.Valid() && env.labels == m.LabelValues() && k < |m.instrs|
    requires WellFormed(m.instrs[k]) && IsSymbolic(m.locals, m.instrs[k], a)
    ensures LaidOut(m.instrs)
    ensures exists s: nat | s in Starts(m.instrs, |m.instrs|) :: s == Value(env, a) <= m.curPc
  {
    hide Starts, LaidOut, WellFormed, LengthOf, Start, LabelOk;
    assert LaidOut(m.instrs);
    StartsAt(m.instrs, |m.instrs|, |m.instrs|);
    if a.LabelArg? && a.name in m.locals && m.locals[a.name].Label? && m.locals[a.name].defd {
      DefinedLabelIsAStart(m.instrs, m.locals[a.name]);
    } else {
      DefaultIsAStart(m.instrs, k);
    }
    var s :| s in Starts(m.instrs, |m.instrs|) && s == Value(env, a);
    StartsAreInCode(m.instrs, s);
  }

  lemma StartsAreInCode(instrs: seq<Instr>, s: nat)
    requires LaidOut(instrs) && s in Starts(instrs, |instrs|)
    ensures s <= Start(instrs, |instrs|)
  {
    hide Starts, LaidOut, WellFormed, LengthOf, Start;
    AllWellFormed(instrs);
    var k :| 0 <= k <= |instrs| && Starts(instrs, |instrs|)[k] == s;
    StartsAt(instrs, |instrs|, k);
    StartsGrow(instrs, k, |instrs|);
  }

  lemma {:induction false} StartsGrow(instrs: seq<Instr>, j: nat, k: nat)
    requires j <= k <= |instrs| && forall i | i in instrs :: WellFormed(i)
    ensures Start(instrs, j) <= Start(instrs, k)
    decreases k
  {
    hide WellFormed, LengthOf;
    if j < k {
      StartsGrow(instrs, j, k - 1);
    }
  }

  /** An instruction with symbolic targets, of a method that the assembler has built. */
  lemma SymbolicIsAnchored(m: Jasm.MethodData, env: Env, k: nat)
    requires m.Valid() && env.labels == m.LabelValues() && m.curPc < 0x8000_0000 && k < |m.instrs|
    requires TargetsAreSymbolic(m.locals, m.instrs[k]) && Reaches(m.instrs[k], env)
    ensures LaidOut(m.instrs) && Anchored(m.instrs[k], env, Starts(m.instrs, |m.instrs|))
  {
    hide Starts, LaidOut, LengthOf, Start, IsSymbolic, Value, LabelOk, Fits16, Source;
    var i := m.instrs[k];
    assert LaidOut(m.instrs);
    NextStart(m.instrs, k);
    var starts := Starts(m.instrs, |m.instrs|);
    assert starts[k] in starts;
    StartsAreInCode(m.instrs, i.pc);
    forall a: Arg | IsSymbolic(m.locals, i, a)
      ensures 0 <= Value(env, a) <= m.curPc && Value(env, a) in starts
    {
      SymbolicIsAStart(m, env, k, a);
    }
    forall t: int | t in Jdis.TextRefs(Source(i, env))
      ensures t in starts
    {
      RefersTo(i, env, t);
    }
  }

  /** Every address an instruction refers to is the value of one of its targets. */
  lemma RefersTo(i: Instr, env: Env, t: int)
    requires WellFormed(i) && t in Jdis.TextRefs(Source(i, env))
    ensures if IsSwitch(i.opc) then
              t == Value(env, i.table.def) || exists l :: l in TableLabels(i) && Value(env, l) == t
            else (IsBranch(i.opc) || IsWideBranch(i.opc)) && t == Value(env, i.arg)
  {
    hide Value, Targets;
    if IsSwitch(i.opc) {
      TargetsOf(env, TableLabels(i));
    }
  }

  lemma {:induction false} TargetsOf(env: Env, labels: seq<Arg>)
    ensures forall t | t in Targets(env, labels) :: exists l :: l in labels && Value(env, l) == t
  {
    if labels != [] {
      var n := |labels| - 1;
      TargetsOf(env, labels[..n]);
      assert labels[n] in labels;
    }
  }

  /** In the code of any method whose targets are symbolic and whose short branches reach them, every
      address that the disassembler labels is the start of an instruction or the end of the code. */
  lemma LabelsAreStarts(m: Jasm.MethodData, cells: map<nat, int>)
    requires m.Valid() && AllDense(m.instrs) && m.curPc < 0x8000_0000
    requires forall i | i in m.instrs ::
               TargetsAreSymbolic(m.locals, i) && Reaches(i, Env(m.LabelValues(), cells))
    ensures LaidOut(m.instrs)
    ensures var code, starts := CodeOf(m.instrs, Env(m.LabelValues(), cells)), Starts(m.instrs, |m.instrs|);
            && Jdis.Walk(code, starts)
            && forall t: int | t in Jdis.AllRefs(code, starts, |m.instrs|) :: t in starts
  {
    hide Starts, CodeOf, LaidOut, Start, LabelOk, TargetsAreSymbolic, Reaches, Anchored, AllDense, Jdis.Walk;
    var env := Env(m.LabelValues(), cells);
    assert LaidOut(m.instrs);
    forall k | 0 <= k < |m.instrs|
      ensures Anchored(m.instrs[k], env, Starts(m.instrs, |m.instrs|))
    {
      assert m.instrs[k] in m.instrs;
      SymbolicIsAnchored(m, env, k);
    }
    TargetsAreStarts(m.instrs, env, |m.instrs|);
  }

  // ----- limits

  /** A negative byte is listed as a positive one, and a far branch with another target. */
  lemma NegativeAndFarAreLost(env: Env, maya: bool)
    ensures var i := Instr(0, OPC_BIPUSH, Lit(-1), NoArg, NoTable);
            && WellFormed(i) && UsesInts(i, env)
            && Source(i, env) == Jdis.Line(OPC_BIPUSH, [-1]) && Shown(i, env, maya) == Jdis.Line(OPC_BIPUSH, [255])
    ensures var i := Instr(0, OPC_GOTO, Lit(40000), NoArg, NoTable);
            && WellFormed(i) && UsesInts(i, env)
            && Source(i, env) == Jdis.Jump(OPC_GOTO, 40000) && Shown(i, env, maya) == Jdis.Jump(OPC_GOTO, -25536)
  {
  }

  /** An indexed load is not listed at all without the Maya option. */
  lemma IndexedIsNotListed(env: Env)
    ensures var i := Instr(0, 238, Lit(5), NoArg, NoTable);
            && WellFormed(i) && UsesInts(i, env)
            && Source(i, env) == Jdis.Line(238, [0, 5]) && Shown(i, env, false) == Jdis.Silent
  {
  }

  /** A tableswitch without keys, as resolution makes it. */
  function EmptySwitch(): Instr {
    Instr(0, OPC_TABLESWITCH, NoArg, NoArg, TableR(3, Lit(16), 0x7FFF_FFFF, -0x8000_0000, [], 0))
  }

  /** It is written in 16 bytes, of which the disassembler makes an instruction of 24. */
  lemma EmptySwitchIsMisread(code: seq<byte>, env: Env)
    requires Stands(code, EmptySwitch(), env) && Jdis.Readable(code, 0)
    ensures TableOf(EmptySwitch().table, [], [], Lit(16), 0)
    ensures |Encoding(EmptySwitch(), env)| == 16 && Jdis.PrintLength(code, 0) == 24
  {
    hide S16, GetShort, GetInt, Stands, Encoding, Jdis.SwitchInside, Jdis.PrintLength, Jdis.Readable;
    PrintedTableLength(code, EmptySwitch(), env);
    EncodingLength(EmptySwitch(), env);
  }

  /** A tableswitch with at least one pair is printed to its end. An empty one is not: its range
      is MAX_VALUE to MIN_VALUE, and the Java subtraction makes two entries of that. */
  lemma TableReadIff(code: seq<byte>, i: Instr, env: Env, keys: seq<int>, labels: seq<Arg>)
    requires Stands(code, i, env) && PadOk(i) && i.opc == OPC_TABLESWITCH
    requires |keys| == |labels| && SpanFits(keys) && TableOf(i.table, keys, labels, i.table.def, i.pc)
    requires Jdis.Readable(code, i.pc)
    ensures Jdis.PrintLength(code, i.pc) == |Encoding(i, env)| <==> keys != []
    ensures LengthOf(i) == |Encoding(i, env)| <==> |keys| == |i.table.slots|
  {
    var t := i.table;
    hide S16, S32, GetShort, GetInt, Bytes, Value, Encoding, SpanFits, IsLow, IsHigh, LabelFor, Jdis.SwitchInside,
         Jdis.PrintLength, Jdis.Readable, OpcLength, IsInstruction;
    PrintedTableLength(code, i, env);
    EncodingLength(i, env);
    KeysAreInts(keys, t.low, t.high);
    PaddingAligns(i.pc);
  }

  lemma PrintedTableLength(code: seq<byte>, i: Instr, env: Env)
    requires Stands(code, i, env) && PadOk(i) && i.opc == OPC_TABLESWITCH
    requires Jdis.Readable(code, i.pc)
    ensures Jdis.PrintLength(code, i.pc)
            == Jdis.Align(i.pc + 1) - i.pc + 16 + S32(S32(i.table.high) - S32(i.table.low)) * 4
  {
    hide S16, S32, GetShort, GetInt, Stands, WellFormed, Jdis.SwitchInside, Jdis.Align;
    RangeReadsBack(code, i, env);
  }

  lemma RangeReadsBack(code: seq<byte>, i: Instr, env: Env)
    requires Stands(code, i, env) && PadOk(i) && i.opc == OPC_TABLESWITCH
    ensures var tb := Jdis.Align(i.pc + 1);
            && tb + 12 <= |code| && code[i.pc] == OPC_TABLESWITCH
            && GetInt(code, tb + 4) == S32(i.table.low) && GetInt(code, tb + 8) == S32(i.table.high)
  {
    hide S16, S32, GetShort, GetInt, Bytes, Value, At, PadOk;
    var t, tb := i.table, Jdis.Align(i.pc + 1);
    var def := Value(env, t.def) - i.pc;
    var head, rest := [F32(t.low)] + [F32(t.high)], Offsets(env, t.slots, i.pc);
    assert [F32(def), F32(t.low), F32(t.high)] == [F32(def)] + head;
    EncodingAt(code, i, env);
    SwitchHead(code, i, def, head, rest);
    HeadReadsBack(code, tb + 4, F32(t.low), [F32(t.high)]);
    AtField(code, tb + 8, F32(t.high));
  }

  lemma EncodingAt(code: seq<byte>, i: Instr, env: Env)
    requires Stands(code, i, env) && i.opc < 0x100
    ensures At(code, i.pc, [F8(i.opc)] + Operands(i, env))
  {
    hide Bytes, Operands;
  }

  lemma KeysAreInts(keys: seq<int>, low: int, high: int)
    requires SpanFits(keys) && IsLow(keys, low) && IsHigh(keys, high)
    ensures S32(low) == low && S32(high) == high
    ensures S32(S32(high) - S32(low)) == if keys == [] then 1 else high - low
    ensures keys != [] ==> low <= high
  {
  }

  // ----- end to end

  /** Writing a finished method, reading the length and the code back, and printing them. */
  method AssembleAndPrint(m: Jasm.MethodData, cells: map<nat, int>, maya: bool)
    returns (r: Outcome, lines: seq<Jdis.Printed>, ghost referred: set<int>)
    requires m.Valid() && AllDense(m.instrs) && m.curPc < 0x8000_0000
    ensures r == CompilerError <==> exists i | i in m.instrs ::
              i.opc == OPC_LDC && !(0 <= Value(Env(m.LabelValues(), cells), i.arg) < 0x100)
    ensures r == Written ==>
              && |lines| == |m.instrs|
              && forall k | 0 <= k < |lines| ::
                   lines[k] == Expected(m.instrs[k], Env(m.LabelValues(), cells), maya, referred)
    ensures var env := Env(m.LabelValues(), cells);
            r == Written && (forall i | i in m.instrs :: UsesInts(i, env)) ==>
              forall k | 0 <= k < |m.instrs| :: ListedIff(m.instrs[k], lines[k], env, maya)
    ensures r == Written ==>
              && Jdis.Walk(CodeOf(m.instrs, Env(m.LabelValues(), cells)), Starts(m.instrs, |m.instrs|))
              && referred == Jdis.AllRefs(CodeOf(m.instrs, Env(m.LabelValues(), cells)), Starts(m.instrs, |m.instrs|),
                   |m.instrs|)
    ensures var env := Env(m.LabelValues(), cells);
            r == Written && (forall i | i in m.instrs :: TargetsAreSymbolic(m.locals, i) && Reaches(i, env)) ==>
              forall t | t in referred :: t in Starts(m.instrs, |m.instrs|)
  {
    hide *;
    ghost var instrs, env := m.instrs, Env(m.LabelValues(), cells);
    Announced(m, env);
    var out := new DataOutputStream();
    r := m.WriteCode(out, cells);
    lines, referred := [], {};
    if r == Written {
      WalksVisitThePcs(instrs, env);
      HeaderReadsBack(m.curPc, CodeOf(instrs, env));
      var length := GetInt(out.bytes, 0);
      var code := out.bytes[4..4 + length];
      var reader := new Jdis.MethodData(code);
      lines := reader.PrintCode(maya, Starts(instrs, |instrs|));
      referred := reader.referred;
      ListingShowsTheSource(instrs, env, maya, referred, |instrs|);
      if forall i | i in instrs :: UsesInts(i, env) {
        LinesAreSourceIff(instrs, env, maya, referred, lines);
      }
      if forall i | i in instrs :: TargetsAreSymbolic(m.locals, i) && Reaches(i, env) {
        LabelsAreStarts(m, cells);
      }
    }
  }

  /** A line shows its instruction as it was given exactly if the operands are in range. */
  predicate ListedIff(i: Instr, line: Jdis.Printed, env: Env, maya: bool) {
    WellFormed(i) && (line.text == Source(i, env) <==> InRange(i, env, maya))
  }

  /** A whole listing shows the source exactly where the operands are in range. */
  lemma LinesAreSourceIff(instrs: seq<Instr>, env: Env, maya: bool, referred: set<int>, lines: seq<Jdis.Printed>)
    requires |lines| == |instrs| && forall i | i in instrs :: WellFormed(i) && UsesInts(i, env)
    requires forall k | 0 <= k < |lines| :: lines[k] == Expected(instrs[k], env, maya, referred)
    ensures forall k | 0 <= k < |lines| :: ListedIff(instrs[k], lines[k], env, maya)
  {
    hide Shown, Source, WellFormed, UsesInts, InRange;
    forall k | 0 <= k < |lines|
      ensures ListedIff(instrs[k], lines[k], env, maya)
    {
      OperandsKeptIff(instrs[k], env, maya);
    }
  }

  lemma Announced(m: Jasm.MethodData, env: Env)
    requires m.Valid() && AllDense(m.instrs)
    ensures LaidOut(m.instrs) && |CodeOf(m.instrs, env)| == m.curPc
    ensures forall i | i in m.instrs :: WellFormed(i)
    ensures CodeOf(m.instrs, env) == Code(m.instrs, env)
  {
    AllWellFormed(m.instrs);
    hide WellFormed, AllDense, Starts, Code, Start, LaidOut;
    EndsWithTheCode(m.instrs, env);
    StartsAt(m.instrs, |m.instrs|, |m.instrs|);
  }

  /** The announced length, followed by the code. */
  lemma HeaderReadsBack(n: nat, code: seq<byte>)
    requires n == |code| < 0x8000_0000
    ensures var bytes := [] + IntOf(n) + code;
            && GetInt(bytes, 0) == n && 4 + n <= |bytes| && bytes[4..4 + n] == code
  {
    var bytes := [] + IntOf(n) + code;
    assert bytes[0..4] == IntOf(n);
    IntRoundTrip(bytes, 0, n);
  }
}
