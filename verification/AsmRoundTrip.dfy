/** Assembling and then disassembling a method body. */
module AsmRoundTrip {
  import opened Bits
  import opened JavaInts
  import opened Opcodes
  import opened Jasm
  import Jdis

  // ----- what a disassembly has to show for an instruction

  /** The displacements a table of labels is written as. */
  function Displacements(env: Env, labels: seq<Arg>, pc: nat): (s: seq<int>)
    ensures |s| == |labels|
  {
    if labels == [] then []
    else Displacements(env, labels[..|labels| - 1], pc) + [S32(Value(env, labels[|labels| - 1]) - pc)]
  }

  function Ints(keys: seq<int>): (s: seq<int>)
    ensures |s| == |keys|
  {
    if keys == [] then [] else Ints(keys[..|keys| - 1]) + [S32(keys[|keys| - 1])]
  }

  /** The text of an instruction: its operands, cut to the width of their fields and read
      signed or unsigned as the disassembler does, and its absolute branch targets. */
  function Shown(i: Instr, env: Env, maya: bool): Jdis.Text
    requires WellFormed(i)
  {
    var a, b := Value(env, i.arg), Value(env, i.arg2);
    if i.opc == OPC_TABLESWITCH then
      Jdis.TableText(i.table.low, i.table.high, Jdis.Absolute(i.pc, Displacements(env, i.table.slots, i.pc)),
                     S32(S32(Value(env, i.table.def) - i.pc) + i.pc))
    else if i.opc == OPC_LOOKUPSWITCH then
      Jdis.LookupText(Ints(i.table.keys), Jdis.Absolute(i.pc, Displacements(env, i.table.labels, i.pc)),
                      S32(S32(Value(env, i.table.def) - i.pc) + i.pc))
    else if i.opc / 0x100 == OPC_EXTENDED then
      if i.opc % 0x100 == 21 && !maya then Jdis.Silent else Jdis.Line(i.opc, [])
    else if i.opc / 0x100 == OPC_WIDE then
      Jdis.Line(i.opc, if i.opc % 0x100 == OPC_IINC then [S16(a), S16(b)] else [S16(a)])
    else if IsBranch(i.opc) then Jdis.Jump(i.opc, S32(i.pc + S16(a - i.pc)))
    else if IsWideBranch(i.opc) then Jdis.Jump(i.opc, S32(i.pc + S32(a - i.pc)))
    else if i.opc == OPC_IINC then Jdis.Line(i.opc, [a % 0x100, b % 0x100])
    else if i.opc == OPC_INVOKEINTERFACE || i.opc == OPC_MULTIANEWARRAY then Jdis.Line(i.opc, [S16(a), b % 0x100])
    else if i.opc == OPC_SETHI then Jdis.Line(i.opc, [a % 0x1_0000])
    else if IsIndexed(i.opc) then
      if maya then Jdis.Line(i.opc, [a / 0x100 % 0x100, a % 0x100]) else Jdis.Silent
    else if OpcLength(i.opc) == Defined(2) then Jdis.Line(i.opc, [a % 0x100])
    else if OpcLength(i.opc) == Defined(3) then Jdis.Line(i.opc, [S16(a)])
    else Jdis.Line(i.opc, [])
  }

  /** A tableswitch whose slots are as many as its pairs, and at least one; a lookupswitch of printable size. */
  predicate Dense(i: Instr)
    requires WellFormed(i)
  {
    && (i.opc == OPC_TABLESWITCH ==>
          && i.table.pairs == |i.table.slots| == i.table.high - i.table.low + 1
          && 0 < i.table.pairs < 0x8000_0000
          && S32(i.table.low) == i.table.low && S32(i.table.high) == i.table.high)
    && (i.opc == OPC_LOOKUPSWITCH ==> |i.table.keys| < 0x8000_0000)
  }

  // ----- reading fields back

  /** The bytes of `fs` stand in `code` from `at` on. */
  predicate At(code: seq<byte>, at: nat, fs: seq<Field>) {
    at + |Bytes(fs)| <= |code| && code[at..at + |Bytes(fs)|] == Bytes(fs)
  }

  lemma AtInside(code: seq<byte>, at: nat, fs: seq<Field>)
    requires At(code, at, fs)
    ensures at + |Bytes(fs)| <= |code|
  {
  }

  lemma AtSplit(code: seq<byte>, at: nat, fs: seq<Field>, gs: seq<Field>)
    requires At(code, at, fs + gs)
    ensures At(code, at, fs) && At(code, at + |Bytes(fs)|, gs)
  {
    hide Bytes;
    BytesConcat(fs, gs);
    var n, all := |Bytes(fs)|, code[at..at + |Bytes(fs + gs)|];
    assert all[..n] == Bytes(fs) && all[n..] == Bytes(gs);
    assert code[at..at + n] == all[..n];
    assert code[at + n..at + n + |Bytes(gs)|] == all[n..];
  }

  /** Reading a single field. */
  lemma AtField(code: seq<byte>, at: nat, f: Field)
    requires At(code, at, [f])
    ensures f.F8? ==> at + 1 <= |code| && |Bytes([f])| == 1 && code[at] == f.v % 0x100
    ensures f.F16? ==> at + 2 <= |code| && |Bytes([f])| == 2 && GetShort(code, at) == S16(f.v)
                       && code[at] == f.v / 0x100 % 0x100 && code[at + 1] == f.v % 0x100
    ensures f.F32? ==> at + 4 <= |code| && |Bytes([f])| == 4 && GetInt(code, at) == S32(f.v)
  {
    SingleField(f);
    match f
    case F8(v) =>
      assert code[at..at + 1][0] == v % 0x100;
    case F16(v) =>
      ShortRoundTrip(code, at, v);
      assert code[at..at + 2][0] == v / 0x100 % 0x100 && code[at..at + 2][1] == v % 0x100;
    case F32(v) =>
      IntRoundTrip(code, at, v);
  }

  /** Two fields after an opcode, and so on: the field at hand and what follows it. */
  lemma AtNext(code: seq<byte>, at: nat, f: Field, fs: seq<Field>)
    requires At(code, at, [f] + fs)
    ensures At(code, at, [f])
    ensures At(code, at + |FieldBytes(f)|, fs)
  {
    AtSplit(code, at, [f], fs);
    SingleField(f);
  }

  // ----- one instruction

  /** The opcodes of one byte, with at most two operands. */
  predicate IsSimple(opc: int) {
    0 <= opc < 0x100 && IsInstruction(opc) && !IsSwitch(opc)
  }

  /** What `f` reads back as, at address `at`. */
  predicate ReadsBack(code: seq<byte>, at: nat, f: Field) {
    match f
    case F8(v) => at + 1 <= |code| && code[at] == v % 0x100
    case F16(v) => at + 2 <= |code| && GetShort(code, at) == S16(v)
                   && code[at] == v / 0x100 % 0x100 && code[at + 1] == v % 0x100
    case F32(v) => at + 4 <= |code| && GetInt(code, at) == S32(v)
  }

  function Width(f: Field): nat {
    match f case F8(_) => 1 case F16(_) => 2 case F32(_) => 4
  }

  lemma HeadReadsBack(code: seq<byte>, at: nat, f: Field, fs: seq<Field>)
    requires At(code, at, [f] + fs)
    ensures ReadsBack(code, at, f) && At(code, at + Width(f), fs)
    ensures |Bytes([f] + fs)| == Width(f) + |Bytes(fs)|
  {
    hide S16, S32, S8, GetShort, GetInt, At, Bytes;
    AtNext(code, at, f, fs);
    AtField(code, at, f);
    SingleField(f);
    BytesConcat([f], fs);
  }

  /** An opcode byte followed by at most three operand fields. */
  lemma OperandsReadBack(code: seq<byte>, at: nat, op: Field, fs: seq<Field>)
    requires At(code, at, [op] + fs) && op.F8? && |fs| <= 3
    ensures ReadsBack(code, at, op)
    ensures |fs| >= 1 ==> ReadsBack(code, at + 1, fs[0])
    ensures |fs| >= 2 ==> ReadsBack(code, at + 1 + Width(fs[0]), fs[1])
    ensures |fs| >= 3 ==> ReadsBack(code, at + 1 + Width(fs[0]) + Width(fs[1]), fs[2])
    ensures |Bytes([op] + fs)| == 1 + (if |fs| >= 1 then Width(fs[0]) else 0)
              + (if |fs| >= 2 then Width(fs[1]) else 0) + (if |fs| >= 3 then Width(fs[2]) else 0)
  {
    hide S16, S32, S8, GetShort, GetInt, Bytes, At, ReadsBack;
    NoBytes();
    HeadReadsBack(code, at, op, fs);
    if |fs| >= 1 {
      assert fs == [fs[0]] + fs[1..];
      HeadReadsBack(code, at + 1, fs[0], fs[1..]);
    }
    if |fs| >= 2 {
      assert fs[1..] == [fs[1]] + fs[2..];
      HeadReadsBack(code, at + 1 + Width(fs[0]), fs[1], fs[2..]);
    }
    if |fs| >= 3 {
      assert fs[2..] == [fs[2]] + [];
      HeadReadsBack(code, at + 1 + Width(fs[0]) + Width(fs[1]), fs[2], []);
    }
    assert |fs| == 1 ==> fs[1..] == [];
    assert |fs| == 2 ==> fs[2..] == [];
  }

  lemma SimpleDecodes(code: seq<byte>, i: Instr, env: Env, maya: bool)
    requires WellFormed(i) && IsSimple(i.opc)
    requires At(code, i.pc, [F8(i.opc)] + Operands(i, env))
    ensures Jdis.Readable(code, i.pc) && Jdis.Print(code, i.pc, maya) == Shown(i, env, maya)
    ensures Jdis.PrintLength(code, i.pc) == Jdis.RefLength(code, i.pc) == LengthOf(i)
            == |Bytes([F8(i.opc)] + Operands(i, env))|
  {
    hide S16, S32, S8, GetShort, GetInt, Bytes, At, Value, Jdis.SwitchInside, Jdis.PrintSwitch, Jdis.SwitchLength,
         Jdis.Prefixed, HasWideName, Zeros, Offsets, Pairs;
    OperandsReadBack(code, i.pc, F8(i.opc), Operands(i, env));
    S16Low(Value(env, i.arg));
  }

  /** The wide and the picoJava extended forms. */
  lemma PrefixedDecodes(code: seq<byte>, i: Instr, env: Env, maya: bool)
    requires WellFormed(i) && i.opc >= 0x100
    requires i.pc + |Encoding(i, env)| <= |code| && code[i.pc..i.pc + |Encoding(i, env)|] == Encoding(i, env)
    ensures Jdis.Readable(code, i.pc) && Jdis.Print(code, i.pc, maya) == Shown(i, env, maya)
    ensures Jdis.PrintLength(code, i.pc) == Jdis.RefLength(code, i.pc) == LengthOf(i) == |Encoding(i, env)|
  {
    hide S16, S32, S8, GetShort, GetInt, Bytes, Value, ShortOf;
    var a, b, lo := Value(env, i.arg), Value(env, i.arg2), i.opc % 0x100;
    if i.opc / 0x100 == OPC_EXTENDED {
      assert [F8(OPC_EXTENDED)] + [F8(i.opc)] == [F8(OPC_EXTENDED), F8(i.opc)];
      OperandsReadBack(code, i.pc, F8(OPC_EXTENDED), [F8(i.opc)]);
    } else if lo == OPC_IINC {
      var fs := [F8(i.opc), F16(a), F16(b)];
      assert [F8(OPC_WIDE)] + fs == [F8(OPC_WIDE), F8(i.opc), F16(a)] + [F16(b)];
      OperandsReadBack(code, i.pc, F8(OPC_WIDE), fs);
    } else {
      var fs := [F8(i.opc), F16(a)];
      assert [F8(OPC_WIDE)] + fs == [F8(OPC_WIDE), F8(i.opc), F16(a)] + [];
      OperandsReadBack(code, i.pc, F8(OPC_WIDE), fs);
    }
  }

  // ----- switches

  lemma {:induction false} ZerosLength(n: nat)
    ensures |Bytes(Zeros(n))| == n
  {
    if n > 0 {
      ZerosLength(n - 1);
      AppendOne(Zeros(n - 1), F8(0));
    }
  }

  lemma {:induction false} OffsetsReadBack(code: seq<byte>, at: nat, env: Env, labels: seq<Arg>, pc: nat)
    requires At(code, at, Offsets(env, labels, pc))
    ensures |Bytes(Offsets(env, labels, pc))| == 4 * |labels|
    ensures at + 4 * |labels| <= |code|
    ensures Jdis.Ints4(code, at, |labels|) == Displacements(env, labels, pc)
  {
    hide S16, S32, S8, GetShort, GetInt, Bytes, At, Value;
    if labels == [] {
      NoBytes();
      AtInside(code, at, []);
    } else {
      var init, last := labels[..|labels| - 1], Value(env, labels[|labels| - 1]) - pc;
      var fs := Offsets(env, init, pc);
      AtSplit(code, at, fs, [F32(last)]);
      BytesConcat(fs, [F32(last)]);
      OffsetsReadBack(code, at, env, init, pc);
      AtField(code, at + 4 * |init|, F32(last));
    }
  }

  lemma {:induction false} PairsReadBack(code: seq<byte>, at: nat, env: Env, keys: seq<int>, labels: seq<Arg>, pc: nat)
    requires |keys| == |labels| && At(code, at, Pairs(env, keys, labels, pc))
    ensures |Bytes(Pairs(env, keys, labels, pc))| == 8 * |labels|
    ensures at + 8 * |labels| <= |code|
    ensures Jdis.Ints8(code, at, |labels|) == Ints(keys)
    ensures Jdis.Ints8(code, at + 4, |labels|) == Displacements(env, labels, pc)
  {
    hide S16, S32, S8, GetShort, GetInt, Bytes, At, Value;
    if labels == [] {
      NoBytes();
      AtInside(code, at, []);
    } else {
      var n := |labels| - 1;
      var last := Value(env, labels[n]) - pc;
      var fs := Pairs(env, keys[..n], labels[..n], pc);
      AtSplit(code, at, fs, [F32(keys[n]), F32(last)]);
      BytesConcat(fs, [F32(keys[n]), F32(last)]);
      PairsReadBack(code, at, env, keys[..n], labels[..n], pc);
      assert [F32(keys[n]), F32(last)] == [F32(keys[n])] + [F32(last)];
      HeadReadsBack(code, at + 8 * n, F32(keys[n]), [F32(last)]);
      AtField(code, at + 8 * n + 4, F32(last));
    }
  }

  /** The padding ends exactly where the disassembler aligns to. */
  lemma PaddingAligns(pc: nat)
    ensures pc + 1 + Pad(pc) == Jdis.Align(pc + 1)
  {
  }

  lemma SmallIsItself(x: int)
    requires -0x8000_0000 <= x < 0x8000_0000
    ensures S32(x) == x
  {
  }

  /** The fixed part of a switch: opcode, padding, and the first ints of the table. */
  lemma SwitchHead(code: seq<byte>, i: Instr, def: int, head: seq<Field>, rest: seq<Field>)
    requires IsSwitch(i.opc) && PadOk(i)
    requires At(code, i.pc, [F8(i.opc)] + (Zeros(i.table.pad) + ([F32(def)] + head) + rest))
    ensures ReadsBack(code, i.pc, F8(i.opc))
    ensures var tb := Jdis.Align(i.pc + 1);
            && ReadsBack(code, tb, F32(def))
            && At(code, tb + 4, head) && At(code, tb + 4 + |Bytes(head)|, rest)
            && |Bytes([F8(i.opc)] + (Zeros(i.table.pad) + ([F32(def)] + head) + rest))|
               == tb - i.pc + 4 + |Bytes(head)| + |Bytes(rest)|
  {
    hide S16, S32, S8, GetShort, GetInt, Bytes, At, ReadsBack;
    var pad := Zeros(i.table.pad);
    var table := pad + ([F32(def)] + head) + rest;
    PaddingAligns(i.pc);
    ZerosLength(i.table.pad);
    HeadReadsBack(code, i.pc, F8(i.opc), table);
    assert table == pad + ([F32(def)] + (head + rest));
    AtSplit(code, i.pc + 1, pad, [F32(def)] + (head + rest));
    BytesConcat(pad, [F32(def)] + (head + rest));
    HeadReadsBack(code, i.pc + 1 + i.table.pad, F32(def), head + rest);
    AtSplit(code, i.pc + 1 + i.table.pad + 4, head, rest);
    BytesConcat(head, rest);
  }

  lemma TableDecodes(code: seq<byte>, i: Instr, env: Env, maya: bool)
    requires WellFormed(i) && i.opc == OPC_TABLESWITCH && PadOk(i) && Dense(i)
    requires At(code, i.pc, [F8(i.opc)] + Operands(i, env))
    ensures Jdis.Readable(code, i.pc) && Jdis.Print(code, i.pc, maya) == Shown(i, env, maya)
    ensures Jdis.PrintLength(code, i.pc) == Jdis.RefLength(code, i.pc) == LengthOf(i)
            == |Bytes([F8(i.opc)] + Operands(i, env))|
  {
    hide S16, S32, S8, GetShort, GetInt, Bytes, At, Value, Jdis.Align, Pad, Zeros, Offsets, Displacements, Pairs,
         Jdis.Absolute, Jdis.Ints4, Jdis.Ints8, Jdis.Prefixed, HasWideName;
    var t, tb := i.table, Jdis.Align(i.pc + 1);
    var def := Value(env, t.def) - i.pc;
    var head, rest := [F32(t.low)] + [F32(t.high)], Offsets(env, t.slots, i.pc);
    assert [F32(def), F32(t.low), F32(t.high)] == [F32(def)] + head;
    SwitchHead(code, i, def, head, rest);
    HeadReadsBack(code, tb + 4, F32(t.low), [F32(t.high)]);
    AtField(code, tb + 8, F32(t.high));
    OffsetsReadBack(code, tb + 12, env, t.slots, i.pc);
    SmallIsItself(t.high - t.low);
    PaddingAligns(i.pc);
  }

  lemma LookupDecodes(code: seq<byte>, i: Instr, env: Env, maya: bool)
    requires WellFormed(i) && i.opc == OPC_LOOKUPSWITCH && PadOk(i) && Dense(i)
    requires At(code, i.pc, [F8(i.opc)] + Operands(i, env))
    ensures Jdis.Readable(code, i.pc) && Jdis.Print(code, i.pc, maya) == Shown(i, env, maya)
    ensures Jdis.PrintLength(code, i.pc) == Jdis.RefLength(code, i.pc) == LengthOf(i)
            == |Bytes([F8(i.opc)] + Operands(i, env))|
  {
    hide S16, S32, S8, GetShort, GetInt, Bytes, At, Value, Jdis.Align, Pad, Zeros, Pairs, Displacements, Ints;
    var t, tb := i.table, Jdis.Align(i.pc + 1);
    var def := Value(env, t.def) - i.pc;
    var head, rest := [F32(|t.keys|)], Pairs(env, t.keys, t.labels, i.pc);
    assert [F32(def), F32(|t.keys|)] == [F32(def)] + head;
    SwitchHead(code, i, def, head, rest);
    AtField(code, tb + 4, F32(|t.keys|));
    PairsReadBack(code, tb + 8, env, t.keys, t.labels, i.pc);
    SmallIsItself(|t.keys|);
    PaddingAligns(i.pc);
  }

  /** Every instruction whose tables are dense is read back, by both walks, as it was written. */
  lemma InstrDecodes(code: seq<byte>, i: Instr, env: Env, maya: bool)
    requires WellFormed(i) && PadOk(i) && Dense(i)
    requires i.pc + |Encoding(i, env)| <= |code| && code[i.pc..i.pc + |Encoding(i, env)|] == Encoding(i, env)
    ensures Jdis.Readable(code, i.pc) && Jdis.Print(code, i.pc, maya) == Shown(i, env, maya)
    ensures Jdis.PrintLength(code, i.pc) == Jdis.RefLength(code, i.pc) == LengthOf(i) == |Encoding(i, env)|
  {
    hide Bytes, Operands, Jdis.Readable, Jdis.Print, Jdis.PrintLength, Jdis.RefLength, Shown, LengthOf;
    if i.opc >= 0x100 {
      PrefixedDecodes(code, i, env, maya);
    } else if i.opc == OPC_TABLESWITCH {
      TableDecodes(code, i, env, maya);
    } else if i.opc == OPC_LOOKUPSWITCH {
      LookupDecodes(code, i, env, maya);
    } else {
      SimpleDecodes(code, i, env, maya);
    }
  }

  // ----- the bytes, number by number

  /** The bytes of an instruction without a table, for each group of the instruction set: `a` and `b` are
      what the arguments stand for, -1 if there is none or it was never defined. */
  lemma EncodingSpelledOut(i: Instr, env: Env, a: int, b: int)
    requires WellFormed(i) && i.opc != 170 && i.opc != 171
    requires a == match i.arg
                  case NoArg => -1
                  case Lit(n) => n
                  case LabelArg(name) => if name in env.labels then env.labels[name] else -1
                  case CellArg(id) => if id in env.cells then env.cells[id] else -1
    requires b == match i.arg2
                  case NoArg => -1
                  case Lit(n) => n
                  case LabelArg(name) => if name in env.labels then env.labels[name] else -1
                  case CellArg(id) => if id in env.cells then env.cells[id] else -1
    ensures var opc, d := i.opc, a - i.pc;
            Encoding(i, env) ==
            if 255 * 256 <= opc then [255, opc % 256]
            else if 196 * 256 <= opc then
              [196, opc % 256, a / 256 % 256, a % 256] + if opc % 256 == 132 then [b / 256 % 256, b % 256] else []
            else if opc == 16 || opc == 18 || 21 <= opc <= 25 || 54 <= opc <= 58 || opc == 169 || opc == 188 then
              [opc, a % 256]
            else if opc == 17 || opc == 19 || opc == 20 || 178 <= opc <= 184 || opc == 187 || opc == 189
                    || opc == 192 || opc == 193 || 237 <= opc <= 246 then
              [opc, a / 256 % 256, a % 256]
            else if 153 <= opc <= 168 || opc == 198 || opc == 199 then [opc, d / 256 % 256, d % 256]
            else if opc == 200 || opc == 201 then
              [opc, d / 0x100_0000 % 256, d / 0x1_0000 % 256, d / 256 % 256, d % 256]
            else if opc == 132 then [132, a % 256, b % 256]
            else if opc == 185 then [185, a / 256 % 256, a % 256, b % 256, 0]
            else if opc == 197 then [197, a / 256 % 256, a % 256, b % 256]
            else [opc]
  {
    hide Bytes, Value;
    ValueIs(env, i.arg);
    ValueIs(env, i.arg2);
    if i.opc >= 0x100 {
      PrefixedBytes(i, env);
    } else {
      OperandBytes(F8(i.opc), Operands(i, env));
    }
  }

  lemma ValueIs(env: Env, x: Arg)
    ensures Value(env, x) ==
            match x
            case NoArg => -1
            case Lit(n) => n
            case LabelArg(name) => if name in env.labels then env.labels[name] else -1
            case CellArg(id) => if id in env.cells then env.cells[id] else -1
  {
  }

  lemma HeadBytes(f: Field, fs: seq<Field>)
    ensures Bytes([f] + fs) == FieldBytes(f) + Bytes(fs)
  {
    hide Bytes, FieldBytes;
    BytesConcat([f], fs);
    SingleField(f);
  }

  lemma OperandBytes(op: Field, fs: seq<Field>)
    requires |fs| <= 3
    ensures Bytes([op] + fs) ==
            FieldBytes(op) + if |fs| == 0 then []
                             else if |fs| == 1 then FieldBytes(fs[0])
                             else if |fs| == 2 then FieldBytes(fs[0]) + FieldBytes(fs[1])
                             else FieldBytes(fs[0]) + FieldBytes(fs[1]) + FieldBytes(fs[2])
  {
    hide Bytes, FieldBytes;
    HeadBytes(op, fs);
    NoBytes();
    if |fs| == 1 {
      assert fs == [fs[0]];
      SingleField(fs[0]);
    } else if |fs| == 2 {
      assert fs == [fs[0]] + [fs[1]];
      AppendOne([fs[0]], fs[1]);
      SingleField(fs[0]);
    } else if |fs| == 3 {
      assert fs == [fs[0]] + [fs[1], fs[2]];
      Append2([fs[0]], fs[1], fs[2]);
      SingleField(fs[0]);
    }
  }

  lemma PrefixedBytes(i: Instr, env: Env)
    requires WellFormed(i) && i.opc >= 0x100
    ensures var opc, a, b := i.opc, Value(env, i.arg), Value(env, i.arg2);
            Encoding(i, env) ==
            if 255 * 256 <= opc then [255, opc % 256]
            else [196, opc % 256, a / 256 % 256, a % 256] + if opc % 256 == 132 then [b / 256 % 256, b % 256] else []
  {
    hide Bytes, Value;
    var a, b := F16(Value(env, i.arg)), F16(Value(env, i.arg2));
    if i.opc / 0x100 == OPC_EXTENDED {
      assert [F8(OPC_EXTENDED)] + [F8(i.opc)] == [F8(OPC_EXTENDED), F8(i.opc)];
      OperandBytes(F8(OPC_EXTENDED), [F8(i.opc)]);
    } else if i.opc % 0x100 == OPC_IINC {
      assert [F8(OPC_WIDE)] + [F8(i.opc), a, b] == [F8(OPC_WIDE), F8(i.opc), a] + [b];
      OperandBytes(F8(OPC_WIDE), [F8(i.opc), a, b]);
    } else {
      assert [F8(OPC_WIDE)] + [F8(i.opc), a] == [F8(OPC_WIDE), F8(i.opc), a] + [];
      OperandBytes(F8(OPC_WIDE), [F8(i.opc), a]);
    }
  }

  /** The bytes of a switch: zeros up to a multiple of four, then four bytes for each field. */
  lemma SwitchSpelledOut(i: Instr, env: Env)
    requires WellFormed(i) && (i.opc == 170 || i.opc == 171) && PadOk(i)
    ensures var e, p := Encoding(i, env), 1 + (3 - i.pc) % 4;
            && |e| == p + (if i.opc == 170 then 12 + 4 * |i.table.slots| else 8 + 8 * |i.table.keys|)
            && (i.pc + p) % 4 == 0 && e[0] == i.opc && (forall k | 1 <= k < p :: e[k] == 0)
            && e[p..p + 4] == IntOf(Value(env, i.table.def) - i.pc)
            && (i.opc == 170 ==>
                 && e[p + 4..p + 8] == IntOf(i.table.low) && e[p + 8..p + 12] == IntOf(i.table.high)
                 && forall k | 0 <= k < |i.table.slots| ::
                      e[p + 12 + 4 * k..p + 16 + 4 * k] == IntOf(Value(env, i.table.slots[k]) - i.pc))
            && (i.opc == 171 ==>
                 && e[p + 4..p + 8] == IntOf(|i.table.keys|)
                 && forall k | 0 <= k < |i.table.keys| ::
                      && e[p + 8 + 8 * k..p + 12 + 8 * k] == IntOf(i.table.keys[k])
                      && e[p + 12 + 8 * k..p + 16 + 8 * k] == IntOf(Value(env, i.table.labels[k]) - i.pc))
  {
    hide Bytes, Value, IntOf, Zeros, Offsets, Pairs, FieldBytes;
    SwitchStart(i);
    if i.opc == 170 {
      TableBytes(i, env);
    } else {
      LookupBytes(i, env);
    }
  }

  /** The opcode and the padding. */
  function SwitchPrefix(i: Instr): seq<byte>
    requires WellFormed(i) && (i.opc == 170 || i.opc == 171)
  {
    [i.opc] + Bytes(Zeros(i.table.pad))
  }

  lemma SwitchStart(i: Instr)
    requires WellFormed(i) && (i.opc == 170 || i.opc == 171) && PadOk(i)
    ensures var p := 1 + (3 - i.pc) % 4;
            && |SwitchPrefix(i)| == p && (i.pc + p) % 4 == 0
            && SwitchPrefix(i)[0] == i.opc && forall k | 1 <= k < p :: SwitchPrefix(i)[k] == 0
  {
    hide Bytes;
    ZerosAre(i.table.pad);
  }

  lemma {:induction false} ZerosAre(n: nat)
    ensures |Bytes(Zeros(n))| == n && forall k | 0 <= k < n :: Bytes(Zeros(n))[k] == 0
  {
    if n > 0 {
      ZerosAre(n - 1);
      AppendOne(Zeros(n - 1), F8(0));
    }
  }

  lemma TableBytes(i: Instr, env: Env)
    requires WellFormed(i) && i.opc == 170
    ensures var e, p, t := Encoding(i, env), |SwitchPrefix(i)|, i.table;
            && |e| == p + 12 + 4 * |t.slots| && e[..p] == SwitchPrefix(i)
            && e[p..p + 4] == IntOf(Value(env, t.def) - i.pc)
            && e[p + 4..p + 8] == IntOf(t.low) && e[p + 8..p + 12] == IntOf(t.high)
            && forall k | 0 <= k < |t.slots| ::
                 e[p + 12 + 4 * k..p + 16 + 4 * k] == IntOf(Value(env, t.slots[k]) - i.pc)
  {
    hide Value, IntOf, Zeros, Offsets, Bytes, Encoding, SwitchPrefix, IsInstruction;
    var t := i.table;
    var def, rest := F32(Value(env, t.def) - i.pc), Offsets(env, t.slots, i.pc);
    var head := [def, F32(t.low), F32(t.high)];
    SwitchBytes(i, env, head, rest);
    NoBytes();
    Append3([], def, F32(t.low), F32(t.high));
    assert [] + head == head;
    OffsetsLength(env, t.slots, i.pc);
    ThreeAndRest(SwitchPrefix(i), IntOf(def.v), IntOf(t.low), IntOf(t.high), Bytes(rest));
    var e, q := Encoding(i, env), |SwitchPrefix(i)| + 12;
    forall k | 0 <= k < |t.slots|
      ensures e[q + 4 * k..q + 4 + 4 * k] == IntOf(Value(env, t.slots[k]) - i.pc)
    {
      OffsetAt(env, t.slots, i.pc, k);
      PartOfRest(e, q, 4 * k);
    }
  }

  lemma LookupBytes(i: Instr, env: Env)
    requires WellFormed(i) && i.opc == 171
    ensures var e, p, t := Encoding(i, env), |SwitchPrefix(i)|, i.table;
            && |e| == p + 8 + 8 * |t.keys| && e[..p] == SwitchPrefix(i)
            && e[p..p + 4] == IntOf(Value(env, t.def) - i.pc) && e[p + 4..p + 8] == IntOf(|t.keys|)
            && forall k | 0 <= k < |t.keys| ::
                 && e[p + 8 + 8 * k..p + 12 + 8 * k] == IntOf(t.keys[k])
                 && e[p + 12 + 8 * k..p + 16 + 8 * k] == IntOf(Value(env, t.labels[k]) - i.pc)
  {
    hide Value, IntOf, Zeros, Pairs, Bytes, Encoding, SwitchPrefix, IsInstruction;
    var t := i.table;
    var def, rest := F32(Value(env, t.def) - i.pc), Pairs(env, t.keys, t.labels, i.pc);
    var head := [def, F32(|t.keys|)];
    SwitchBytes(i, env, head, rest);
    NoBytes();
    Append2([], def, F32(|t.keys|));
    assert [] + head == head;
    PairsLength(env, t.keys, t.labels, i.pc);
    TwoAndRest(SwitchPrefix(i), IntOf(def.v), IntOf(|t.keys|), Bytes(rest));
    var e, q := Encoding(i, env), |SwitchPrefix(i)| + 8;
    forall k | 0 <= k < |t.keys|
      ensures e[q + 8 * k..q + 4 + 8 * k] == IntOf(t.keys[k])
      ensures e[q + 4 + 8 * k..q + 8 + 8 * k] == IntOf(Value(env, t.labels[k]) - i.pc)
    {
      PairAt(env, t.keys, t.labels, i.pc, k);
      PartOfRest(e, q, 8 * k);
      PartOfRest(e, q, 8 * k + 4);
    }
  }

  lemma SwitchBytes(i: Instr, env: Env, head: seq<Field>, rest: seq<Field>)
    requires WellFormed(i) && (i.opc == 170 || i.opc == 171)
    requires Operands(i, env) == Zeros(i.table.pad) + head + rest
    ensures Encoding(i, env) == SwitchPrefix(i) + Bytes(head) + Bytes(rest)
  {
    hide Bytes, Operands, Zeros;
    var zeros := Zeros(i.table.pad);
    HeadBytes(F8(i.opc), zeros + head + rest);
    BytesConcat(zeros + head, rest);
    BytesConcat(zeros, head);
    var x, y, z, w := FieldBytes(F8(i.opc)), Bytes(zeros), Bytes(head), Bytes(rest);
    assert x + (y + z + w) == x + y + z + w;
  }

  lemma ThreeAndRest(pre: seq<byte>, x: seq<byte>, y: seq<byte>, z: seq<byte>, rest: seq<byte>)
    requires |x| == |y| == |z| == 4
    ensures var e, p := pre + (x + y + z) + rest, |pre|;
            && e[..p] == pre && e[p..p + 4] == x && e[p + 4..p + 8] == y && e[p + 8..p + 12] == z
            && e[p + 12..] == rest
  {
  }

  lemma TwoAndRest(pre: seq<byte>, x: seq<byte>, y: seq<byte>, rest: seq<byte>)
    requires |x| == |y| == 4
    ensures var e, p := pre + (x + y) + rest, |pre|;
            && e[..p] == pre && e[p..p + 4] == x && e[p + 4..p + 8] == y
            && e[p + 8..] == rest
  {
  }

  lemma {:induction false} OffsetAt(env: Env, labels: seq<Arg>, pc: nat, k: nat)
    requires k < |labels|
    ensures 4 * k + 4 <= |Bytes(Offsets(env, labels, pc))|
    ensures Bytes(Offsets(env, labels, pc))[4 * k..4 * k + 4] == IntOf(Value(env, labels[k]) - pc)
  {
    hide Value, IntOf, Bytes;
    var n := |labels| - 1;
    var init := labels[..n];
    OffsetsLength(env, init, pc);
    AppendOne(Offsets(env, init, pc), F32(Value(env, labels[n]) - pc));
    if k < n {
      OffsetAt(env, init, pc, k);
      PartOf(Bytes(Offsets(env, init, pc)), IntOf(Value(env, labels[n]) - pc), 4 * k);
    }
  }

  lemma {:induction false} PairAt(env: Env, keys: seq<int>, labels: seq<Arg>, pc: nat, k: nat)
    requires |keys| == |labels| && k < |keys|
    ensures 8 * k + 8 <= |Bytes(Pairs(env, keys, labels, pc))|
    ensures Bytes(Pairs(env, keys, labels, pc))[8 * k..8 * k + 4] == IntOf(keys[k])
    ensures Bytes(Pairs(env, keys, labels, pc))[8 * k + 4..8 * k + 8] == IntOf(Value(env, labels[k]) - pc)
  {
    hide Value, IntOf, Bytes;
    var n := |labels| - 1;
    var init := Pairs(env, keys[..n], labels[..n], pc);
    var x, y := IntOf(keys[n]), IntOf(Value(env, labels[n]) - pc);
    PairsLength(env, keys[..n], labels[..n], pc);
    Append2(init, F32(keys[n]), F32(Value(env, labels[n]) - pc));
    assert Bytes(init) + x + y == Bytes(init) + (x + y);
    if k < n {
      PairAt(env, keys[..n], labels[..n], pc, k);
      PartOf(Bytes(init), x + y, 8 * k);
      PartOf(Bytes(init), x + y, 8 * k + 4);
    }
  }

  lemma PartOfRest(all: seq<byte>, at: nat, from: nat)
    requires at + from + 4 <= |all|
    ensures all[at + from..at + from + 4] == all[at..][from..from + 4]
  {
  }

  lemma PartOf(all: seq<byte>, more: seq<byte>, from: nat)
    requires from + 4 <= |all|
    ensures (all + more)[from..from + 4] == all[from..from + 4]
  {
  }

  // ----- layout

  /** The only instruction whose reserved length can differ from what is written: a
      tableswitch with gaps or repeated keys. */
  lemma EncodingLength(i: Instr, env: Env)
    requires WellFormed(i)
    ensures i.opc != OPC_TABLESWITCH ==> |Encoding(i, env)| == LengthOf(i)
    ensures i.opc == OPC_TABLESWITCH ==> |Encoding(i, env)| == LengthOf(i) + 4 * (|i.table.slots| - i.table.pairs)
  {
    hide Bytes, Value;
    var code := Encoding(i, env);
    if i.opc >= 0x100 {
      PrefixedLength(i, env);
    } else if IsSwitch(i.opc) {
      SwitchEncodingLength(i, env);
    } else {
      OperandLengths(F8(i.opc), Operands(i, env));
    }
  }

  lemma HeadLength(f: Field, fs: seq<Field>)
    ensures |Bytes([f] + fs)| == Width(f) + |Bytes(fs)|
  {
    hide Bytes;
    BytesConcat([f], fs);
    SingleField(f);
  }

  lemma OperandLengths(op: Field, fs: seq<Field>)
    requires |fs| <= 3
    ensures |Bytes([op] + fs)| == Width(op) + (if |fs| >= 1 then Width(fs[0]) else 0)
              + (if |fs| >= 2 then Width(fs[1]) else 0) + (if |fs| >= 3 then Width(fs[2]) else 0)
  {
    hide Bytes, Width;
    HeadLength(op, fs);
    NoBytes();
    if |fs| >= 1 {
      assert fs == [fs[0]] + fs[1..];
      HeadLength(fs[0], fs[1..]);
    }
    if |fs| >= 2 {
      assert fs[1..] == [fs[1]] + fs[2..];
      HeadLength(fs[1], fs[2..]);
    }
    if |fs| >= 3 {
      assert fs[2..] == [fs[2]] + fs[3..];
      HeadLength(fs[2], fs[3..]);
    }
    assert fs[|fs|..] == [];
  }

  lemma PrefixedLength(i: Instr, env: Env)
    requires WellFormed(i) && i.opc >= 0x100
    ensures |Encoding(i, env)| == LengthOf(i)
  {
    hide Bytes, Value;
    var a, b := Value(env, i.arg), Value(env, i.arg2);
    if i.opc / 0x100 == OPC_EXTENDED {
      assert [F8(OPC_EXTENDED)] + [F8(i.opc)] == [F8(OPC_EXTENDED), F8(i.opc)];
      OperandLengths(F8(OPC_EXTENDED), [F8(i.opc)]);
    } else if i.opc % 0x100 == OPC_IINC {
      var fs := [F8(i.opc), F16(a), F16(b)];
      assert [F8(OPC_WIDE)] + fs == [F8(OPC_WIDE), F8(i.opc), F16(a)] + [F16(b)];
      OperandLengths(F8(OPC_WIDE), fs);
    } else {
      var fs := [F8(i.opc), F16(a)];
      assert [F8(OPC_WIDE)] + fs == [F8(OPC_WIDE), F8(i.opc), F16(a)] + [];
      OperandLengths(F8(OPC_WIDE), fs);
    }
  }

  lemma SwitchEncodingLength(i: Instr, env: Env)
    requires WellFormed(i) && IsSwitch(i.opc)
    ensures i.opc == OPC_LOOKUPSWITCH ==> |Encoding(i, env)| == LengthOf(i)
    ensures i.opc == OPC_TABLESWITCH ==> |Encoding(i, env)| == LengthOf(i) + 4 * (|i.table.slots| - i.table.pairs)
  {
    hide Bytes, Value;
    var t := i.table;
    BytesConcat([F8(i.opc)], Operands(i, env));
    SingleField(F8(i.opc));
    ZerosLength(t.pad);
    var def := F32(Value(env, t.def) - i.pc);
    if i.opc == OPC_TABLESWITCH {
      var head, rest := Zeros(t.pad) + [def, F32(t.low), F32(t.high)], Offsets(env, t.slots, i.pc);
      Append3(Zeros(t.pad), def, F32(t.low), F32(t.high));
      BytesConcat(head, rest);
      OffsetsLength(env, t.slots, i.pc);
    } else {
      var head, rest := Zeros(t.pad) + [def, F32(|t.keys|)], Pairs(env, t.keys, t.labels, i.pc);
      Append2(Zeros(t.pad), def, F32(|t.keys|));
      BytesConcat(head, rest);
      PairsLength(env, t.keys, t.labels, i.pc);
    }
  }

  lemma {:induction false} OffsetsLength(env: Env, labels: seq<Arg>, pc: nat)
    ensures |Bytes(Offsets(env, labels, pc))| == 4 * |labels|
  {
    if labels != [] {
      var init, last := labels[..|labels| - 1], F32(Value(env, labels[|labels| - 1]) - pc);
      OffsetsLength(env, init, pc);
      AppendOne(Offsets(env, init, pc), last);
    }
  }

  lemma {:induction false} PairsLength(env: Env, keys: seq<int>, labels: seq<Arg>, pc: nat)
    requires |keys| == |labels|
    ensures |Bytes(Pairs(env, keys, labels, pc))| == 8 * |labels|
  {
    if labels != [] {
      var n := |labels| - 1;
      PairsLength(env, keys[..n], labels[..n], pc);
      Append2(Pairs(env, keys[..n], labels[..n], pc), F32(keys[n]), F32(Value(env, labels[n]) - pc));
    }
  }
}
