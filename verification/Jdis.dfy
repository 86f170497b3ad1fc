/** The disassembler's two walks over a method's code: one collects the branch targets,
    the other prints the instructions. */
module Jdis {
  import opened Bits
  import opened JavaInts
  import opened Opcodes

  /** What printInstr prints: mnemonic and operands, an absolute branch target, a switch
      with its absolute targets, a planted byte, or nothing at all. */
  datatype Text =
    | Line(opc: int, operands: seq<int>)
    | Jump(opc: int, target: int)
    | TableText(low: int, high: int, targets: seq<int>, def: int)
    | LookupText(keys: seq<int>, targets: seq<int>, def: int)
    | RawByte(opc: int)
    | Silent

  function Align(n: nat): nat {
    (n + 3) / 4 * 4
  }

  /** `n` consecutive ints from `at` on, and `n` ints eight bytes apart. */
  function Ints4(code: seq<byte>, at: nat, n: nat): (s: seq<int>)
    requires n > 0 ==> at + 4 * n <= |code|
    ensures |s| == n
  {
    if n == 0 then [] else Ints4(code, at, n - 1) + [GetInt(code, at + 4 * (n - 1))]
  }

  function Ints8(code: seq<byte>, at: nat, n: nat): (s: seq<int>)
    requires n > 0 ==> at + 8 * n - 4 <= |code|
    ensures |s| == n
  {
    if n == 0 then [] else Ints8(code, at, n - 1) + [GetInt(code, at + 8 * (n - 1))]
  }

  function Elements(s: seq<int>): set<int> {
    set t | t in s
  }

  /** Relative offsets made absolute. */
  function Absolute(pc: nat, offsets: seq<int>): (s: seq<int>)
    ensures |s| == |offsets|
  {
    if offsets == [] then [] else Absolute(pc, offsets[..|offsets| - 1]) + [S32(pc + offsets[|offsets| - 1])]
  }

  /** Number of entries a printed tableswitch has; the subtraction is Java's. */
  function TableCount(low: int, high: int): nat {
    AtLeastZero(S32(high - low) + 1)
  }

  /** A loop that counts up to `n` does nothing if `n` is negative. */
  function AtLeastZero(n: int): nat {
    if n < 0 then 0 else n
  }

  /** The table of the switch at `pc` lies inside the code. */
  predicate SwitchInside(code: seq<byte>, pc: nat)
    requires pc < |code|
  {
    var tb := Align(pc + 1);
    if code[pc] == OPC_TABLESWITCH then
      && tb + 12 <= |code|
      && tb + 12 + 4 * TableCount(GetInt(code, tb + 4), GetInt(code, tb + 8)) <= |code|
    else
      && tb + 8 <= |code|
      && tb + 8 + 8 * AtLeastZero(GetInt(code, tb + 4)) <= |code|
  }

  /** Bytes an instruction needs for its operands to be read. */
  function Needed(opc: int): nat {
    if opc == OPC_WIDE || opc == OPC_EXTENDED then 2
    else if OpcLength(opc).Defined? && OpcLength(opc).n > 1 then OpcLength(opc).n
    else 1
  }

  /** sipush, and the opcodes that are followed by the index of a constant. */
  predicate TakesShort(opc: int) {
    || opc == 17 || 19 <= opc <= 20 || 178 <= opc <= 184
    || opc == 187 || opc == 189 || 192 <= opc <= 193
  }

  /** The two-byte number of a prefixed opcode. */
  function Prefixed(code: seq<byte>, pc: nat): int
    requires pc + 1 < |code|
  {
    (code[pc] as int) * 0x100 + code[pc + 1]
  }

  /** No array access of the walks at `pc` leaves the code. */
  predicate Readable(code: seq<byte>, pc: nat) {
    && pc < |code|
    && (IsSwitch(code[pc]) ==> SwitchInside(code, pc))
    && (!IsSwitch(code[pc]) ==> pc + Needed(code[pc]) <= |code|)
    && (code[pc] == OPC_WIDE && HasWideName(code[pc + 1]) ==>
          pc + (if code[pc + 1] == OPC_IINC then 6 else 4) <= |code|)
  }

  /** The text of the instruction at `pc`. */
  function Print(code: seq<byte>, pc: nat, maya: bool): Text
    requires Readable(code, pc)
  {
    var opc := code[pc] as int;
    if opc == OPC_SETHI then Line(opc, [GetShort(code, pc + 1) % 0x1_0000])
    else if IsIndexed(opc) then
      if maya then Line(opc, [GetUbyte(code, pc + 1), GetUbyte(code, pc + 2)]) else Silent
    else if opc == OPC_EXTENDED then
      if code[pc + 1] == 21 && !maya then Silent else Line(Prefixed(code, pc), [])
    else if opc == OPC_WIDE then
      if !HasWideName(code[pc + 1]) then RawByte(opc)
      else if code[pc + 1] == OPC_IINC then Line(Prefixed(code, pc), [GetShort(code, pc + 2), GetShort(code, pc + 4)])
      else Line(Prefixed(code, pc), [GetShort(code, pc + 2)])
    else if !HasName(opc) then RawByte(opc)
    else if IsSwitch(opc) then PrintSwitch(code, pc)
    else if IsBranch(opc) then Jump(opc, S32(pc + GetShort(code, pc + 1)))
    else if IsWideBranch(opc) then Jump(opc, S32(pc + GetInt(code, pc + 1)))
    else if opc == OPC_IINC then Line(opc, [GetUbyte(code, pc + 1), GetUbyte(code, pc + 2)])
    else if opc == OPC_INVOKEINTERFACE || opc == OPC_MULTIANEWARRAY then
      Line(opc, [GetShort(code, pc + 1), GetUbyte(code, pc + 3)])
    else if OpcLength(opc) == Defined(2) then Line(opc, [GetUbyte(code, pc + 1)])
    else if OpcLength(opc) == Defined(3) then Line(opc, [GetShort(code, pc + 1)])
    else Line(opc, [])
  }

  function PrintSwitch(code: seq<byte>, pc: nat): Text
    requires Readable(code, pc) && IsSwitch(code[pc])
  {
    var tb := Align(pc + 1);
    var def := S32(GetInt(code, tb) + pc);
    if code[pc] == OPC_TABLESWITCH then
      var low, high := GetInt(code, tb + 4), GetInt(code, tb + 8);
      TableText(low, high, Absolute(pc, Ints4(code, tb + 12, TableCount(low, high))), def)
    else
      var npairs := AtLeastZero(GetInt(code, tb + 4));
      LookupText(Ints8(code, tb + 8, npairs), Absolute(pc, Ints8(code, tb + 12, npairs)), def)
  }

  /** How far printInstr and checkForLabelRef move on. */
  function SwitchLength(code: seq<byte>, pc: nat): int
    requires Readable(code, pc) && IsSwitch(code[pc])
  {
    var tb := Align(pc + 1);
    if code[pc] == OPC_TABLESWITCH then
      tb - pc + 16 + S32(GetInt(code, tb + 8) - GetInt(code, tb + 4)) * 4
    else
      tb - pc + (GetInt(code, tb + 4) + 1) * 8
  }

  function PrintLength(code: seq<byte>, pc: nat): int
    requires Readable(code, pc)
  {
    var opc := code[pc] as int;
    if IsSwitch(opc) then SwitchLength(code, pc)
    else if opc == OPC_EXTENDED then 2
    else if opc == OPC_WIDE then
      if !HasWideName(code[pc + 1]) then 1
      else if code[pc + 1] == OPC_IINC then 6 else 4
    else if opc == OPC_SETHI || IsIndexed(opc) then 3
    else if !HasName(opc) || opc == 186 || opc >= 203 then 1
    else OpcLengthsTab(opc)
  }

  function RefLength(code: seq<byte>, pc: nat): int
    requires Readable(code, pc)
  {
    var opc := code[pc] as int;
    if IsSwitch(opc) then SwitchLength(code, pc)
    else if IsBranch(opc) then 3
    else if IsWideBranch(opc) then 5
    else
      var full := if opc == OPC_WIDE || opc == OPC_EXTENDED then Prefixed(code, pc) else opc;
      match OpcLength(full) case Defined(n) => n case OutOfBounds => 1
  }

  /** The addresses that the instruction at `pc` refers to. */
  function Refs(code: seq<byte>, pc: nat): set<int>
    requires Readable(code, pc)
  {
    var opc := code[pc] as int;
    if IsSwitch(opc) then
      match PrintSwitch(code, pc)
      case TableText(_, _, targets, def) => Elements(targets) + {def}
      case LookupText(_, targets, def) => Elements(targets) + {def}
      case _ => {}
    else if IsBranch(opc) then {S32(pc + GetShort(code, pc + 1))}
    else if IsWideBranch(opc) then {S32(pc + GetInt(code, pc + 1))}
    else {}
  }

  /** The bytes on which the walks part: the unused opcode 186 and the pseudo-opcodes 204 to 208, whose
      length in the table is zero, and the wide prefix before ldc, goto or jsr, for which there is a
      mnemonic but no length. */
  predicate WalksPart(code: seq<byte>, pc: nat)
    requires Readable(code, pc)
  {
    || code[pc] == 186 || 204 <= code[pc] <= 208
    || (code[pc] == OPC_WIDE && (code[pc + 1] == OPC_LDC || code[pc + 1] == OPC_GOTO || code[pc + 1] == OPC_JSR))
  }

  /** On every other readable instruction, and on no such one, the two walks advance alike; and they do
      advance, unless the entry count of a switch is so far below zero that its length is not positive. */
  lemma WalksAgree(code: seq<byte>, pc: nat)
    requires Readable(code, pc)
    ensures PrintLength(code, pc) == RefLength(code, pc) <==> !WalksPart(code, pc)
    ensures 0 < PrintLength(code, pc) == RefLength(code, pc)
            <==> !WalksPart(code, pc) && (IsSwitch(code[pc]) ==> SwitchLength(code, pc) > 0)
  {
    hide GetInt, S32;
  }

  /** What is printed of the bytes that no assembled instruction starts with: those without a mnemonic,
      which are planted as they are, the pseudo-opcodes, and the wide prefix before an opcode that has
      a mnemonic with `_w` for another reason. */
  lemma OthersArePrinted(code: seq<byte>, pc: nat, maya: bool)
    requires Readable(code, pc)
    ensures var opc, text := code[pc] as int, Print(code, pc, maya);
            && (text.RawByte? <==>
                 || 209 <= opc <= 235 || 247 <= opc <= 254
                 || (opc == 196 && var low := code[pc + 1];
                     !(21 <= low <= 25 || 54 <= low <= 58 || low == 169 || low == 132
                       || low == 18 || low == 167 || low == 168)))
            && (text.RawByte? ==> text == RawByte(opc) && PrintLength(code, pc) == 1)
            && (opc == 186 || 203 <= opc <= 208 ==> text == Line(opc, []) && PrintLength(code, pc) == 1)
            && (opc == 196 && (code[pc + 1] == 18 || code[pc + 1] == 167 || code[pc + 1] == 168) ==>
                 && text == Line(196 * 256 + code[pc + 1] as int, [GetShort(code, pc + 2)])
                 && PrintLength(code, pc) == 4)
  {
    hide GetShort, GetInt, S32, SwitchInside, SwitchLength;
  }

  /** A tableswitch from 0 to -7 sends both walks back: they do not read any entry, and step by -8. */
  lemma SwitchWalksBack()
    ensures var code: seq<byte> := [OPC_TABLESWITCH, 0, 0, 0,  0, 0, 0, 0,  0, 0, 0, 0,  255, 255, 255, 249];
            && Readable(code, 0) && PrintLength(code, 0) == RefLength(code, 0) == -8
            && Print(code, 0, false) == TableText(0, -7, [], 0)
  {
    hide GetInt, S32;
    BackwardRange();
  }

  lemma BackwardRange()
    ensures var code: seq<byte> := [OPC_TABLESWITCH, 0, 0, 0,  0, 0, 0, 0,  0, 0, 0, 0,  255, 255, 255, 249];
            GetInt(code, 4) == GetInt(code, 8) == 0 && GetInt(code, 12) == -7
    ensures S32(0) == 0 && S32(-7) == -7
  {
    hide S32;
    SmallInts();
  }

  lemma SmallInts()
    ensures S32(0) == 0 && S32(-7) == -7
  {
  }

  /** The label walk stays where it is on opcode 186, for ever, while the printing walk moves on. */
  lemma LabelWalkStalls()
    ensures Readable([186], 0) && RefLength([186], 0) == 0 && PrintLength([186], 0) == 1
  {
  }

  /** On a wide goto the printing walk skips an operand at which the label walk goes on reading. */
  lemma WideGotoIsPrinted()
    ensures var code: seq<byte> := [OPC_WIDE, OPC_GOTO, 0, 5];
            && Readable(code, 0) && Print(code, 0, false) == Line(OPC_WIDE * 0x100 + OPC_GOTO, [5])
            && PrintLength(code, 0) == 4 && RefLength(code, 0) == 1
  {
  }

  /** The addresses a printed instruction refers to. */
  function TextRefs(t: Text): set<int> {
    match t
    case Jump(_, target) => {target}
    case TableText(_, _, targets, def) => Elements(targets) + {def}
    case LookupText(_, targets, def) => Elements(targets) + {def}
    case _ => {}
  }

  /** The label walk marks what the printing walk prints. */
  lemma RefsArePrinted(code: seq<byte>, pc: nat, maya: bool)
    requires Readable(code, pc)
    ensures Refs(code, pc) == TextRefs(Print(code, pc, maya))
  {
    hide GetInt, GetShort, S32, Absolute, Elements, Align, SwitchInside;
  }

  /** The instruction starts `starts[0] == 0, starts[1], ...` lead through the whole code. */
  ghost predicate Walk(code: seq<byte>, starts: seq<nat>) {
    && |starts| > 0 && starts[0] == 0 && starts[|starts| - 1] == |code|
    && forall k | 0 <= k < |starts| - 1 ::
         && Readable(code, starts[k])
         && starts[k + 1] == starts[k] + PrintLength(code, starts[k]) == starts[k] + RefLength(code, starts[k])
         && starts[k] < starts[k + 1]
  }

  class MethodData {
    const code: seq<byte>
    var referred: set<int>     // the pcs whose entry of iattrs is marked as referred to

    constructor (code: seq<byte>)
      ensures this.code == code && referred == {}
    {
      this.code := code;
      referred := {};
    }

    /** checkForLabelRef: marks the targets of one instruction and returns its length. */
    method CheckForLabelRef(pc: nat) returns (len: int)
      requires Readable(code, pc)
      modifies this`referred
      ensures len == RefLength(code, pc)
      ensures referred == old(referred) + Refs(code, pc)
    {
      var opcode := code[pc] as int;
      if IsSwitch(opcode) {
        len := MarkSwitch(pc);
        return;
      }
      if IsBranch(opcode) {
        referred := referred + {S32(pc + GetShort(code, pc + 1))};
        return 3;
      }
      if IsWideBranch(opcode) {
        referred := referred + {S32(pc + GetInt(code, pc + 1))};
        return 5;
      }
      if opcode == OPC_WIDE || opcode == OPC_EXTENDED {
        opcode := Prefixed(code, pc);
      }
      match OpcLength(opcode)
      case Defined(n) => len := n;
      case OutOfBounds => len := 1;
    }

    method MarkSwitch(pc: nat) returns (len: int)
      requires Readable(code, pc) && IsSwitch(code[pc])
      modifies this`referred
      ensures len == SwitchLength(code, pc)
      ensures referred == old(referred) + Refs(code, pc)
    {
      hide GetInt, S32, Align, Absolute, Elements;
      var tb := Align(pc + 1);
      var defaultSkip := GetInt(code, tb);
      if code[pc] == OPC_TABLESWITCH {
        var low, high := GetInt(code, tb + 4), GetInt(code, tb + 8);
        var count := S32(high - low);
        MarkTargets(pc, tb + 12, 4, AtLeastZero(count + 1));
        len := tb - pc + 16 + count * 4;
      } else {
        var npairs := GetInt(code, tb + 4);
        MarkTargets(pc, tb + 12, 8, AtLeastZero(npairs));
        len := tb - pc + (npairs + 1) * 8;
      }
      referred := referred + {S32(defaultSkip + pc)};
    }

    /** The loop over the entries of a table, four or eight bytes apart. */
    method MarkTargets(pc: nat, at: nat, stride: nat, n: nat)
      requires stride == 4 || stride == 8
      requires n > 0 ==> (if stride == 4 then at + 4 * n else at + 8 * n - 4) <= |code|
      modifies this`referred
      ensures referred == old(referred)
        + Elements(Absolute(pc, if stride == 4 then Ints4(code, at, n) else Ints8(code, at, n)))
    {
      hide GetInt, S32, Elements, Absolute;
      NoTargets(pc);
      var i, p := 0, at;
      while i < n
        invariant i <= n && p == if stride == 4 then at + 4 * i else at + 8 * i
        invariant referred == old(referred)
          + Elements(Absolute(pc, if stride == 4 then Ints4(code, at, i) else Ints8(code, at, i)))
      {
        AbsoluteAppend(pc, if stride == 4 then Ints4(code, at, i) else Ints8(code, at, i), GetInt(code, p));
        referred := referred + {S32(pc + GetInt(code, p))};
        i, p := i + 1, p + stride;
      }
    }

    /** loadLabelTable: the first walk marks exactly the targets of all instructions. */
    method LoadLabelTable(ghost starts: seq<nat>)
      requires Walk(code, starts)
      modifies this`referred
      ensures referred == old(referred) + AllRefs(code, starts, |starts| - 1)
    {
      hide Readable, Refs, PrintLength, RefLength;
      var pc := 0;
      ghost var k := 0;
      while pc < |code|
        invariant k < |starts| && pc == starts[k]
        invariant referred == old(referred) + AllRefs(code, starts, k)
        decreases |code| - pc
      {
        Onward(code, starts, k);
        var len := CheckForLabelRef(pc);
        pc := pc + len;
        k := k + 1;
      }
      if k < |starts| - 1 {
        Onward(code, starts, k);
      }
    }

    /** printInstr: the text of one instruction and its length; the table entries one by one. What
        it prints are the targets that checkForLabelRef marks, and it moves on as far, unless the
        instruction is one on which the walks part. */
    method PrintInstr(pc: nat, maya: bool) returns (text: Text, len: int)
      requires Readable(code, pc)
      ensures text == Print(code, pc, maya) && len == PrintLength(code, pc)
      ensures TextRefs(text) == Refs(code, pc)
      ensures len == RefLength(code, pc) <==> !WalksPart(code, pc)
    {
      hide GetInt, GetShort, S32, Align, Absolute, Elements;
      RefsArePrinted(code, pc, maya);
      WalksAgree(code, pc);
      var opcode := code[pc] as int;
      if opcode == OPC_SETHI {
        return Line(opcode, [GetShort(code, pc + 1) % 0x1_0000]), 3;
      }
      if IsIndexed(opcode) {
        return if maya then Line(opcode, [GetUbyte(code, pc + 1), GetUbyte(code, pc + 2)]) else Silent, 3;
      }
      if opcode == OPC_EXTENDED {
        return if code[pc + 1] == 21 && !maya then Silent else Line(Prefixed(code, pc), []), 2;
      }
      if opcode == OPC_WIDE {
        text, len := PrintWide(pc);
        return;
      }
      if !HasName(opcode) {
        return RawByte(opcode), 1;
      }
      if IsLocalAccess(opcode) || opcode == OPC_NEWARRAY || opcode == OPC_BIPUSH || opcode == OPC_LDC {
        text, len := Line(opcode, [GetUbyte(code, pc + 1)]), 2;
      } else if opcode == OPC_IINC {
        text, len := Line(opcode, [GetUbyte(code, pc + 1), GetUbyte(code, pc + 2)]), 3;
      } else if IsSwitch(opcode) {
        text, len := PrintTable(pc);
      } else if TakesShort(opcode) {
        text, len := Line(opcode, [GetShort(code, pc + 1)]), 3;
      } else if opcode == OPC_INVOKEINTERFACE {
        text, len := Line(opcode, [GetShort(code, pc + 1), GetUbyte(code, pc + 3)]), 5;
      } else if opcode == OPC_MULTIANEWARRAY {
        text, len := Line(opcode, [GetShort(code, pc + 1), GetUbyte(code, pc + 3)]), 4;
      } else if IsBranch(opcode) {
        text, len := Jump(opcode, S32(pc + GetShort(code, pc + 1))), 3;
      } else if IsWideBranch(opcode) {
        text, len := Jump(opcode, S32(pc + GetInt(code, pc + 1))), 5;
      } else {
        text, len := Line(opcode, []), 1;
      }
    }

    /** The wide prefix: the mnemonic of the next opcode decides. */
    method PrintWide(pc: nat) returns (text: Text, len: int)
      requires Readable(code, pc) && code[pc] == OPC_WIDE
      ensures text == Print(code, pc, true) == Print(code, pc, false) && len == PrintLength(code, pc)
    {
      hide GetShort;
      if !HasWideName(code[pc + 1]) {
        return RawByte(OPC_WIDE), 1;
      }
      var operands := [GetShort(code, pc + 2)];
      if code[pc + 1] == OPC_IINC {
        operands := operands + [GetShort(code, pc + 4)];
        return Line(Prefixed(code, pc), operands), 6;
      }
      return Line(Prefixed(code, pc), operands), 4;
    }

    method PrintTable(pc: nat) returns (text: Text, len: int)
      requires Readable(code, pc) && IsSwitch(code[pc])
      ensures text == PrintSwitch(code, pc) && len == SwitchLength(code, pc)
    {
      hide GetInt, S32, Align, Absolute;
      var tb := Align(pc + 1);
      var defaultSkip := GetInt(code, tb);
      if code[pc] == OPC_TABLESWITCH {
        var low, high := GetInt(code, tb + 4), GetInt(code, tb + 8);
        var count := S32(high - low);
        var targets := PrintTargets(pc, tb + 12, 4, AtLeastZero(count + 1));
        text, len := TableText(low, high, targets, S32(defaultSkip + pc)), tb - pc + 16 + count * 4;
      } else {
        var npairs := GetInt(code, tb + 4);
        var keys := PrintKeys(tb + 8, AtLeastZero(npairs));
        var targets := PrintTargets(pc, tb + 12, 8, AtLeastZero(npairs));
        text, len := LookupText(keys, targets, S32(defaultSkip + pc)), tb - pc + (npairs + 1) * 8;
      }
    }

    method PrintKeys(at: nat, n: nat) returns (keys: seq<int>)
      requires n > 0 ==> at + 8 * n - 4 <= |code|
      ensures keys == Ints8(code, at, n)
    {
      hide GetInt;
      keys := [];
      var i := 0;
      while i < n
        invariant i <= n && keys == Ints8(code, at, i)
      {
        keys := keys + [GetInt(code, at + 8 * i)];
        i := i + 1;
      }
    }

    method PrintTargets(pc: nat, at: nat, stride: nat, n: nat) returns (targets: seq<int>)
      requires stride == 4 || stride == 8
      requires n > 0 ==> (if stride == 4 then at + 4 * n else at + 8 * n - 4) <= |code|
      ensures targets == Absolute(pc, if stride == 4 then Ints4(code, at, n) else Ints8(code, at, n))
    {
      hide GetInt, S32, Absolute;
      NoTargets(pc);
      targets := [];
      var i, p := 0, at;
      while i < n
        invariant i <= n && p == if stride == 4 then at + 4 * i else at + 8 * i
        invariant targets == Absolute(pc, if stride == 4 then Ints4(code, at, i) else Ints8(code, at, i))
      {
        AbsoluteAppend(pc, if stride == 4 then Ints4(code, at, i) else Ints8(code, at, i), GetInt(code, p));
        targets := targets + [S32(pc + GetInt(code, p))];
        i, p := i + 1, p + stride;
      }
    }

    /** printCode without explicit pcs: the label walk, then the printing walk. */
    method PrintCode(maya: bool, ghost starts: seq<nat>) returns (lines: seq<Printed>)
      requires Walk(code, starts)
      modifies this`referred
      ensures referred == old(referred) + AllRefs(code, starts, |starts| - 1)
      ensures lines == Listing(code, starts, |starts| - 1, referred, maya)
    {
      hide Readable, Refs, Print, PrintLength, RefLength;
      LoadLabelTable(starts);
      lines := [];
      var pc := 0;
      ghost var k := 0;
      while pc < |code|
        invariant k < |starts| && pc == starts[k]
        invariant referred == old(referred) + AllRefs(code, starts, |starts| - 1)
        invariant lines == Listing(code, starts, k, referred, maya)
        decreases |code| - pc
      {
        Onward(code, starts, k);
        var text, len := PrintInstr(pc, maya);
        lines := lines + [Printed(pc, pc in referred, text)];
        pc := pc + len;
        k := k + 1;
      }
      if k < |starts| - 1 {
        Onward(code, starts, k);
      }
    }
  }

  /** One printed line: the address, whether it is shown as a label, and the instruction. */
  datatype Printed = Printed(pc: nat, labelled: bool, text: Text)

  /** What printCode prints for the first `k` instructions of a walk. */
  ghost function Listing(code: seq<byte>, starts: seq<nat>, k: nat, referred: set<int>, maya: bool)
    : (lines: seq<Printed>)
    requires Walk(code, starts) && k < |starts|
    ensures |lines| == k
  {
    if k == 0 then []
    else Listing(code, starts, k - 1, referred, maya)
         + [Printed(starts[k - 1], starts[k - 1] in referred, Print(code, starts[k - 1], maya))]
  }

  /** A walk that has not reached the end of the code stands on an instruction. */
  lemma Onward(code: seq<byte>, starts: seq<nat>, k: nat)
    requires Walk(code, starts) && k < |starts|
    ensures starts[k] < |code| <==> k < |starts| - 1
    ensures k < |starts| - 1 ==>
              && Readable(code, starts[k]) && starts[k + 1] == starts[k] + RefLength(code, starts[k])
              && PrintLength(code, starts[k]) == RefLength(code, starts[k]) && starts[k] < starts[k + 1]
  {
  }

  /** The targets of the first `k` instructions of a walk. */
  ghost function AllRefs(code: seq<byte>, starts: seq<nat>, k: nat): set<int>
    requires Walk(code, starts) && k < |starts|
  {
    if k == 0 then {} else AllRefs(code, starts, k - 1) + Refs(code, starts[k - 1])
  }

  lemma NoTargets(pc: nat)
    ensures Absolute(pc, []) == [] && Elements(Absolute(pc, [])) == {}
  {
  }

  lemma AbsoluteAppend(pc: nat, offsets: seq<int>, o: int)
    ensures Absolute(pc, offsets + [o]) == Absolute(pc, offsets) + [S32(pc + o)]
    ensures Elements(Absolute(pc, offsets + [o])) == Elements(Absolute(pc, offsets)) + {S32(pc + o)}
  {
    assert (offsets + [o])[..|offsets|] == offsets;
  }
}
