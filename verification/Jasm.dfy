/** The assembler: instruction layout with labels that may still be undefined, switch
    tables, and the emission of every instruction form. */
module Jasm {
  import opened Bits
  import opened JavaInts
  import opened Opcodes

  /** A reference to an Argument object. The value of a label or of a constant pool
      cell may be set after the instruction that uses it was added. */
  datatype Arg = NoArg | Lit(n: int) | LabelArg(name: string) | CellArg(id: nat)

  /** The values those objects have when the code is written. */
  datatype Env = Env(labels: map<string, int>, cells: map<nat, int>)

  function Value(env: Env, a: Arg): int {
    match a
    case NoArg => -1
    case Lit(n) => n
    case LabelArg(name) => if name in env.labels then env.labels[name] else -1
    case CellArg(id) => if id in env.cells then env.cells[id] else -1
  }

  /** A switch table after its addresses have been calculated. */
  datatype Resolved =
    | NoTable
    | TableR(pad: nat, def: Arg, low: int, high: int, slots: seq<Arg>, pairs: nat)  // sized for `pairs` entries
    | LookupR(pad: nat, def: Arg, keys: seq<int>, labels: seq<Arg>)

  datatype Instr = Instr(pc: nat, opc: int, arg: Arg, arg2: Arg, table: Resolved)

  // ----- switch tables

  function Pad(pc: nat): nat {
    (3 - pc) % 4
  }

  predicate IsLow(keys: seq<int>, low: int) {
    if keys == [] then low == 0x7FFF_FFFF else low in keys && forall k | k in keys :: low <= k
  }

  predicate IsHigh(keys: seq<int>, high: int) {
    if keys == [] then high == -0x8000_0000 else high in keys && forall k | k in keys :: k <= high
  }

  /** The label given last for `key`, or `def` if there is none. */
  function LabelFor(keys: seq<int>, labels: seq<Arg>, key: int, def: Arg): Arg
    requires |keys| == |labels|
  {
    if keys == [] then def
    else if keys[|keys| - 1] == key then labels[|labels| - 1]
    else LabelFor(keys[..|keys| - 1], labels[..|labels| - 1], key, def)
  }

  /** What tableswitch resolution has to produce. */
  ghost predicate TableOf(r: Resolved, keys: seq<int>, labels: seq<Arg>, def: Arg, pc: nat)
    requires |keys| == |labels|
  {
    && r.TableR? && r.pad == Pad(pc) && r.def == def && r.pairs == |keys|
    && IsLow(keys, r.low) && IsHigh(keys, r.high)
    && |r.slots| == (if keys == [] then 0 else r.high - r.low + 1)
    && forall k | 0 <= k < |r.slots| :: r.slots[k] == LabelFor(keys, labels, r.low + k, def)
  }

  /** The span of the keys fits an int, as the slot array's size has to. */
  predicate SpanFits(keys: seq<int>) {
    && (forall k | k in keys :: -0x8000_0000 <= k < 0x8000_0000)
    && (forall j, k | j in keys && k in keys :: j - k < 0x7FFF_FFFF)
  }

  /** One more key widens the range the way the two comparisons do. */
  lemma ExtendRange(keys: seq<int>, low: int, high: int, key: int)
    requires IsLow(keys, low) && IsHigh(keys, high) && -0x8000_0000 <= key < 0x8000_0000
    ensures IsLow(keys + [key], if key < low then key else low)
    ensures IsHigh(keys + [key], if key > high then key else high)
  {
    assert key in keys + [key];
    assert forall k :: k in keys + [key] <==> k in keys || k == key;
  }

  lemma EmptyRange()
    ensures IsLow([], 0x7FFF_FFFF) && IsHigh([], -0x8000_0000)
  {
  }

  lemma KeyIsInt(keys: seq<int>, k: nat)
    requires SpanFits(keys) && k < |keys|
    ensures -0x8000_0000 <= keys[k] < 0x8000_0000
  {
    assert keys[k] in keys;
  }

  /** Every key has a slot, and the number of slots is an array size. */
  lemma KeysInRange(keys: seq<int>, low: int, high: int)
    requires IsLow(keys, low) && IsHigh(keys, high) && SpanFits(keys)
    ensures forall k | 0 <= k < |keys| :: low <= keys[k] <= high
    ensures keys != [] ==> 0 < high - low + 1 < 0x8000_0000
  {
    assert forall k | 0 <= k < |keys| :: keys[k] in keys;
    if keys != [] {
      assert keys[0] in keys;
    }
  }

  lemma NoLabels(def: Arg)
    ensures forall key :: LabelFor([], [], key, def) == def
  {
  }

  /** A label given later takes the place of an earlier one for the same key. */
  lemma OneMoreLabel(keys: seq<int>, labels: seq<Arg>, k: nat, def: Arg)
    requires |keys| == |labels| && k < |keys|
    ensures forall key :: LabelFor(keys[..k + 1], labels[..k + 1], key, def)
                          == if key == keys[k] then labels[k] else LabelFor(keys[..k], labels[..k], key, def)
  {
    var ks, ls := keys[..k + 1], labels[..k + 1];
    assert ks[..k] == keys[..k] && ls[..k] == labels[..k];
    forall key
      ensures LabelFor(ks, ls, key, def)
              == if key == keys[k] then labels[k] else LabelFor(keys[..k], labels[..k], key, def)
    {
    }
  }

  class SwitchTable {
    var deflabel: Arg
    var keys: seq<int>
    var labels: seq<Arg>

    ghost predicate Valid()
      reads this
    {
      |keys| == |labels|
    }

    constructor ()
      ensures Valid() && deflabel == NoArg && keys == [] && labels == []
    {
      deflabel, keys, labels := NoArg, [], [];
    }

    method AddEntry(key: int, label_: Arg)
      requires Valid()
      modifies this`keys, this`labels
      ensures Valid() && keys == old(keys) + [key] && labels == old(labels) + [label_]
    {
      keys := keys + [key];
      labels := labels + [label_];
    }

    /** calcLookupSwitch: an absent default means the instruction after the table. */
    method CalcLookupSwitch(pc: nat) returns (len: nat, r: Resolved)
      requires Valid()
      modifies this`deflabel
      ensures len == 1 + Pad(pc) + (|keys| + 1) * 8
      ensures deflabel == if old(deflabel) == NoArg then Lit(pc + len) else old(deflabel)
      ensures r == LookupR(Pad(pc), deflabel, keys, labels)
    {
      var pad := Pad(pc);
      len := 1 + pad + (|keys| + 1) * 8;
      if deflabel == NoArg {
        deflabel := Lit(pc + len);
      }
      r := LookupR(pad, deflabel, keys, labels);
    }

    /** recalcTableSwitch: sized by the number of pairs, filled by the range of the keys. */
    method RecalcTableSwitch(pc: nat) returns (len: nat, r: Resolved)
      requires Valid() && SpanFits(keys)
      modifies this`deflabel
      ensures len == 1 + Pad(pc) + (|keys| + 3) * 4
      ensures deflabel == if old(deflabel) == NoArg then Lit(pc + len) else old(deflabel)
      ensures TableOf(r, keys, labels, deflabel, pc)
    {
      hide IsLow, IsHigh, SpanFits, LabelFor, Pad;
      var high, low := -0x8000_0000, 0x7FFF_FFFF;
      var k := 0;
      EmptyRange();
      while k < |keys|
        invariant k <= |keys| && deflabel == old(deflabel)
        invariant IsLow(keys[..k], low) && IsHigh(keys[..k], high)
      {
        var key := keys[k];
        KeyIsInt(keys, k);
        ExtendRange(keys[..k], low, high, key);
        if key > high { high := key; }
        if key < low { low := key; }
        assert keys[..k + 1] == keys[..k] + [key];
        k := k + 1;
      }
      assert keys[..k] == keys;
      KeysInRange(keys, low, high);
      var numslots := if |keys| > 0 then high - low + 1 else 0;
      var pad := Pad(pc);
      len := 1 + pad + (|keys| + 3) * 4;
      if deflabel == NoArg {
        deflabel := Lit(pc + len);
      }
      var def := deflabel;
      var slots := new Arg[numslots](_ => def);
      NoLabels(def);
      k := 0;
      while k < |keys|
        invariant k <= |keys| && slots.Length == numslots && deflabel == def
        invariant forall j | 0 <= j < numslots :: slots[j] == LabelFor(keys[..k], labels[..k], low + j, def)
      {
        OneMoreLabel(keys, labels, k, def);
        ghost var was := slots[..];
        slots[keys[k] - low] := labels[k];
        assert slots[..] == was[keys[k] - low := labels[k]];
        forall j | 0 <= j < numslots
          ensures slots[j] == LabelFor(keys[..k + 1], labels[..k + 1], low + j, def)
        {
          assert was[j] == LabelFor(keys[..k], labels[..k], low + j, def);
        }
        k := k + 1;
      }
      assert keys[..k] == keys && labels[..k] == labels;
      r := TableR(pad, deflabel, low, high, slots[..], |keys|);
    }
  }

  // ----- emission

  /** The big-endian output stream. */
  class DataOutputStream {
    var bytes: seq<byte>

    constructor ()
      ensures bytes == []
    {
      bytes := [];
    }

    method WriteByte(x: int)
      modifies this
      ensures bytes == old(bytes) + ByteOf(x) == old(bytes) + [x % 256]
    {
      bytes := bytes + ByteOf(x);
    }

    method WriteShort(x: int)
      modifies this
      ensures bytes == old(bytes) + ShortOf(x) == old(bytes) + [x / 0x100 % 256, x % 256]
    {
      bytes := bytes + ShortOf(x);
    }

    method WriteInt(x: int)
      modifies this
      ensures bytes == old(bytes) + IntOf(x)
      ensures bytes == old(bytes) + [x / 0x100_0000 % 256, x / 0x1_0000 % 256, x / 0x100 % 256, x % 256]
    {
      bytes := bytes + IntOf(x);
    }
  }

  /** The operand layout of an instruction: big-endian fields of one, two or four bytes. */
  datatype Field = F8(v: int) | F16(v: int) | F32(v: int)

  function FieldBytes(f: Field): seq<byte> {
    match f
    case F8(v) => ByteOf(v)
    case F16(v) => ShortOf(v)
    case F32(v) => IntOf(v)
  }

  function Bytes(fs: seq<Field>): seq<byte> {
    if fs == [] then [] else Bytes(fs[..|fs| - 1]) + FieldBytes(fs[|fs| - 1])
  }

  lemma AppendOne(fs: seq<Field>, f: Field)
    ensures Bytes(fs + [f]) == Bytes(fs) + FieldBytes(f)
  {
    assert (fs + [f])[..|fs|] == fs;
  }

  lemma {:induction false} BytesConcat(fs: seq<Field>, gs: seq<Field>)
    ensures Bytes(fs + gs) == Bytes(fs) + Bytes(gs)
    decreases |gs|
  {
    hide Bytes, FieldBytes;
    if gs == [] {
      NoBytes();
      assert fs + gs == fs;
    } else {
      var init, last := gs[..|gs| - 1], gs[|gs| - 1];
      BytesConcat(fs, init);
      assert gs == init + [last] && fs + gs == (fs + init) + [last];
      AppendOne(init, last);
      AppendOne(fs + init, last);
      var x, y, z := Bytes(fs), Bytes(init), FieldBytes(last);
      assert (x + y) + z == x + (y + z);
    }
  }

  lemma NoBytes()
    ensures Bytes([]) == []
  {
  }

  function Zeros(n: nat): seq<Field> {
    if n == 0 then [] else Zeros(n - 1) + [F8(0)]
  }

  function Offsets(env: Env, labels: seq<Arg>, pc: nat): seq<Field> {
    if labels == [] then []
    else Offsets(env, labels[..|labels| - 1], pc) + [F32(Value(env, labels[|labels| - 1]) - pc)]
  }

  function Pairs(env: Env, keys: seq<int>, labels: seq<Arg>, pc: nat): seq<Field>
    requires |keys| == |labels|
  {
    if labels == [] then []
    else
      var n := |labels| - 1;
      Pairs(env, keys[..n], labels[..n], pc) + [F32(keys[n]), F32(Value(env, labels[n]) - pc)]
  }

  /** The operands that follow an opcode byte below 0x100, by the form of the opcode. */
  function Operands(i: Instr, env: Env): seq<Field>
    requires WellFormed(i)
  {
    var a, b := Value(env, i.arg), Value(env, i.arg2);
    if i.opc == OPC_TABLESWITCH then
      Zeros(i.table.pad) + [F32(Value(env, i.table.def) - i.pc), F32(i.table.low), F32(i.table.high)]
      + Offsets(env, i.table.slots, i.pc)
    else if i.opc == OPC_LOOKUPSWITCH then
      Zeros(i.table.pad) + [F32(Value(env, i.table.def) - i.pc), F32(|i.table.keys|)]
      + Pairs(env, i.table.keys, i.table.labels, i.pc)
    else if IsBranch(i.opc) then [F16(a - i.pc)]
    else if IsWideBranch(i.opc) then [F32(a - i.pc)]
    else if i.opc == OPC_IINC then [F8(a), F8(b)]
    else if i.opc == OPC_INVOKEINTERFACE then [F16(a), F8(b), F8(0)]
    else if i.opc == OPC_MULTIANEWARRAY then [F16(a), F8(b)]
    else if OpcLength(i.opc) == Defined(2) then [F8(a)]
    else if OpcLength(i.opc) == Defined(3) then [F16(a)]
    else []
  }

  predicate NeedsSecond(opc: int) {
    opc == OPC_IINC || opc == OPC_INVOKEINTERFACE || opc == OPC_MULTIANEWARRAY || opc == OPC_WIDE * 0x100 + OPC_IINC
  }

  /** The arguments an opcode needs are there, and a switch carries its resolved table. */
  predicate WellFormed(i: Instr) {
    && IsInstruction(i.opc)
    && (i.opc == OPC_TABLESWITCH ==> i.table.TableR?)
    && (i.opc == OPC_LOOKUPSWITCH ==> i.table.LookupR? && |i.table.keys| == |i.table.labels|)
    && (i.opc < 0x100 && !IsSwitch(i.opc) && OpcLength(i.opc).n > 1 ==> i.arg != NoArg)
    && (i.opc / 0x100 == OPC_WIDE ==> i.arg != NoArg)
    && (NeedsSecond(i.opc) ==> i.arg2 != NoArg)
  }

  /** The whole encoding of an instruction. */
  function Encoding(i: Instr, env: Env): seq<byte>
    requires WellFormed(i)
  {
    if i.opc / 0x100 == OPC_EXTENDED then Bytes([F8(OPC_EXTENDED), F8(i.opc)])
    else if i.opc / 0x100 == OPC_WIDE then
      Bytes([F8(OPC_WIDE), F8(i.opc), F16(Value(env, i.arg))]
            + if i.opc % 0x100 == OPC_IINC then [F16(Value(env, i.arg2))] else [])
    else Bytes([F8(i.opc)] + Operands(i, env))
  }

  method WriteZeros(out: DataOutputStream, pad: nat)
    modifies out
    ensures out.bytes == old(out.bytes) + Bytes(Zeros(pad))
  {
    var k := 0;
    while k < pad
      invariant k <= pad && out.bytes == old(out.bytes) + Bytes(Zeros(k))
    {
      out.WriteByte(0);
      assert Zeros(k + 1)[..|Zeros(k + 1)| - 1] == Zeros(k);
      k := k + 1;
    }
  }

  method WriteTableSwitch(out: DataOutputStream, r: Resolved, pc: nat, env: Env)
    requires r.TableR?
    modifies out
    ensures out.bytes == old(out.bytes)
      + Bytes(Zeros(r.pad) + [F32(Value(env, r.def) - pc), F32(r.low), F32(r.high)] + Offsets(env, r.slots, pc))
  {
    hide Bytes, ByteOf, ShortOf, IntOf;
    NoBytes();
    WriteZeros(out, r.pad);
    out.WriteInt(Value(env, r.def) - pc);
    out.WriteInt(r.low);
    out.WriteInt(r.high);
    ghost var head := Zeros(r.pad) + [F32(Value(env, r.def) - pc), F32(r.low), F32(r.high)];
    Append3(Zeros(r.pad), F32(Value(env, r.def) - pc), F32(r.low), F32(r.high));
    var k := 0;
    while k < |r.slots|
      invariant k <= |r.slots|
      invariant out.bytes == old(out.bytes) + (Bytes(head) + Bytes(Offsets(env, r.slots[..k], pc)))
    {
      out.WriteInt(Value(env, r.slots[k]) - pc);
      assert r.slots[..k + 1][..k] == r.slots[..k];
      AppendOne(Offsets(env, r.slots[..k], pc), F32(Value(env, r.slots[k]) - pc));
      k := k + 1;
    }
    assert r.slots[..k] == r.slots;
    BytesConcat(head, Offsets(env, r.slots, pc));
  }

  method WriteLookupSwitch(out: DataOutputStream, r: Resolved, pc: nat, env: Env)
    requires r.LookupR? && |r.keys| == |r.labels|
    modifies out
    ensures out.bytes == old(out.bytes)
      + Bytes(Zeros(r.pad) + [F32(Value(env, r.def) - pc), F32(|r.keys|)] + Pairs(env, r.keys, r.labels, pc))
  {
    hide Bytes, ByteOf, ShortOf, IntOf;
    NoBytes();
    WriteZeros(out, r.pad);
    out.WriteInt(Value(env, r.def) - pc);
    out.WriteInt(|r.keys|);
    ghost var head := Zeros(r.pad) + [F32(Value(env, r.def) - pc), F32(|r.keys|)];
    Append2(Zeros(r.pad), F32(Value(env, r.def) - pc), F32(|r.keys|));
    var k := 0;
    while k < |r.keys|
      invariant k <= |r.keys|
      invariant out.bytes == old(out.bytes) + (Bytes(head) + Bytes(Pairs(env, r.keys[..k], r.labels[..k], pc)))
    {
      out.WriteInt(r.keys[k]);
      out.WriteInt(Value(env, r.labels[k]) - pc);
      assert r.keys[..k + 1][..k] == r.keys[..k] && r.labels[..k + 1][..k] == r.labels[..k];
      Append2(Pairs(env, r.keys[..k], r.labels[..k], pc), F32(r.keys[k]), F32(Value(env, r.labels[k]) - pc));
      k := k + 1;
    }
    assert r.keys[..k] == r.keys && r.labels[..k] == r.labels;
    BytesConcat(head, Pairs(env, r.keys, r.labels, pc));
  }

  lemma Append2(fs: seq<Field>, f: Field, g: Field)
    ensures Bytes(fs + [f, g]) == Bytes(fs) + FieldBytes(f) + FieldBytes(g)
  {
    assert fs + [f, g] == fs + [f] + [g];
    AppendOne(fs, f);
    AppendOne(fs + [f], g);
  }

  lemma Append3(fs: seq<Field>, f: Field, g: Field, h: Field)
    ensures Bytes(fs + [f, g, h]) == Bytes(fs) + FieldBytes(f) + FieldBytes(g) + FieldBytes(h)
  {
    assert fs + [f, g, h] == fs + [f, g] + [h];
    Append2(fs, f, g);
    AppendOne(fs + [f, g], h);
  }

  datatype Outcome = Written | CompilerError

  /** Instr.write: the steps of the source, with its two refusals. The stream then holds the encoding. */
  method WriteInstr(out: DataOutputStream, i: Instr, env: Env) returns (r: Outcome)
    requires WellFormed(i)
    modifies out
    ensures r == CompilerError <==> i.opc == OPC_LDC && !(0 <= Value(env, i.arg) < 0x100)
    ensures r == Written ==> out.bytes == old(out.bytes) + Encoding(i, env)
  {
    hide Bytes, ByteOf, ShortOf, IntOf;
    NoBytes();
    var opc := i.opc;
    if opc / 0x100 == OPC_WIDE {
      out.WriteByte(OPC_WIDE);
      out.WriteByte(opc % 0x100);
      out.WriteShort(Value(env, i.arg));
      if opc == OPC_WIDE * 0x100 + OPC_IINC {
        out.WriteShort(Value(env, i.arg2) % 0x1_0000);
      }
      WideBytes(i, env);
      return Written;
    }
    if opc / 0x100 == OPC_EXTENDED {
      out.WriteByte(opc / 0x100);
      out.WriteByte(opc % 0x100);
      ExtendedBytes(opc);
      return Written;
    }
    BytesConcat([F8(opc)], Operands(i, env));
    SingleField(F8(opc));
    if opc == OPC_EXIT_SYNC_METHOD {
      out.WriteByte(opc);
      return Written;
    }
    out.WriteByte(opc);
    if opc == OPC_SETHI || IsIndexed(opc) {
      out.WriteShort(Value(env, i.arg));
      SingleField(F16(Value(env, i.arg)));
      return Written;
    }
    var opcLen := OpcLengthsTab(opc);
    if opcLen == 1 {
      return Written;
    }
    if opc == OPC_TABLESWITCH {
      WriteTableSwitch(out, i.table, i.pc, env);
      return Written;
    }
    if opc == OPC_LOOKUPSWITCH {
      WriteLookupSwitch(out, i.table, i.pc, env);
      return Written;
    }
    r := WriteOperands(out, i, env);
  }

  lemma SingleField(f: Field)
    ensures Bytes([f]) == FieldBytes(f)
  {
    AppendOne([], f);
  }

  lemma WideBytes(i: Instr, env: Env)
    requires WellFormed(i) && i.opc / 0x100 == OPC_WIDE
    ensures Encoding(i, env) == ByteOf(OPC_WIDE) + ByteOf(i.opc % 0x100) + ShortOf(Value(env, i.arg))
            + (if i.opc % 0x100 == OPC_IINC then ShortOf(Value(env, i.arg2) % 0x1_0000) else [])
  {
    hide Bytes, ShortOf, Value;
    var a, b := Value(env, i.arg), Value(env, i.arg2);
    var fs := [F8(OPC_WIDE), F8(i.opc), F16(a)];
    NoBytes();
    Append3([], F8(OPC_WIDE), F8(i.opc), F16(a));
    assert [] + fs == fs;
    AppendOne(fs, F16(b));
    LowHalf(b);
    assert fs + [] == fs;
  }

  lemma LowHalf(x: int)
    ensures ShortOf(x % 0x1_0000) == ShortOf(x)
  {
    var q, y := x / 0x1_0000, x % 0x1_0000;
    assert x / 0x100 == 0x100 * q + y / 0x100;
  }

  lemma ExtendedBytes(opc: int)
    requires opc / 0x100 == OPC_EXTENDED
    ensures Bytes([F8(OPC_EXTENDED), F8(opc)]) == ByteOf(opc / 0x100) + ByteOf(opc % 0x100)
  {
    Append2([], F8(OPC_EXTENDED), F8(opc));
    assert [] + [F8(OPC_EXTENDED), F8(opc)] == [F8(OPC_EXTENDED), F8(opc)];
  }

  /** The last part of Instr.write: one integer is put together and written at the width of the opcode. */
  method WriteOperands(out: DataOutputStream, i: Instr, env: Env) returns (r: Outcome)
    requires WellFormed(i) && i.opc <= 203 && !IsSwitch(i.opc) && OpcLengthsTab(i.opc) > 1
    modifies out
    ensures r == CompilerError <==> i.opc == OPC_LDC && !(0 <= Value(env, i.arg) < 0x100)
    ensures r == Written ==> out.bytes == old(out.bytes) + Bytes(Operands(i, env))
  {
    hide Bytes, ByteOf, ShortOf, IntOf;
    NoBytes();
    var opc, iarg := i.opc, Value(env, i.arg);
    var opcLen := OpcLengthsTab(opc);
    ghost var b := Value(env, i.arg2);
    if IsBranch(opc) || IsWideBranch(opc) {
      iarg := iarg - i.pc;
    } else if opc == OPC_IINC {
      iarg := iarg * 0x100 + Value(env, i.arg2) % 0x100;
    } else if opc == OPC_INVOKEINTERFACE {
      iarg := (iarg * 0x100 + Value(env, i.arg2) % 0x100) * 0x100;
    } else if opc == OPC_LDC {
      if !(0 <= iarg < 0x100) {
        return CompilerError;
      }
    }
    if opcLen == 2 {
      out.WriteByte(iarg);
      SingleField(F8(iarg));
    } else if opcLen == 3 {
      out.WriteShort(iarg);
      SingleField(F16(iarg));
      PackTwo(Value(env, i.arg), b);
    } else if opcLen == 4 {
      out.WriteShort(iarg);
      iarg := Value(env, i.arg2);
      out.WriteByte(iarg);
      Append2([], F16(Value(env, i.arg)), F8(b));
      assert [] + [F16(Value(env, i.arg)), F8(b)] == [F16(Value(env, i.arg)), F8(b)];
    } else {
      out.WriteInt(iarg);
      SingleField(F32(iarg));
      PackThree(Value(env, i.arg), b);
    }
    r := Written;
  }

  /** Shifting one operand over the other makes the two bytes of iinc. */
  lemma PackTwo(a: int, b: int)
    ensures Bytes([F8(a), F8(b)]) == ShortOf(a * 0x100 + b % 0x100)
  {
    Append2([], F8(a), F8(b));
    assert [] + [F8(a), F8(b)] == [F8(a), F8(b)];
  }

  /** The same for the four bytes of invokeinterface, the last one zero. */
  lemma PackThree(a: int, b: int)
    ensures Bytes([F16(a), F8(b), F8(0)]) == IntOf((a * 0x100 + b % 0x100) * 0x100)
  {
    hide Bytes, IntOf;
    NoBytes();
    Append3([], F16(a), F8(b), F8(0));
    assert [] + [F16(a), F8(b), F8(0)] == [F16(a), F8(b), F8(0)];
    var x := (a * 0x100 + b % 0x100) * 0x100;
    IntHalves(x);
    PackedFields(a, b, x);
  }

  lemma PackedFields(a: int, b: int, x: int)
    requires x == (a * 0x100 + b % 0x100) * 0x100
    ensures x / 0x1_0000 == a && x / 0x100 % 0x100 == b % 0x100 && x % 0x100 == 0
  {
    assert x / 0x100 == a * 0x100 + b % 0x100;
  }

  // ----- methods

  /** The length the layout pass reserves for an instruction. */
  function LengthOf(i: Instr): nat
    requires WellFormed(i)
  {
    if i.opc == OPC_TABLESWITCH then 1 + i.table.pad + (i.table.pairs + 3) * 4
    else if i.opc == OPC_LOOKUPSWITCH then 1 + i.table.pad + (|i.table.keys| + 1) * 8
    else OpcLength(i.opc).n
  }

  /** Where the instruction after the first `k` starts, if they are laid out one after another. */
  function Start(instrs: seq<Instr>, k: nat): nat
    requires k <= |instrs| && forall i | i in instrs :: WellFormed(i)
  {
    if k == 0 then 0 else Start(instrs, k - 1) + LengthOf(instrs[k - 1])
  }

  predicate LaidOut(instrs: seq<Instr>) {
    && (forall i | i in instrs :: WellFormed(i))
    && (forall k | 0 <= k < |instrs| :: instrs[k].pc == Start(instrs, k))
    && (forall i | i in instrs :: PadOk(i))
  }

  /** A switch table was resolved for the pc of its instruction. */
  predicate PadOk(i: Instr) {
    IsSwitch(i.opc) ==> !i.table.NoTable? && i.table.pad == Pad(i.pc)
  }

  lemma {:induction false} StartAppend(instrs: seq<Instr>, i: Instr, k: nat)
    requires k <= |instrs| && (forall j | j in instrs + [i] :: WellFormed(j))
    ensures forall j | j in instrs :: j in instrs + [i]
    ensures Start(instrs + [i], k) == Start(instrs, k)
  {
    assert forall j | j in instrs :: j in instrs + [i];
    if k > 0 {
      StartAppend(instrs, i, k - 1);
    }
  }

  lemma StartNext(instrs: seq<Instr>, k: nat)
    requires k < |instrs| && forall i | i in instrs :: WellFormed(i)
    ensures Start(instrs, k + 1) == Start(instrs, k) + LengthOf(instrs[k])
  {
  }

  /** Appending an instruction at the current end keeps the layout. */
  lemma LayOutNext(instrs: seq<Instr>, i: Instr)
    requires LaidOut(instrs) && WellFormed(i) && i.pc == Start(instrs, |instrs|)
    requires PadOk(i)
    ensures LaidOut(instrs + [i])
    ensures Start(instrs + [i], |instrs| + 1) == i.pc + LengthOf(i)
  {
    hide WellFormed, LengthOf, PadOk, Start;
    var all, n := instrs + [i], |instrs|;
    assert forall j | j in all :: j in instrs || j == i;
    StartNext(all, n);
    StartAppend(instrs, i, n);
    forall k | 0 <= k < |all|
      ensures all[k].pc == Start(all, k)
    {
      StartAppend(instrs, i, k);
      assert k < n ==> all[k] == instrs[k];
    }
  }

  datatype Local = Label(defd: bool, refd: bool, arg: int) | OtherLocal

  class MethodData {
    var curPc: nat
    var instrs: seq<Instr>
    var locals: map<string, Local>

    /** Every instruction sits where the previous ones end; a defined label is the
        start of an instruction, or the end of the code so far. */
    ghost predicate Valid()
      reads this
    {
      && LaidOut(instrs)
      && curPc == Start(instrs, |instrs|)
      && (forall name | name in locals && locals[name].Label? :: LabelOk(instrs, curPc, locals[name]))
    }

    constructor ()
      ensures Valid() && curPc == 0 && instrs == [] && locals == map[]
    {
      curPc, instrs, locals := 0, [], map[];
    }

    /** LabelDef: refuses a second definition and a name of another kind. */
    method LabelDef(name: string) returns (ok: bool)
      requires Valid()
      modifies this`locals
      ensures Valid()
      ensures ok <==> old(name !in locals || (locals[name].Label? && !locals[name].defd))
      ensures locals == if ok then old(locals)[name := Label(true, old(name in locals && locals[name].refd), curPc)]
                        else old(locals)
    {
      if name !in locals {
        locals := locals[name := Label(false, false, -1)];
      } else if !locals[name].Label? {
        return false;
      } else if locals[name].defd {
        return false;
      }
      locals := locals[name := locals[name].(defd := true, arg := curPc)];
      ok := true;
    }

    /** LabelRef: creates the label if it is not there yet; its address may come later. */
    method LabelRef(name: string) returns (a: Arg)
      requires Valid()
      modifies this`locals
      ensures Valid()
      ensures a == if old(name in locals && locals[name].OtherLocal?) then NoArg else LabelArg(name)
      ensures a == NoArg ==> locals == old(locals)
      ensures a != NoArg ==>
                var was := if old(name in locals) then old(locals[name]) else Label(false, false, -1);
                was.Label? && locals == old(locals)[name := was.(refd := true)]
    {
      if name !in locals {
        locals := locals[name := Label(false, false, -1)];
      } else if !locals[name].Label? {
        return NoArg;
      }
      locals := locals[name := locals[name].(refd := true)];
      a := LabelArg(name);
    }

    /** addInstr: the new instruction starts at the current pc and the pc moves past it. */
    method AddInstr(opc: int, arg: Arg, arg2: Arg, t: SwitchTable)
      requires Valid() && t.Valid() && IsInstruction(opc)
      requires opc == OPC_TABLESWITCH ==> SpanFits(t.keys)
      requires var table := if opc == OPC_LOOKUPSWITCH then LookupR(0, NoArg, [], [])
                            else TableR(0, NoArg, 0, 0, [], 0);
               WellFormed(Instr(0, opc, arg, arg2, table))
      modifies this`curPc, this`instrs, t`deflabel
      ensures Valid()
      ensures |instrs| == |old(instrs)| + 1 && instrs[..|old(instrs)|] == old(instrs)
      ensures var i := instrs[|old(instrs)|];
              && i.pc == old(curPc) && i.opc == opc && i.arg == arg && i.arg2 == arg2
              && curPc == i.pc + LengthOf(i)
              && (opc == OPC_TABLESWITCH ==> TableOf(i.table, t.keys, t.labels, t.deflabel, i.pc))
              && (opc == OPC_LOOKUPSWITCH ==> i.table == LookupR(Pad(i.pc), t.deflabel, t.keys, t.labels))
              && (!IsSwitch(opc) ==> i.table == NoTable)
              && (IsSwitch(opc) ==>
                    t.deflabel == if old(t.deflabel) == NoArg then Lit(i.pc + LengthOf(i)) else old(t.deflabel))
    {
      var len, table := OpcLength(opc).n, NoTable;
      if opc == OPC_TABLESWITCH {
        len, table := t.RecalcTableSwitch(curPc);
      } else if opc == OPC_LOOKUPSWITCH {
        len, table := t.CalcLookupSwitch(curPc);
      }
      var i := Instr(curPc, opc, arg, arg2, table);
      LayOutNext(instrs, i);
      MoreStarts(instrs, i, curPc);
      instrs := instrs + [i];
      curPc := curPc + len;
    }

    /** The values of the labels, as writeCode finds them. */
    function LabelValues(): map<string, int>
      reads this
    {
      map name | name in locals && locals[name].Label? :: locals[name].arg
    }

    /** The code part of writeCode: the length of the code and then every instruction. */
    method WriteCode(out: DataOutputStream, cells: map<nat, int>) returns (r: Outcome)
      requires Valid()
      modifies out
      ensures r == Written ==> out.bytes == old(out.bytes) + IntOf(curPc) + Code(instrs, Env(LabelValues(), cells))
      ensures r == CompilerError <==> exists i | i in instrs ::
                i.opc == OPC_LDC && !(0 <= Value(Env(LabelValues(), cells), i.arg) < 0x100)
    {
      hide IntOf, WellFormed, Encoding, Value, LaidOut;
      var env := Env(LabelValues(), cells);
      AllWellFormed(instrs);
      out.WriteInt(curPc);
      ghost var head := out.bytes;
      var k := 0;
      while k < |instrs|
        invariant k <= |instrs| && out.bytes == head + Code(instrs[..k], env)
        invariant forall j | 0 <= j < k && instrs[j].opc == OPC_LDC :: 0 <= Value(env, instrs[j].arg) < 0x100
      {
        ghost var before := out.bytes;
        r := WriteInstr(out, instrs[k], env);
        if r == CompilerError {
          assert instrs[k] in instrs;
          return;
        }
        CodeAppend(instrs, k, env);
        assert before + Encoding(instrs[k], env) == head + (Code(instrs[..k], env) + Encoding(instrs[k], env));
        k := k + 1;
      }
      assert instrs[..k] == instrs;
      r := Written;
    }
  }

  lemma AllWellFormed(instrs: seq<Instr>)
    requires LaidOut(instrs)
    ensures forall i | i in instrs :: WellFormed(i)
  {
  }

  lemma CodeAppend(instrs: seq<Instr>, k: nat, env: Env)
    requires k < |instrs| && forall i | i in instrs :: WellFormed(i)
    ensures forall i | i in instrs[..k + 1] :: WellFormed(i)
    ensures Code(instrs[..k + 1], env) == Code(instrs[..k], env) + Encoding(instrs[k], env)
  {
    assert instrs[..k + 1][..k] == instrs[..k];
  }

  ghost predicate LabelOk(instrs: seq<Instr>, curPc: nat, lab: Local)
    requires lab.Label?
  {
    if lab.defd then lab.arg == curPc || exists i | i in instrs :: i.pc == lab.arg
    else lab.arg == -1
  }

  /** A label that was good stays good when the code grows at its end. */
  lemma MoreStarts(instrs: seq<Instr>, i: Instr, curPc: nat)
    requires i.pc == curPc
    ensures forall lab: Local, next | lab.Label? && LabelOk(instrs, curPc, lab) :: LabelOk(instrs + [i], next, lab)
  {
    forall lab: Local, next: nat | lab.Label? && LabelOk(instrs, curPc, lab)
      ensures LabelOk(instrs + [i], next, lab)
    {
      assert i in instrs + [i];
      assert forall j | j in instrs :: j in instrs + [i];
    }
  }

  /** The encodings of a list of instructions, one after another. */
  function Code(instrs: seq<Instr>, env: Env): seq<byte>
    requires forall i | i in instrs :: WellFormed(i)
  {
    if instrs == [] then []
    else Code(instrs[..|instrs| - 1], env) + Encoding(instrs[|instrs| - 1], env)
  }
}
