/** A tableswitch from the source to its execution. */
module TableSwitch {
  import opened Bits
  import opened JavaInts
  import opened Opcodes
  import opened Jasm
  import opened AsmRoundTrip
  import opened AsmProgram
  import opened AsmFidelity
  import opened CallFrames
  import Jdis

  /** The code has been loaded at a word boundary of the memory that the interpreter reads. */
  ghost predicate Loaded(mem: seq<uint32>, load: uint32, code: seq<byte>) {
    && |mem| == 0x4000_0000 && load % 4 == 0 && load + |code| <= 0x1_0000_0000
    && forall k: nat | 4 * k + 4 <= |code| :: S32(mem[load / 4 + k]) == GetInt(code, 4 * k)
  }

  /** A word of loaded code, as a switch reads it. */
  lemma LoadedInt(mem: seq<uint32>, load: uint32, code: seq<byte>, at: nat)
    requires Loaded(mem, load, code) && at % 4 == 0 && at + 4 <= |code|
    ensures Wrap32(load + at) == load + at && S32(mem[(load + at) / 4]) == GetInt(code, at)
  {
    hide S32, GetInt;
    var k := at / 4;
    assert S32(mem[load / 4 + k]) == GetInt(code, 4 * k);
  }

  lemma {:induction false} IntsAt(code: seq<byte>, at: nat, n: nat, k: nat)
    requires at + 4 * n <= |code| && k < n
    ensures Jdis.Ints4(code, at, n)[k] == GetInt(code, at + 4 * k)
  {
    hide GetInt;
    if k < n - 1 {
      IntsAt(code, at, n - 1, k);
    }
  }

  lemma {:induction false} DisplacementAt(env: Env, labels: seq<Arg>, pc: nat, k: nat)
    requires k < |labels|
    ensures Displacements(env, labels, pc)[k] == S32(Value(env, labels[k]) - pc)
  {
    hide S32, Value;
    if k < |labels| - 1 {
      DisplacementAt(env, labels[..|labels| - 1], pc, k);
    }
  }

  /** Every slot of an emitted table can be read back. */
  lemma SlotAt(code: seq<byte>, i: Instr, env: Env, k: nat)
    requires Stands(code, i, env) && PadOk(i) && i.opc == OPC_TABLESWITCH && k < |i.table.slots|
    ensures var at := Jdis.Align(i.pc + 1) + 12 + 4 * k;
            at + 4 <= |code| && GetInt(code, at) == S32(Value(env, i.table.slots[k]) - i.pc)
  {
    hide S16, S32, GetShort, GetInt, Bytes, Value, At, PadOk;
    var t, tb := i.table, Jdis.Align(i.pc + 1);
    var def := Value(env, t.def) - i.pc;
    var head, rest := [F32(t.low)] + [F32(t.high)], Offsets(env, t.slots, i.pc);
    assert [F32(def), F32(t.low), F32(t.high)] == [F32(def)] + head;
    EncodingAt(code, i, env);
    SwitchHead(code, i, def, head, rest);
    OperandLengths(F32(t.low), [F32(t.high)]);
    OffsetsReadBack(code, tb + 12, env, t.slots, i.pc);
    IntsAt(code, tb + 12, |t.slots|, k);
    DisplacementAt(env, t.slots, i.pc, k);
  }

  lemma DefaultAt(code: seq<byte>, i: Instr, env: Env)
    requires Stands(code, i, env) && PadOk(i) && i.opc == OPC_TABLESWITCH
    ensures var tb := Jdis.Align(i.pc + 1);
            tb + 12 <= |code| && GetInt(code, tb) == S32(Value(env, i.table.def) - i.pc)
  {
    hide S16, S32, GetShort, GetInt, Bytes, Value, At, PadOk;
    var t := i.table;
    var def := Value(env, t.def) - i.pc;
    var head, rest := [F32(t.low)] + [F32(t.high)], Offsets(env, t.slots, i.pc);
    assert [F32(def), F32(t.low), F32(t.high)] == [F32(def)] + head;
    EncodingAt(code, i, env);
    SwitchHead(code, i, def, head, rest);
    RangeReadsBack(code, i, env);
  }

  lemma {:induction false} NotAKey(keys: seq<int>, labels: seq<Arg>, key: int, def: Arg)
    requires |keys| == |labels| && key !in keys
    ensures LabelFor(keys, labels, key, def) == def
  {
    if keys != [] {
      NotAKey(keys[..|keys| - 1], labels[..|labels| - 1], key, def);
    }
  }

  lemma Landing(load: uint32, pc: nat, target: int)
    ensures Wrap32(load + pc + S32(target - pc)) == Wrap32(load + target)
  {
    var k := (S32(target - pc) - (target - pc)) / 0x1_0000_0000;
    assert S32(target - pc) == target - pc + 0x1_0000_0000 * k;
    WrapPeriod(load + target, k);
  }

  lemma WrapPeriod(x: int, k: int)
    ensures Wrap32(x + 0x1_0000_0000 * k) == Wrap32(x)
  {
  }

  /** The table entry that an index selects. */
  function Selected(t: Resolved, index: int): Arg
    requires t.TableR? && (t.low <= index <= t.high ==> index - t.low < |t.slots|)
  {
    if index < t.low || index > t.high then t.def else t.slots[index - t.low]
  }

  /** Where execution goes depends on the emitted table alone. */
  lemma ExecutionSelects(mem: seq<uint32>, load: uint32, code: seq<byte>, i: Instr, env: Env, index: int)
    requires Loaded(mem, load, code) && Stands(code, i, env) && PadOk(i) && i.opc == OPC_TABLESWITCH && i.table.TableR?
    requires S32(i.table.low) == i.table.low && S32(i.table.high) == i.table.high
    requires i.table.low <= index <= i.table.high ==> index - i.table.low < |i.table.slots|
    ensures load + i.pc < 0x1_0000_0000
    ensures SwitchTarget(mem, load + i.pc, index) == Wrap32(load + Value(env, Selected(i.table, index)))
  {
    hide S32, GetInt, Stands, PadOk, Value, Loaded, Jdis.Align, Wrap32;
    var t, tb := i.table, Jdis.Align(i.pc + 1);
    DefaultAt(code, i, env);
    RangeReadsBack(code, i, env);
    InCode(mem, load, code, i.pc);
    LoadedInt(mem, load, code, tb);
    LoadedInt(mem, load, code, tb + 4);
    LoadedInt(mem, load, code, tb + 8);
    if index < t.low || index > t.high {
      Landing(load, i.pc, Value(env, t.def));
    } else {
      var k := index - t.low;
      SlotAt(code, i, env, k);
      LoadedInt(mem, load, code, tb + 12 + 4 * k);
      Landing(load, i.pc, Value(env, t.slots[k]));
    }
  }

  /** For every 32-bit index, executing the emitted tableswitch goes to the label that the source
      gives for that index, the last one if there are several, or to the default; for tables with
      gaps, for repeated keys and for the empty table too. */
  lemma SwitchKeepsItsMeaning(mem: seq<uint32>, load: uint32, code: seq<byte>, i: Instr, env: Env,
                              keys: seq<int>, labels: seq<Arg>, index: int)
    requires Loaded(mem, load, code) && Stands(code, i, env) && PadOk(i) && i.opc == OPC_TABLESWITCH
    requires |keys| == |labels| && SpanFits(keys) && TableOf(i.table, keys, labels, i.table.def, i.pc)
    requires IsInt(index)
    ensures load + i.pc < 0x1_0000_0000
    ensures SwitchTarget(mem, load + i.pc, index)
            == Wrap32(load + Value(env, LabelFor(keys, labels, index, i.table.def)))
  {
    hide S32, GetInt, Stands, PadOk, Value, LabelFor, Loaded, SpanFits, IsLow, IsHigh, SwitchTarget, Wrap32;
    var t := i.table;
    KeysAreInts(keys, t.low, t.high);
    if index < t.low || index > t.high {
      OutsideTheRange(keys, t.low, t.high, index);
      NotAKey(keys, labels, index, t.def);
    } else {
      SomeKey(keys, t.low, t.high);
    }
    ExecutionSelects(mem, load, code, i, env, index);
  }

  lemma InCode(mem: seq<uint32>, load: uint32, code: seq<byte>, pc: nat)
    requires Loaded(mem, load, code) && Jdis.Align(pc + 1) + 12 <= |code|
    ensures Jdis.Align(pc + 1) % 4 == 0 && load + pc < 0x1_0000_0000 && |mem| == 0x4000_0000
    ensures Wrap32((load + pc) / 4 * 4 + 4) == load + Jdis.Align(pc + 1)
  {
    NextWord(load / 4, pc);
  }

  lemma NextWord(words: nat, pc: nat)
    ensures Jdis.Align(pc + 1) == pc / 4 * 4 + 4
    ensures (4 * words + pc) / 4 * 4 == 4 * words + pc / 4 * 4
  {
    var q, r := pc / 4, pc % 4;
    assert pc + 4 == 4 * (q + 1) + r;
    assert 4 * words + pc == 4 * (words + q) + r;
  }

  lemma OutsideTheRange(keys: seq<int>, low: int, high: int, index: int)
    requires IsLow(keys, low) && IsHigh(keys, high) && (index < low || index > high)
    ensures index !in keys
  {
  }

  lemma SomeKey(keys: seq<int>, low: int, high: int)
    requires IsLow(keys, low) && IsHigh(keys, high) && low <= high
    ensures keys != []
  {
  }
}
