/** The opcode numbers and the length table shared by the assembler and the disassembler. */
module Opcodes {

  const OPC_BIPUSH := 16
  const OPC_LDC := 18
  const OPC_IINC := 132
  const OPC_GOTO := 167
  const OPC_JSR := 168
  const OPC_TABLESWITCH := 170
  const OPC_LOOKUPSWITCH := 171
  const OPC_INVOKEINTERFACE := 185
  const OPC_NEWARRAY := 188
  const OPC_WIDE := 196
  const OPC_MULTIANEWARRAY := 197
  const OPC_GOTO_W := 200
  const OPC_JSR_W := 201
  const OPC_BYTECODE := 203
  const OPC_EXIT_SYNC_METHOD := 236
  const OPC_SETHI := 237
  const OPC_EXTENDED := 255

  /** One-word loads, stores and ret, whose operand is a local variable. */
  predicate IsLocalAccess(opc: int) {
    21 <= opc <= 25 || 54 <= opc <= 58 || opc == 169
  }

  /** Branches with a 16-bit displacement: the ifs, goto, jsr, ifnull, ifnonnull. */
  predicate IsBranch(opc: int) {
    153 <= opc <= 168 || 198 <= opc <= 199
  }

  predicate IsWideBranch(opc: int) {
    opc == OPC_GOTO_W || opc == OPC_JSR_W
  }

  predicate IsSwitch(opc: int) {
    opc == OPC_TABLESWITCH || opc == OPC_LOOKUPSWITCH
  }

  /** The picoJava indexed loads and stores. */
  predicate IsIndexed(opc: int) {
    238 <= opc <= 246
  }

  /** opcLengthsTab, for its indexes 0 to 208. */
  function OpcLengthsTab(opc: int): nat
    requires 0 <= opc <= 208
  {
    if IsLocalAccess(opc) || opc == 16 || opc == OPC_LDC || opc == OPC_NEWARRAY then 2
    else if IsBranch(opc) || opc == 17 || 19 <= opc <= 20 || opc == OPC_IINC then 3
    else if 178 <= opc <= 184 || opc == 187 || opc == 189 || 192 <= opc <= 193 then 3
    else if opc == OPC_MULTIANEWARRAY then 4
    else if IsWideBranch(opc) || opc == OPC_INVOKEINTERFACE then 5
    else if IsSwitch(opc) then 99
    else if opc == 186 || opc == OPC_WIDE || opc >= 204 then 0
    else 1
  }

  datatype Length = Defined(n: nat) | OutOfBounds

  /** Tables.opcLength; OutOfBounds is its ArrayIndexOutOfBoundsException. */
  function OpcLength(opc: int): Length {
    if 0 <= opc < 0x100 then
      if opc == OPC_EXIT_SYNC_METHOD then Defined(1)
      else if opc == OPC_SETHI || IsIndexed(opc) then Defined(3)
      else if opc <= 208 then Defined(OpcLengthsTab(opc))
      else OutOfBounds
    else if opc / 0x100 == OPC_WIDE then
      if IsLocalAccess(opc % 0x100) then Defined(4)
      else if opc % 0x100 == OPC_IINC then Defined(6)
      else OutOfBounds
    else if opc / 0x100 == OPC_EXTENDED then Defined(2)
    else OutOfBounds
  }

  /** Whether Tables.opcName finds a mnemonic for a one-byte opcode. */
  predicate HasName(opc: int) {
    (0 <= opc <= 208 && opc != OPC_WIDE) || 236 <= opc <= 246
  }

  /** Whether it finds one behind the wide prefix: a mnemonic with `_w` added that is in the table of
      mnemonics. So are ldc_w, goto_w and jsr_w, though they are no prefixed forms and have no length. */
  predicate HasWideName(low: int) {
    IsLocalAccess(low) || low == OPC_IINC || low == OPC_LDC || low == OPC_GOTO || low == OPC_JSR
  }

  /** The opcodes an instruction can carry: a length is defined for them, it is not zero, and
      they are not the pseudo-instruction that plants raw bytes. */
  predicate IsInstruction(opc: int) {
    OpcLength(opc).Defined? && OpcLength(opc).n > 0 && opc != OPC_BYTECODE
  }

  /** The instruction set number by number: the plain opcodes with the picoJava ones, the prefix 196
      before a local variable access or iinc, and the prefix 255 before any byte; and their lengths. */
  lemma LengthsSpelledOut(opc: int)
    ensures IsInstruction(opc) <==>
              || 0 <= opc <= 185 || 187 <= opc <= 195 || 197 <= opc <= 202 || 236 <= opc <= 246
              || 196 * 256 + 21 <= opc <= 196 * 256 + 25 || 196 * 256 + 54 <= opc <= 196 * 256 + 58
              || opc == 196 * 256 + 132 || opc == 196 * 256 + 169
              || 255 * 256 <= opc <= 255 * 256 + 255
    ensures OpcLength(opc) ==
            if opc == 16 || opc == 18 || 21 <= opc <= 25 || 54 <= opc <= 58 || opc == 169 || opc == 188 then Defined(2)
            else if opc == 17 || opc == 19 || opc == 20 || opc == 132 || 153 <= opc <= 168 || 178 <= opc <= 184
                    || opc == 187 || opc == 189 || opc == 192 || opc == 193 || opc == 198 || opc == 199
                    || 237 <= opc <= 246 then Defined(3)
            else if opc == 197 then Defined(4)
            else if opc == 185 || opc == 200 || opc == 201 then Defined(5)
            else if opc == 170 || opc == 171 then Defined(99)
            else if opc == 186 || opc == 196 || 204 <= opc <= 208 then Defined(0)
            else if 0 <= opc <= 203 || opc == 236 then Defined(1)
            else if 255 * 256 <= opc <= 255 * 256 + 255 then Defined(2)
            else if opc == 196 * 256 + 132 then Defined(6)
            else if opc == 196 * 256 + 169 || 196 * 256 + 21 <= opc <= 196 * 256 + 25
                    || 196 * 256 + 54 <= opc <= 196 * 256 + 58 then Defined(4)
            else OutOfBounds
  {
  }
}
