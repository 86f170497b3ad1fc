/** Whole method bodies: exact layout, and assembling followed by disassembling. */
module AsmProgram {
  import opened Bits
  import opened JavaInts
  import opened Opcodes
  import opened Jasm
  import opened AsmRoundTrip
  import Jdis

  // ----- exact layout

  /** The table of a tableswitch was sized for exactly the slots it has. */
  predicate ExactTable(i: Instr) {
    i.opc == OPC_TABLESWITCH && i.table.TableR? ==> i.table.pairs == |i.table.slots|
  }

  /** As many bytes precede instruction `k` as the layout pass said. */
  predicate ExactAt(instrs: seq<Instr>, env: Env, k: nat)
    requires k <= |instrs| && forall i | i in instrs :: WellFormed(i)
  {
    && (forall i | i in instrs[..k] :: WellFormed(i))
    && |Code(instrs[..k], env)| == Start(instrs, k)
  }

  /** Instruction `k` keeps the layout exact, or breaks it, according to its table. */
  lemma OneMore(instrs: seq<Instr>, env: Env, k: nat)
    requires k < |instrs| && forall i | i in instrs :: WellFormed(i)
    requires ExactAt(instrs, env, k)
    ensures ExactAt(instrs, env, k + 1) <==> ExactTable(instrs[k])
  {
    hide Encoding, LengthOf, Code;
    var i := instrs[k];
    assert i in instrs;
    CodeAppend(instrs, k, env);
    EncodingLength(i, env);
    assert Start(instrs, k + 1) == Start(instrs, k) + LengthOf(i);
    assert i.opc == OPC_TABLESWITCH ==> i.table.TableR?;
  }

  lemma {:induction false} ExactUpTo(instrs: seq<Instr>, env: Env, n: nat)
    requires n <= |instrs| && forall i | i in instrs :: WellFormed(i)
    requires forall k | 0 <= k < n :: ExactTable(instrs[k])
    ensures ExactAt(instrs, env, n)
  {
    if n > 0 {
      ExactUpTo(instrs, env, n - 1);
      OneMore(instrs, env, n - 1);
    }
  }

  /** Every recorded pc, and the length announced for the code, counts the bytes really
      written before it exactly if every tableswitch has as many slots as it has pairs. */
  lemma LayoutIsExactIff(instrs: seq<Instr>, env: Env)
    requires LaidOut(instrs)
    ensures forall i | i in instrs :: WellFormed(i)
    ensures (forall k | 0 <= k <= |instrs| :: ExactAt(instrs, env, k))
            <==> (forall k | 0 <= k < |instrs| :: ExactTable(instrs[k]))
    ensures forall k | 0 <= k < |instrs| :: Start(instrs, k) == instrs[k].pc
  {
    AllWellFormed(instrs);
    hide WellFormed, ExactAt, ExactTable;
    if forall k | 0 <= k < |instrs| :: ExactTable(instrs[k]) {
      forall k | 0 <= k <= |instrs|
        ensures ExactAt(instrs, env, k)
      {
        ExactUpTo(instrs, env, k);
      }
    }
    if forall k | 0 <= k <= |instrs| :: ExactAt(instrs, env, k) {
      forall k | 0 <= k < |instrs|
        ensures ExactTable(instrs[k])
      {
        assert ExactAt(instrs, env, k) && ExactAt(instrs, env, k + 1);
        OneMore(instrs, env, k);
      }
    }
  }

  /** Code of an initial part is an initial part of the code. */
  lemma {:induction false} CodePrefix(instrs: seq<Instr>, env: Env, n: nat)
    requires n <= |instrs| && forall i | i in instrs :: WellFormed(i)
    ensures forall i | i in instrs[..n] :: WellFormed(i)
    ensures |Code(instrs[..n], env)| <= |Code(instrs, env)|
    ensures Code(instrs, env)[..|Code(instrs[..n], env)|] == Code(instrs[..n], env)
    decreases |instrs| - n
  {
    hide WellFormed, Encoding, Code;
    if n < |instrs| {
      CodePrefix(instrs, env, n + 1);
      CodeAppend(instrs, n, env);
      var c, p := Code(instrs, env), |Code(instrs[..n], env)|;
      assert c[..p] == c[..|Code(instrs[..n + 1], env)|][..p];
    } else {
      assert instrs[..n] == instrs;
    }
  }

  // ----- the round trip of a body

  /** A tableswitch for the keys 0 and 2, as resolution makes it, and a return behind it. */
  function SwitchWithGap(): Instr {
    Instr(0, OPC_TABLESWITCH, NoArg, NoArg, TableR(3, Lit(24), 0, 2, [Lit(24), Lit(24), Lit(24)], 2))
  }

  function ReturnBehind(): Instr {
    Instr(24, 177, NoArg, NoArg, NoTable)
  }

  /** The return is recorded at 24, but 28 bytes are written before it. */
  lemma GapMovesTheNext(env: Env)
    ensures LaidOut([SwitchWithGap(), ReturnBehind()])
    ensures WellFormed(SwitchWithGap()) && |Encoding(SwitchWithGap(), env)| == 28 != ReturnBehind().pc
  {
    hide Bytes, Encoding;
    LayOutNext([], SwitchWithGap());
    LayOutNext([SwitchWithGap()], ReturnBehind());
    assert [] + [SwitchWithGap()] == [SwitchWithGap()];
    assert [SwitchWithGap()] + [ReturnBehind()] == [SwitchWithGap(), ReturnBehind()];
    EncodingLength(SwitchWithGap(), env);
  }

  lemma GapIsResolved()
    ensures TableOf(SwitchWithGap().table, [0, 2], [Lit(24), Lit(24)], Lit(24), 0)
  {
    forall k | 0 <= k < 3
      ensures SwitchWithGap().table.slots[k] == LabelFor([0, 2], [Lit(24), Lit(24)], k, Lit(24))
    {
      assert [0, 2][..1] == [0] && [Lit(24), Lit(24)][..1] == [Lit(24)];
      assert LabelFor([0], [Lit(24)], k, Lit(24)) == Lit(24);
    }
  }

  predicate AllDense(instrs: seq<Instr>) {
    forall k | 0 <= k < |instrs| :: WellFormed(instrs[k]) && Dense(instrs[k])
  }

  /** The recorded pcs, and the end of the code. */
  function Starts(instrs: seq<Instr>, n: nat): (s: seq<nat>)
    requires n <= |instrs| && LaidOut(instrs)
    ensures |s| == n + 1
  {
    if n == 0 then [0] else Starts(instrs, n - 1) + [Start(instrs, n)]
  }

  lemma {:induction false} StartsAt(instrs: seq<Instr>, n: nat, k: nat)
    requires k <= n <= |instrs| && LaidOut(instrs)
    ensures Starts(instrs, n)[k] == Start(instrs, k)
  {
    hide LaidOut, WellFormed;
    AllWellFormed(instrs);
    if k < n {
      StartsAt(instrs, n - 1, k);
    }
  }

  function CodeOf(instrs: seq<Instr>, env: Env): seq<byte>
    requires LaidOut(instrs)
  {
    Code(instrs, env)
  }

  /** The encoding of `i` stands at its pc. */
  predicate Stands(code: seq<byte>, i: Instr, env: Env) {
    WellFormed(i) && i.pc + |Encoding(i, env)| <= |code| && code[i.pc..i.pc + |Encoding(i, env)|] == Encoding(i, env)
  }

  /** The disassembler reads `i` back at its pc, and both of its walks move on by its length. */
  predicate Decodes(code: seq<byte>, i: Instr, env: Env, maya: bool) {
    && WellFormed(i)
    && Jdis.Readable(code, i.pc) && Jdis.Print(code, i.pc, maya) == Shown(i, env, maya)
    && Jdis.PrintLength(code, i.pc) == Jdis.RefLength(code, i.pc) == LengthOf(i) > 0
  }

  lemma DenseIsExact(instrs: seq<Instr>)
    requires AllDense(instrs)
    ensures forall k | 0 <= k < |instrs| :: ExactTable(instrs[k])
  {
  }

  /** The encoding of instruction `k` stands at its recorded pc. */
  lemma EncodingInPlace(instrs: seq<Instr>, env: Env, k: nat)
    requires LaidOut(instrs) && AllDense(instrs) && k < |instrs|
    ensures Stands(CodeOf(instrs, env), instrs[k], env)
  {
    AllWellFormed(instrs);
    BytesBefore(instrs, env, k);
    assert instrs[k] in instrs;
    hide LaidOut, WellFormed, Encoding, Code, AllDense;
    StandsAfter(instrs, env, k);
  }

  lemma BytesBefore(instrs: seq<Instr>, env: Env, k: nat)
    requires LaidOut(instrs) && AllDense(instrs) && k < |instrs|
    ensures forall i | i in instrs[..k] :: WellFormed(i)
    ensures |Code(instrs[..k], env)| == instrs[k].pc
  {
    AllWellFormed(instrs);
    DenseIsExact(instrs);
    hide WellFormed, Code, Start, AllDense, ExactTable;
    ExactUpTo(instrs, env, k);
  }

  lemma StandsAfter(instrs: seq<Instr>, env: Env, k: nat)
    requires k < |instrs| && forall i | i in instrs :: WellFormed(i)
    requires forall i | i in instrs[..k] :: WellFormed(i)
    requires |Code(instrs[..k], env)| == instrs[k].pc && WellFormed(instrs[k])
    ensures Stands(Code(instrs, env), instrs[k], env)
  {
    hide WellFormed, Encoding, Code;
    CodePrefix(instrs, env, k + 1);
    CodeAppend(instrs, k, env);
    Slice(Code(instrs, env), Code(instrs[..k], env), Encoding(instrs[k], env));
  }

  lemma Slice(code: seq<byte>, before: seq<byte>, e: seq<byte>)
    requires |before + e| <= |code| && code[..|before + e|] == before + e
    ensures code[|before|..|before| + |e|] == e
  {
    assert code[|before|..|before| + |e|] == code[..|before + e|][|before|..];
  }

  lemma InPlaceDecodes(instrs: seq<Instr>, env: Env, maya: bool, k: nat)
    requires LaidOut(instrs) && AllDense(instrs) && k < |instrs|
    ensures Decodes(CodeOf(instrs, env), instrs[k], env, maya)
  {
    EncodingInPlace(instrs, env, k);
    assert instrs[k] in instrs && PadOk(instrs[k]) && Dense(instrs[k]);
    StandingDecodes(CodeOf(instrs, env), instrs[k], env, maya);
  }

  lemma StandingDecodes(code: seq<byte>, i: Instr, env: Env, maya: bool)
    requires Stands(code, i, env) && PadOk(i) && Dense(i)
    ensures Decodes(code, i, env, maya)
  {
    LengthPositive(i);
    hide Encoding, Dense, LengthOf, PadOk, WellFormed, Shown, Jdis.Readable, Jdis.Print, Jdis.PrintLength,
         Jdis.RefLength;
    InstrDecodes(code, i, env, maya);
  }

  lemma LengthPositive(i: Instr)
    requires WellFormed(i)
    ensures LengthOf(i) > 0
  {
  }

  /** Both walks of the disassembler visit exactly the recorded pcs and end with the code. */
  lemma WalksVisitThePcs(instrs: seq<Instr>, env: Env)
    requires LaidOut(instrs) && AllDense(instrs)
    ensures |CodeOf(instrs, env)| == Starts(instrs, |instrs|)[|instrs|]
    ensures forall k | 0 <= k < |instrs| :: Starts(instrs, |instrs|)[k] == instrs[k].pc
    ensures Jdis.Walk(CodeOf(instrs, env), Starts(instrs, |instrs|))
  {
    hide CodeOf, Starts, LaidOut, AllDense, WellFormed, LengthOf, Shown, Decodes, Jdis.Readable, Jdis.Print,
         Jdis.PrintLength, Jdis.RefLength;
    var n, code, starts := |instrs|, CodeOf(instrs, env), Starts(instrs, |instrs|);
    EndsWithTheCode(instrs, env);
    forall k | 0 <= k < n
      ensures && starts[k] == instrs[k].pc
              && Jdis.Readable(code, starts[k])
              && starts[k + 1] == starts[k] + Jdis.PrintLength(code, starts[k])
                   == starts[k] + Jdis.RefLength(code, starts[k])
              && starts[k] < starts[k + 1]
    {
      NextStart(instrs, k);
      InPlaceDecodes(instrs, env, false, k);
      DecodedStep(code, instrs[k], env);
    }
  }

  /** Both walks lead from `here` to `next`. */
  predicate StepsTo(code: seq<byte>, here: nat, next: nat) {
    && Jdis.Readable(code, here)
    && next == here + Jdis.PrintLength(code, here) == here + Jdis.RefLength(code, here)
    && here < next
  }

  lemma DecodedStep(code: seq<byte>, i: Instr, env: Env)
    requires Decodes(code, i, env, false)
    ensures WellFormed(i) && StepsTo(code, i.pc, i.pc + LengthOf(i))
  {
    hide WellFormed, LengthOf, Shown, Jdis.Readable, Jdis.Print, Jdis.PrintLength, Jdis.RefLength;
  }

  lemma EndsWithTheCode(instrs: seq<Instr>, env: Env)
    requires LaidOut(instrs) && AllDense(instrs)
    ensures Starts(instrs, |instrs|)[0] == 0
    ensures |CodeOf(instrs, env)| == Starts(instrs, |instrs|)[|instrs|]
  {
    var n := |instrs|;
    AllWellFormed(instrs);
    DenseIsExact(instrs);
    hide LaidOut, WellFormed, Code, AllDense, ExactTable, Starts;
    ExactUpTo(instrs, env, n);
    assert instrs[..n] == instrs;
    StartsAt(instrs, n, n);
    StartsAt(instrs, n, 0);
  }

  lemma NextStart(instrs: seq<Instr>, k: nat)
    requires LaidOut(instrs) && k < |instrs|
    ensures WellFormed(instrs[k])
    ensures Starts(instrs, |instrs|)[k] == instrs[k].pc
    ensures Starts(instrs, |instrs|)[k + 1] == instrs[k].pc + LengthOf(instrs[k])
  {
    hide LaidOut, WellFormed, LengthOf, Starts, Start;
    AllWellFormed(instrs);
    assert instrs[k] in instrs;
    StandsAtStart(instrs, k);
    StartNext(instrs, k);
    StartsAt(instrs, |instrs|, k);
    StartsAt(instrs, |instrs|, k + 1);
  }

  lemma StandsAtStart(instrs: seq<Instr>, k: nat)
    requires LaidOut(instrs) && k < |instrs|
    ensures forall i | i in instrs :: WellFormed(i)
    ensures instrs[k].pc == Start(instrs, k)
  {
    hide WellFormed, Start;
  }

  /** The source line of an instruction as the listing should show it. */
  function Expected(i: Instr, env: Env, maya: bool, referred: set<int>): Jdis.Printed {
    Jdis.Printed(i.pc, i.pc in referred, if WellFormed(i) then Shown(i, env, maya) else Jdis.Silent)
  }

  /** Assembling and then disassembling: line by line, at the recorded pcs, the listing shows
      the instructions that were given. */
  lemma {:induction false} ListingShowsTheSource(instrs: seq<Instr>, env: Env, maya: bool, referred: set<int>, n: nat)
    requires LaidOut(instrs) && AllDense(instrs) && n <= |instrs|
    ensures Jdis.Walk(CodeOf(instrs, env), Starts(instrs, |instrs|))
    ensures forall k | 0 <= k < n ::
              Jdis.Listing(CodeOf(instrs, env), Starts(instrs, |instrs|), n, referred, maya)[k]
              == Expected(instrs[k], env, maya, referred)
  {
    hide CodeOf, Starts, LaidOut, AllDense, WellFormed, LengthOf, Shown, Jdis.Readable, Jdis.Print, Jdis.PrintLength,
         Jdis.RefLength, Jdis.Walk;
    WalksVisitThePcs(instrs, env);
    if n > 0 {
      ListingShowsTheSource(instrs, env, maya, referred, n - 1);
      InPlaceDecodes(instrs, env, maya, n - 1);
    }
  }
}
