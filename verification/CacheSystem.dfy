/** Both caches together: instruction fetch, the flush instructions, the debugger's
    memory accesses, and runs of data accesses against one flat memory. */
module CacheSystemModel {
  import opened Bits
  import opened AddressFields
  import opened CommonMemory
  import opened CacheState
  import opened DataCacheModel

  datatype IEntry = IEntry(line: seq<byte>, tag: nat, valid: bool)

  /** Lines of 8 bytes (pico) or 16 (maya), index up to bit 9 (1K) to 13 (16K). */
  predicate IGeometry(il: nat, ir: nat) {
    9 <= il <= 13 && 3 <= ir <= 4
  }

  function ISize(ir: nat): nat {
    if ir == 3 then 8 else 16
  }

  function IOffset(ir: nat, a: nat): (o: nat)
    ensures o < ISize(ir)
  {
    if ir == 3 then a % 8 else a % 16
  }

  function IIndex(il: nat, ir: nat, a: uint32): (i: nat)
    requires IGeometry(il, ir)
    ensures i < Entries(il, ir)
  {
    SplitAddress(il, ir, a);
    Index(il, ir, a)
  }

  function ITag(il: nat, a: uint32): (t: nat)
    requires 9 <= il <= 13
    ensures t < Pow2(31 - il)
  {
    SplitAddress(il, 3, a);
    Tag(il, a)
  }

  function IBase(il: nat, ir: nat, tag: nat, index: nat): (base: nat)
    requires IGeometry(il, ir) && tag < Pow2(31 - il) && index < Entries(il, ir)
    ensures IOffset(ir, base) == 0 && base + ISize(ir) <= 0x1_0000_0000
  {
    LineMembers(il, ir, tag, index);
    Pow2Values();
    LineBase(il, ir, tag, index)
  }

  predicate IShape(il: nat, ir: nat, I: seq<IEntry>) {
    && IGeometry(il, ir)
    && |I| == Entries(il, ir)
    && forall i | 0 <= i < |I| :: |I[i].line| == ISize(ir) && I[i].tag < Pow2(31 - il)
  }

  /** The byte an instruction fetch at `a` delivers when memory does not refuse. */
  function FetchByte(il: nat, ir: nat, I: seq<IEntry>, m: seq<byte>, a: uint32): byte
    requires IShape(il, ir, I) && |m| == 0x1_0000_0000
  {
    if IHolds(il, ir, I, a) then I[IIndex(il, ir, a)].line[IOffset(ir, a)] else m[a]
  }

  predicate IHolds(il: nat, ir: nat, I: seq<IEntry>, a: uint32)
    requires IShape(il, ir, I)
  {
    I[IIndex(il, ir, a)].valid && I[IIndex(il, ir, a)].tag == ITag(il, a)
  }

  /** The instruction cache without the line at the index of `addr`. */
  function Invalidated(il: nat, ir: nat, I: seq<IEntry>, addr: uint32): seq<IEntry>
    requires IShape(il, ir, I)
  {
    I[IIndex(il, ir, addr) := I[IIndex(il, ir, addr)].(valid := false)]
  }

  /** The instruction cache after the fill for `addr` stopped: the first `done` bytes of the new line
      stand in the entry of the old one. */
  function PartlyFilled(il: nat, ir: nat, I: seq<IEntry>, m: seq<byte>, addr: uint32, done: nat): seq<IEntry>
    requires IShape(il, ir, I) && |m| == 0x1_0000_0000 && done <= ISize(ir)
  {
    var index := IIndex(il, ir, addr);
    var base := IBase(il, ir, ITag(il, addr), index);
    I[index := I[index].(line := Store(I[index].line, 0, m[base..base + done]))]
  }

  /** The aligned word around `addr` that an instruction fetch delivers. */
  function FetchWordAt(il: nat, ir: nat, I: seq<IEntry>, m: seq<byte>, addr: uint32): Word
    requires IShape(il, ir, I) && |m| == 0x1_0000_0000
  {
    var a := addr - addr % 4;
    [FetchByte(il, ir, I, m, a), FetchByte(il, ir, I, m, a + 1),
     FetchByte(il, ir, I, m, a + 2), FetchByte(il, ir, I, m, a + 3)]
  }

  /** A byte of an instruction line sits at its own offset from the start of the line. */
  lemma ILineOffset(il: nat, ir: nat, tag: nat, index: nat, a: uint32)
    requires IGeometry(il, ir) && tag < Pow2(31 - il) && index < Entries(il, ir)
    ensures (IIndex(il, ir, a) == index && ITag(il, a) == tag)
       <==> IBase(il, ir, tag, index) <= a < IBase(il, ir, tag, index) + ISize(ir)
    ensures IIndex(il, ir, a) == index && ITag(il, a) == tag ==> a == IBase(il, ir, tag, index) + IOffset(ir, a)
  {
    LineMember(il, ir, tag, index, a);
    Pow2Values();
  }

  class CacheSystem {
    const dc: DataCache
    const mem: Memory
    const il: nat
    const ir: nat
    const I: array<IEntry>
    var dce: bool     // psr bit 10
    var ice: bool     // psr bit 9

    ghost predicate Valid()
      reads this, dc, dc.D, mem, I
    {
      dc.mem == mem && dc.Valid() && IShape(il, ir, I[..])
    }

    /** icacheInit for the encoded sizes 1 to 5, beside a data cache. */
    constructor (iSize: nat, maya: bool, dc: DataCache)
      requires 1 <= iSize <= 5 && dc.Valid()
      ensures Valid() && this.dc == dc && fresh(I) && ice && dce
      ensures ir == (if maya then 4 else 3) && il == 8 + iSize && I.Length == Pow2(9 + iSize - ir)
      ensures forall a: uint32 :: FetchByte(il, ir, I[..], mem.bytes, a) == mem.bytes[a]
    {
      this.dc := dc;
      mem := dc.mem;
      var lineBits := if maya then 4 else 3;
      ir := lineBits;
      il := 8 + iSize;
      I := new IEntry[Pow2(9 + iSize - lineBits)](_ => IEntry(if maya then ZEROS else ZEROS[..8], 0, false));
      dce, ice := true, true;
    }

    /** The fill of iCacheSelect. When memory refuses a word, the words read so far stay in the
        line while its tag and valid bit keep their old values. */
    method FillLine(index: nat, tag: nat, base: nat, size: nat) returns (ok: bool, ghost done: nat)
      requires mem.Valid() && index < I.Length && |I[index].line| == size
      requires size % 4 == 0 && base % 4 == 0 && base + size <= 0x1_0000_0000
      modifies I
      ensures forall j | 0 <= j < I.Length && j != index :: I[j] == old(I[j])
      ensures ok <==> LineAccepted(mem.readFaults, base, size)
      ensures ok ==> I[index] == IEntry(mem.bytes[base..base + size], tag, true)
      ensures !ok ==> done < size && StopsAt(mem.readFaults, base, done)
      ensures !ok ==> I[index] == old(I[index]).(line := Store(old(I[index]).line, 0, mem.bytes[base..base + done]))
    {
      hide Store;
      ghost var was := I[index].line;
      StoreNothing(was);
      assert mem.bytes[base..base + 0] == [];
      var i := 0;
      while i < size
        invariant i <= size && i % 4 == 0
        invariant I[index] == old(I[index]).(line := Store(was, 0, mem.bytes[base..base + i]))
        invariant forall j | 0 <= j < I.Length && j != index :: I[j] == old(I[j])
        invariant LineAccepted(mem.readFaults, base, i)
      {
        var got, w := mem.Read(base + i);
        if !got {
          return false, i;
        }
        StoreAppend(was, 0, mem.bytes[base..base + i], w);
        WordAppended(mem.bytes, base, i);
        var line := Store(I[index].line, i, w);
        LineAcceptedNext(mem.readFaults, base, i);
        I[index] := I[index].(line := line);
        i := i + 4;
      }
      StoreAll(was, mem.bytes[base..base + size]);
      I[index] := I[index].(valid := true, tag := tag);
      return true, size;
    }

    /** iCacheRead: the aligned word around `addr`. A miss loads its line from memory, in place of
        whatever line had that index; nothing else a fetch could see changes. */
    method FetchWord(addr: uint32) returns (ok: bool, data: Word, ghost done: nat)
      requires Valid()
      modifies I
      ensures Valid()
      ensures var base := IBase(il, ir, ITag(il, addr), IIndex(il, ir, addr));
              && (ok <==> old(IHolds(il, ir, I[..], addr)) || LineAccepted(mem.readFaults, base, ISize(ir)))
              && (!ok ==> StopsAt(mem.readFaults, base, done))
      ensures !ok ==> !old(IHolds(il, ir, I[..], addr)) && done < ISize(ir)
                      && I[..] == PartlyFilled(il, ir, old(I[..]), mem.bytes, addr, done)
      ensures ok ==> data == FetchWordAt(il, ir, old(I[..]), mem.bytes, addr)
      ensures ok ==> IHolds(il, ir, I[..], addr)
      ensures ok && old(IHolds(il, ir, I[..], addr)) ==> I[..] == old(I[..])
      ensures ok && !old(IHolds(il, ir, I[..], addr)) ==>
                forall a: uint32 | IIndex(il, ir, a) == IIndex(il, ir, addr) ::
                  FetchByte(il, ir, I[..], mem.bytes, a) == mem.bytes[a]
      ensures forall j | 0 <= j < I.Length && j != IIndex(il, ir, addr) :: I[j] == old(I[j])
    {
      hide Pow2, Entries, IIndex, ITag, IBase, IOffset, ISize, WordOf, FetchByte, FetchWordAt, GetFieldValue,
           LineAccepted;
      var index, tag := IIndex(il, ir, addr), ITag(il, addr);
      data, done := [0, 0, 0, 0], 0;
      if I[index].tag != tag || !I[index].valid {
        ISizes(il, ir, tag, index);
        ghost var before := I[..];
        ok, done := FillLine(index, tag, IBase(il, ir, tag, index), ISize(ir));
        if !ok {
          assert I[..] == PartlyFilled(il, ir, before, mem.bytes, addr, done);
          return;
        }
        LoadedLine(il, ir, I[..], mem.bytes, index, tag);
        LoadedWord(il, ir, I[..], mem.bytes, addr);
        MissedWord(il, ir, old(I[..]), mem.bytes, addr);
      }
      var lindex := GetFieldValue(WordOf(addr), ir - 1, 0);
      OffsetField(ir, WordOf(addr));
      HeldWord(il, ir, I[..], mem.bytes, addr, index, addr - addr % 4, lindex);
      data := I[index].line[lindex..lindex + 4];
      ok := true;
    }

    /** cacheFlush: the line of `addr` leaves both caches, and the view stays. */
    method CacheFlush(addr: uint32, incr: uint32) returns (ok: bool, resultAddr: uint32)
      requires Valid()
      modifies dc.D, mem`bytes, I
      ensures Valid() && dc.View() == old(dc.View())
      ensures resultAddr == Wrap32(addr + incr)
      ensures ok <==> (dce ==> old(dc.CanFlush(addr)))
      ensures ok && dce ==> !dc.Cached(addr)
      ensures forall a: uint32 :: dc.Cached(a) ==> old(dc.Cached(a))
      ensures !dce ==> dc.D[..] == old(dc.D[..]) && mem.bytes == old(mem.bytes)
      ensures I[..] == if ok && ice then Invalidated(il, ir, old(I[..]), addr) else old(I[..])
    {
      resultAddr := Wrap32(addr + incr);
      if dce {
        ok := dc.FlushLine(addr);
        if !ok {
          return;
        }
      }
      if ice {
        var index := IIndex(il, ir, addr);
        I[index] := I[index].(valid := false);
      }
      ok := true;
    }

    /** cacheIndexFlush: with the data cache on, one way of one set is emptied, and so is one instruction line. */
    method CacheIndexFlush(addr: uint32, incr: uint32) returns (ok: bool, resultAddr: uint32)
      requires Valid()
      modifies dc.D, mem`bytes, I
      ensures Valid() && dc.View() == old(dc.View())
      ensures ok ==> resultAddr == Wrap32(addr + incr)
      ensures ok <==> (dce ==> old(dc.CanDrop(DIndex(dc.l, addr), if addr >= 0x8000_0000 then 1 else 0)))
      ensures ok && dce ==>
                var index, way := DIndex(dc.l, addr), if addr >= 0x8000_0000 then 1 else 0;
                dc.D[index] == Entry(old(dc.D[index].dSet)[way := old(dc.D[index].dSet[way]).(valid := false)], way)
      ensures dce ==> forall i | 0 <= i < dc.D.Length && i != DIndex(dc.l, addr) :: dc.D[i] == old(dc.D[i])
      ensures !dce ==> dc.D[..] == old(dc.D[..]) && mem.bytes == old(mem.bytes)
      ensures I[..] == if ok && dce then Invalidated(il, ir, old(I[..]), addr) else old(I[..])
      ensures mem.writeFaults == {} ==> ok
    {
      hide Pow2, Entries, DIndex, DTag, DBase, IIndex, ITag;
      resultAddr := 0;
      if dce {
        ok := dc.IndexFlushLine(addr);
        if !ok {
          return;
        }
        var index := IIndex(il, ir, addr);
        I[index] := I[index].(valid := false);
      }
      resultAddr := Wrap32(addr + incr);
      ok := true;
    }

    /** cacheInvalidate: drops the line of `addr` unsaved. */
    method CacheInvalidate(addr: uint32, incr: uint32) returns (resultAddr: uint32)
      requires Valid()
      modifies dc.D, I
      ensures Valid() && resultAddr == Wrap32(addr + incr)
      ensures dce ==> forall a: uint32 ::
                dc.View()[a] == if InLine(dc.l, DTag(dc.l, addr), DIndex(dc.l, addr), a) then mem.bytes[a]
                                else old(dc.View())[a]
      ensures !dce ==> dc.D[..] == old(dc.D[..])
      ensures ice ==> !IHolds(il, ir, I[..], addr)
      ensures forall j | 0 <= j < I.Length && (j != IIndex(il, ir, addr) || !ice) :: I[j] == old(I[j])
    {
      hide Pow2, Entries, DIndex, DTag, DBase, IIndex, ITag;
      resultAddr := Wrap32(addr + incr);
      if dce {
        dc.InvalidateLine(addr);
      }
      if ice {
        var index := IIndex(il, ir, addr);
        Pow2Le(0, 31 - il);
        I[index] := I[index].(valid := false);
        I[index] := I[index].(tag := 0);
      }
    }
  }

  /** A fill that stops after `done` bytes (StopsAt says where it does) goes unseen exactly if the entry was invalid, or
      those bytes are the ones its line, which is still marked as held, begins with. */
  lemma RefusedFillUnseenIff(il: nat, ir: nat, I: seq<IEntry>, m: seq<byte>, addr: uint32, done: nat)
    requires IShape(il, ir, I) && |m| == 0x1_0000_0000 && done <= ISize(ir) && !IHolds(il, ir, I, addr)
    ensures IShape(il, ir, PartlyFilled(il, ir, I, m, addr, done))
    ensures (forall a: uint32 ::
               FetchByte(il, ir, PartlyFilled(il, ir, I, m, addr, done), m, a) == FetchByte(il, ir, I, m, a))
            <==> var e, base := I[IIndex(il, ir, addr)], IBase(il, ir, ITag(il, addr), IIndex(il, ir, addr));
                 e.valid ==> e.line[..done] == m[base..base + done]
  {
    hide Pow2, Entries, IIndex, ITag, IBase, IOffset, Store;
    var index := IIndex(il, ir, addr);
    var e, I' := I[index], PartlyFilled(il, ir, I, m, addr, done);
    var base := IBase(il, ir, ITag(il, addr), index);
    PrefixStoredIff(e.line, m[base..base + done]);
    if e.valid && I'[index].line != e.line {
      var k :| 0 <= k < ISize(ir) && I'[index].line[k] != e.line[k];
      var a := IBase(il, ir, e.tag, index) + k;
      ILineOffset(il, ir, e.tag, index, a);
      assert FetchByte(il, ir, I', m, a) != FetchByte(il, ir, I, m, a);
    }
  }

  function Repeated(n: nat, b: byte): seq<byte> {
    seq(n, _ => b)
  }

  /** An instruction cache that holds zeros from the lines with tag 0. */
  function HoldsZeros(il: nat, ir: nat): seq<IEntry>
    requires IGeometry(il, ir)
  {
    seq(Entries(il, ir), _ => IEntry(Repeated(ISize(ir), 0), 0, true))
  }

  /** A fetch from the first line of tag 1, out of a memory of ones that refuses the second word: the
      line of address 0 is still held, and now begins with ones. */
  lemma RefusedFillIsSeen(il: nat, ir: nat)
    requires IGeometry(il, ir)
    ensures var I, m := HoldsZeros(il, ir), Repeated(0x1_0000_0000, 1);
            && IShape(il, ir, I) && 1 < Pow2(31 - il)
            && var addr := IBase(il, ir, 1, 0);
            && !IHolds(il, ir, I, addr)
            && IShape(il, ir, PartlyFilled(il, ir, I, m, addr, 4))
            && FetchByte(il, ir, I, m, 0) == 0
            && FetchByte(il, ir, PartlyFilled(il, ir, I, m, addr, 4), m, 0) == 1
  {
    var I, m := HoldsZeros(il, ir), Repeated(0x1_0000_0000, 1);
    Pow2Le(1, 31 - il);
    assert Pow2(1) == 2;
    hide Pow2, Entries, IIndex, ITag, IBase, IOffset;
    EntriesPositive(il, ir);
    var addr := IBase(il, ir, 1, 0);
    ILineOffset(il, ir, 1, 0, addr);
    ILineOffset(il, ir, 0, 0, 0);
    FirstBase(il, ir);
    var I' := PartlyFilled(il, ir, I, m, addr, 4);
    assert I'[0].line[0] == m[addr];
  }

  lemma EntriesPositive(il: nat, ir: nat)
    requires IGeometry(il, ir)
    ensures Entries(il, ir) > 0
  {
    Pow2Le(0, il - ir + 1);
  }

  lemma FirstBase(il: nat, ir: nat)
    requires IGeometry(il, ir)
    ensures 0 < Pow2(31 - il) && 0 < Entries(il, ir) && IBase(il, ir, 0, 0) == 0 == IOffset(ir, 0)
  {
    Pow2Le(0, 31 - il);
    EntriesPositive(il, ir);
    LineBaseSum(il, ir, 0, 0);
  }

  lemma PrefixStoredIff(line: seq<byte>, data: seq<byte>)
    requires |data| <= |line|
    ensures Store(line, 0, data) == line <==> line[..|data|] == data
  {
    assert Store(line, 0, data)[..|data|] == data;
    assert line == line[..|data|] + line[|data|..];
  }

  lemma ISizes(il: nat, ir: nat, tag: nat, index: nat)
    requires IGeometry(il, ir) && tag < Pow2(31 - il) && index < Entries(il, ir)
    ensures ISize(ir) % 4 == 0 && IBase(il, ir, tag, index) % 4 == 0
  {
    hide Pow2, Entries, IBase;
  }

  /** A word out of a line that was just loaded is the memory word. */
  lemma LoadedWord(il: nat, ir: nat, I: seq<IEntry>, m: seq<byte>, addr: uint32)
    requires IShape(il, ir, I) && |m| == 0x1_0000_0000
    requires forall a: uint32 | IIndex(il, ir, a) == IIndex(il, ir, addr) :: FetchByte(il, ir, I, m, a) == m[a]
    ensures FetchWordAt(il, ir, I, m, addr) == WordAt(m, addr)
  {
    hide Pow2, Entries, IIndex, ITag, IBase, IOffset, FetchByte;
    SameIWord(il, ir, addr);
  }

  lemma OffsetField(ir: nat, addr: uint32)
    requires 3 <= ir <= 4
    ensures GetFieldValue(addr, ir - 1, 0) == IOffset(ir, addr)
  {
    hide GetFieldValue, Pow2;
    FieldIsDivMod(addr, ir - 1, 0);
    Pow2Values();
  }

  /** A line just loaded delivers memory. */
  lemma LoadedLine(il: nat, ir: nat, I: seq<IEntry>, m: seq<byte>, index: nat, tag: nat)
    requires IShape(il, ir, I) && |m| == 0x1_0000_0000 && index < |I| && tag < Pow2(31 - il)
    requires var base := IBase(il, ir, tag, index); I[index] == IEntry(m[base..base + ISize(ir)], tag, true)
    ensures forall a: uint32 | IIndex(il, ir, a) == index :: FetchByte(il, ir, I, m, a) == m[a]
  {
    hide Pow2, Entries, IIndex, ITag, IBase;
    forall a: uint32 | IIndex(il, ir, a) == index
      ensures FetchByte(il, ir, I, m, a) == m[a]
    {
      ILineOffset(il, ir, tag, index, a);
    }
  }

  lemma WordInBlock8(base: nat, a: nat, b: nat)
    requires base % 8 == 0 && base <= a < base + 8 && a / 4 == b / 4
    ensures base <= b < base + 8 && b % 8 == a % 8 + b - a
  {
    assert a / 8 == a / 4 / 2 == b / 4 / 2 == b / 8 == base / 8;
  }

  lemma WordInBlock16(base: nat, a: nat, b: nat)
    requires base % 16 == 0 && base <= a < base + 16 && a / 4 == b / 4
    ensures base <= b < base + 16 && b % 16 == a % 16 + b - a
  {
    assert a / 16 == a / 4 / 4 == b / 4 / 4 == b / 16 == base / 16;
  }

  /** A word never straddles two instruction lines. */
  lemma SameILine(il: nat, ir: nat, a: uint32, b: uint32)
    requires IGeometry(il, ir) && a / 4 == b / 4
    ensures IIndex(il, ir, b) == IIndex(il, ir, a) && ITag(il, b) == ITag(il, a)
    ensures IOffset(ir, b) == IOffset(ir, a) + b - a
  {
    hide Pow2, Entries, IIndex, ITag, IBase;
    var tag, index := ITag(il, a), IIndex(il, ir, a);
    ILineOffset(il, ir, tag, index, a);
    ILineOffset(il, ir, tag, index, b);
    if ir == 3 {
      WordInBlock8(IBase(il, ir, tag, index), a, b);
    } else {
      WordInBlock16(IBase(il, ir, tag, index), a, b);
    }
  }

  lemma SameIWord(il: nat, ir: nat, addr: uint32)
    requires IGeometry(il, ir)
    ensures var a := addr - addr % 4;
            IOffset(ir, a) + 4 <= ISize(ir) &&
            forall b: uint32 | a <= b < a + 4 ::
              && IIndex(il, ir, b) == IIndex(il, ir, addr) && ITag(il, b) == ITag(il, addr)
              && IOffset(ir, b) == IOffset(ir, a) + b - a
  {
    hide Pow2, Entries, IIndex, ITag;
    var a := addr - addr % 4;
    SameILine(il, ir, a, a + 3);
    forall b: uint32 | a <= b < a + 4
      ensures IIndex(il, ir, b) == IIndex(il, ir, addr) && ITag(il, b) == ITag(il, addr)
      ensures IOffset(ir, b) == IOffset(ir, a) + b - a
    {
      SameILine(il, ir, addr, b);
      SameILine(il, ir, a, b);
    }
  }

  /** The word cut out of a held line is the word a fetch delivers. */
  lemma HeldWord(il: nat, ir: nat, I: seq<IEntry>, m: seq<byte>, addr: uint32, index: nat, a: nat, o: nat)
    requires IShape(il, ir, I) && |m| == 0x1_0000_0000 && IHolds(il, ir, I, addr)
    requires index == IIndex(il, ir, addr) && index < |I| && a == addr - addr % 4 && o == IOffset(ir, a)
    ensures o + 4 <= |I[index].line| && FetchWordAt(il, ir, I, m, addr) == I[index].line[o..o + 4]
  {
    hide Pow2, Entries, IIndex, ITag, IBase, IOffset;
    SameIWord(il, ir, addr);
    var line := I[index].line;
    assert FetchByte(il, ir, I, m, a) == line[o] && FetchByte(il, ir, I, m, a + 1) == line[o + 1];
    assert FetchByte(il, ir, I, m, a + 2) == line[o + 2] && FetchByte(il, ir, I, m, a + 3) == line[o + 3];
  }

  /** Without the line, a fetch delivers the memory word. */
  lemma MissedWord(il: nat, ir: nat, I: seq<IEntry>, m: seq<byte>, addr: uint32)
    requires IShape(il, ir, I) && |m| == 0x1_0000_0000 && !IHolds(il, ir, I, addr)
    ensures FetchWordAt(il, ir, I, m, addr) == WordAt(m, addr)
  {
    hide Pow2, Entries, IIndex, ITag, IBase, IOffset;
    SameIWord(il, ir, addr);
  }
}
