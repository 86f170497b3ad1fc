/** The debugger's memory accesses, which have to agree with what data reads and
    instruction fetches see. */
module GdbInterface {
  import opened Bits
  import opened AddressFields
  import opened CommonMemory
  import opened CacheState
  import opened DataCacheModel
  import opened CacheSystemModel

  /** A byte of a flat memory, out of the aligned word around it. */
  lemma ByteOfWord(v: seq<byte>, a: uint32)
    requires |v| == 0x1_0000_0000
    ensures WordOf(a) % 4 == 0 && WordAt(v, WordOf(a))[a % 4] == v[a]
  {
    hide WordOf;
  }

  /** sim_read: byte by byte through the non-intrusive read of the data cache. */
  method SimRead(sys: CacheSystem, addr: uint32, length: nat) returns (buf: seq<byte>)
    requires sys.Valid() && sys.dce && addr + length <= 0x1_0000_0000
    ensures buf == sys.dc.View()[addr..addr + length]
  {
    hide Pow2, Entries, DIndex, DTag, DBase, WordOf, WordAt;
    ghost var v := sys.dc.View();
    buf := [];
    var i := 0;
    while i < length
      invariant i <= length && buf == v[addr..addr + i]
    {
      ByteOfWord(v, addr + i);
      var word := sys.dc.DebugRead(WordOf(addr + i));
      buf := buf + [word[(addr + i) % 4]];
      i := i + 1;
    }
  }

  /** The word around a byte, with that byte replaced, stored back: the byte alone changes. */
  lemma PatchedWord(v: seq<byte>, a: uint32, b: byte)
    requires |v| == 0x1_0000_0000
    ensures WordOf(a) % 4 == 0
    ensures StoreWord(v, WordOf(a), WordAt(v, WordOf(a))[a % 4 := b]) == Store(v, a, [b])
  {
    hide WordOf;
  }

  /** One round of sim_write. */
  method WriteByte(sys: CacheSystem, a: uint32, b: byte)
    requires sys.Valid() && sys.dce && sys.ice
    requires sys.mem.readFaults == {} == sys.mem.writeFaults
    modifies sys.dc.D, sys.mem`bytes, sys.I
    ensures sys.Valid()
    ensures sys.dc.View() == Store(old(sys.dc.View()), a, [b])
    ensures !sys.dc.Cached(a) && !IHolds(sys.il, sys.ir, sys.I[..], a)
    ensures forall c: uint32 :: sys.dc.Cached(c) ==> old(sys.dc.Cached(c))
    ensures forall c: uint32 :: IHolds(sys.il, sys.ir, sys.I[..], c) ==> old(IHolds(sys.il, sys.ir, sys.I[..], c))
    ensures forall j | 0 <= j < sys.I.Length :: sys.I[j] == old(sys.I[j]) || sys.I[j] == old(sys.I[j]).(valid := false)
  {
    hide Pow2, Entries, DIndex, DTag, DBase, IIndex, ITag, IBase, Store, WordOf, WordAt, StoreWord, Wrap32;
    var waddr := WordOf(a);
    PatchedWord(sys.dc.View(), a, b);
    var fullWord := sys.dc.DebugRead(waddr);
    fullWord := fullWord[a % 4 := b];
    InvalidatedHolds(sys.il, sys.ir, sys.I[..], waddr);
    var ok, waddr' := sys.CacheFlush(waddr, 0);
    WrapNothing(waddr);
    SameLine(sys.dc.l, a);
    SameILine(sys.il, sys.ir, waddr, a);
    NonCachedStore(sys, waddr', fullWord);
  }

  lemma WrapNothing(a: uint32)
    ensures Wrap32(a + 0) == a
  {
  }

  lemma InvalidatedHolds(il: nat, ir: nat, I: seq<IEntry>, addr: uint32)
    requires IShape(il, ir, I)
    ensures var I' := Invalidated(il, ir, I, addr);
            && IShape(il, ir, I')
            && (forall c: uint32 :: IHolds(il, ir, I', c) ==> IHolds(il, ir, I, c))
            && (forall c: uint32 | IIndex(il, ir, c) == IIndex(il, ir, addr) :: !IHolds(il, ir, I', c))
  {
    hide Pow2, Entries, IIndex, ITag, IBase;
  }

  /** A non-cacheable word store (access type N): straight to memory, past both caches. */
  method NonCachedStore(sys: CacheSystem, addr: uint32, data: Word)
    requires sys.Valid() && addr % 4 == 0 && sys.mem.writeFaults == {}
    requires !sys.dc.Cached(addr)
    modifies sys.mem`bytes
    ensures sys.Valid() && sys.dc.View() == StoreWord(old(sys.dc.View()), addr, data)
    ensures sys.mem.bytes == StoreWord(old(sys.mem.bytes), addr, data)
    ensures forall c: uint32 :: sys.dc.Cached(c) <==> old(sys.dc.Cached(c))
  {
    hide Pow2, Entries, DIndex, DTag, DBase, Store;
    MissStore(sys.dc.l, sys.dc.D[..], sys.mem.bytes, addr, data);
    ghost var D0 := sys.dc.D[..];
    var written := sys.mem.Write(addr, data);
    assert sys.dc.D[..] == D0;
  }

  /** sim_write: every byte flushes its line from both caches and then goes straight to memory.
      Afterwards the data view has changed in exactly those bytes and instruction fetch sees them. */
  method SimWrite(sys: CacheSystem, addr: uint32, buf: seq<byte>)
    requires sys.Valid() && sys.dce && sys.ice && addr + |buf| <= 0x1_0000_0000
    requires sys.mem.readFaults == {} == sys.mem.writeFaults
    modifies sys.dc.D, sys.mem`bytes, sys.I
    ensures sys.Valid()
    ensures sys.dc.View() == Store(old(sys.dc.View()), addr, buf)
    ensures forall a: uint32 | addr <= a < addr + |buf| ::
              FetchByte(sys.il, sys.ir, sys.I[..], sys.mem.bytes, a) == buf[a - addr] == sys.mem.bytes[a]
    ensures forall j | 0 <= j < sys.I.Length :: sys.I[j] == old(sys.I[j]) || sys.I[j] == old(sys.I[j]).(valid := false)
  {
    hide Pow2, Entries, DIndex, DTag, DBase, IIndex, ITag, IBase, Store;
    ghost var v0 := sys.dc.View();
    var i := 0;
    assert Store(v0, addr, buf[..0]) == v0;
    while i < |buf|
      invariant i <= |buf| && sys.Valid()
      invariant sys.dc.View() == Store(v0, addr, buf[..i])
      invariant forall a: uint32 | addr <= a < addr + i :: !sys.dc.Cached(a) && !IHolds(sys.il, sys.ir, sys.I[..], a)
      invariant forall j | 0 <= j < sys.I.Length ::
                sys.I[j] == old(sys.I[j]) || sys.I[j] == old(sys.I[j]).(valid := false)
    {
      WriteByte(sys, addr + i, buf[i]);
      StoreAppend(v0, addr, buf[..i], [buf[i]]);
      assert buf[..i + 1] == buf[..i] + [buf[i]];
      i := i + 1;
    }
    assert buf[..i] == buf;
    forall a: uint32 | addr <= a < addr + |buf|
      ensures FetchByte(sys.il, sys.ir, sys.I[..], sys.mem.bytes, a) == buf[a - addr] == sys.mem.bytes[a]
    {
      assert !sys.dc.Cached(a);
      assert sys.dc.View()[a] == ByteAt(sys.dc.l, sys.dc.D[..], sys.mem.bytes, a);
    }
  }

  /** After a debugger write, its own read, a data load and an instruction fetch at any written
      address deliver the new bytes. */
  method WriteThenRead(sys: CacheSystem, addr: uint32, buf: seq<byte>, a: uint32)
    returns (seen: seq<byte>, loaded: byte, fetched: byte)
    requires sys.Valid() && sys.dce && sys.ice && addr + |buf| <= 0x1_0000_0000
    requires sys.mem.readFaults == {} == sys.mem.writeFaults
    requires addr <= a < addr + |buf|
    modifies sys.dc.D, sys.mem`bytes, sys.I
    ensures sys.Valid() && sys.dc.View() == Store(old(sys.dc.View()), addr, buf)
    ensures seen == buf && loaded == fetched == buf[a - addr]
  {
    hide Pow2, Entries, DIndex, DTag, DBase, IIndex, ITag, IBase, WordOf, WordAt, FetchByte, ViewOf;
    SimWrite(sys, addr, buf);
    seen := SimRead(sys, addr, |buf|);
    assert seen == buf;
    FetchedByte(sys.il, sys.ir, sys.I[..], sys.mem.bytes, a);
    var ok, word, done := sys.FetchWord(a);
    fetched := word[a % 4];
    ByteInWord(sys.dc.View(), a);
    ok, word := sys.dc.Read(a);
    loaded := word[a % 4];
  }

  lemma ByteInWord(v: seq<byte>, a: uint32)
    requires |v| == 0x1_0000_0000
    ensures WordAt(v, a)[a % 4] == v[a]
  {
  }

  lemma FetchedByte(il: nat, ir: nat, I: seq<IEntry>, m: seq<byte>, a: uint32)
    requires IShape(il, ir, I) && |m| == 0x1_0000_0000
    ensures FetchWordAt(il, ir, I, m, a)[a % 4] == FetchByte(il, ir, I, m, a)
  {
    hide FetchByte, IShape;
  }
}
