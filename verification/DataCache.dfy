/** The two-way, write-back, write-allocate data cache in front of a memory whose
    words may refuse accesses. Every operation is specified on the flat view. */
module DataCacheModel {
  import opened Bits
  import opened AddressFields
  import opened CommonMemory
  import opened CacheState

  /** What a store instruction leaves in memory: `size` 0, 1, 2 is byte, short, word,
      and the data sit at the low-order end of the (big-endian) word. */
  function StoredBytes(data: Word, size: nat): seq<byte>
    requires size <= 2
  {
    if size == 0 then data[3..] else if size == 1 then data[2..] else data
  }

  lemma StoredLength(data: Word, size: nat)
    requires size <= 2
    ensures |StoredBytes(data, size)| == if size == 0 then 1 else if size == 1 then 2 else 4
  {
  }

  /** The low-order end of the data is what a byte or short store leaves. */
  lemma StoredSpelledOut(v: seq<byte>, addr: uint32, data: Word, size: nat)
    requires |v| == 0x1_0000_0000 && size <= 2 && addr + |StoredBytes(data, size)| <= |v|
    ensures var v' := Store(v, addr, StoredBytes(data, size));
            && (size == 0 ==> v'[addr] == data[3] && forall a: uint32 | a != addr :: v'[a] == v[a])
            && (size == 1 ==> addr + 1 < 0x1_0000_0000 && v'[addr] == data[2] && v'[addr + 1] == data[3]
                              && forall a: uint32 | a != addr && a != addr + 1 :: v'[a] == v[a])
            && (size == 2 ==> addr + 3 < 0x1_0000_0000 && v'[addr] == data[0] && v'[addr + 1] == data[1]
                              && v'[addr + 2] == data[2] && v'[addr + 3] == data[3]
                              && forall a: uint32 | a < addr || a > addr + 3 :: v'[a] == v[a])
  {
    hide Store;
  }

  /** The aligned word of a flat memory that contains `addr`. */
  function WordAt(v: seq<byte>, addr: uint32): Word
    requires |v| == 0x1_0000_0000
  {
    v[addr - addr % 4..addr - addr % 4 + 4]
  }

  function StoreWord(v: seq<byte>, addr: uint32, data: Word): seq<byte>
    requires |v| == 0x1_0000_0000 && addr % 4 == 0
  {
    Store(v, addr, data)
  }

  /** `v` with the whole 16-byte line of `addr` replaced. */
  function StoreLine(v: seq<byte>, addr: uint32, line: seq<byte>): seq<byte>
    requires |v| == 0x1_0000_0000 && |line| == 16
  {
    Store(v, addr - addr % 16, line)
  }

  function SetWay(e: Entry, way: nat, w: Way): Entry
    requires way < |e.dSet|
  {
    e.(dSet := e.dSet[way := w])
  }

  /** `e` after the first words of a line have been read into a way. */
  function Loaded(e: Entry, way: nat, data: seq<byte>): Entry
    requires way < |e.dSet| && |data| <= |e.dSet[way].line|
  {
    SetWay(e, way, e.dSet[way].(line := Store(e.dSet[way].line, 0, data)))
  }

  /** A cache that differs from `D` in one way of one set, spelled out. */
  lemma SetOnly(D: seq<Entry>, D': seq<Entry>, index: nat, way: nat)
    requires index < |D| == |D'| && way < 2 == |D[index].dSet| == |D'[index].dSet|
    requires forall i | 0 <= i < |D| && i != index :: D'[i] == D[i]
    requires D'[index].dSet[1 - way] == D[index].dSet[1 - way]
    ensures D' == D[index := Entry(D[index].dSet[way := D'[index].dSet[way]], D'[index].lru)]
  {
    assert D'[index].dSet == D[index].dSet[way := D'[index].dSet[way]];
  }

  class DataCache {
    const l: nat        // DINDEX_L
    const mem: Memory
    const D: array<Entry>

    ghost predicate Valid()
      reads this, D, mem
    {
      Inv(l, D[..], mem.bytes)
    }

    /** The flat memory the program sees. */
    ghost function View(): (v: seq<byte>)
      reads this, D, mem
      requires Valid()
      ensures |v| == 0x1_0000_0000
    {
      ViewOf(l, D[..], mem.bytes)
    }

    /** dcacheInit for the encoded sizes 1 (1K) to 5 (16K). */
    constructor (dSize: nat, mem: Memory)
      requires 1 <= dSize <= 5 && mem.Valid()
      ensures Valid() && this.mem == mem && fresh(D)
      ensures View() == mem.bytes
      ensures D.Length == Pow2(dSize + 4)
    {
      l := 7 + dSize;
      this.mem := mem;
      D := new Entry[Pow2(5 + dSize) / 2](_ => EMPTY_ENTRY);
      new;
      EmptyCache(l, D[..], mem.bytes);
    }

    /** The way of a set that holds `tag`, if any, way 0 looked up first. */
    method LookUp(index: nat, tag: nat) returns (hit: bool, way: nat)
      requires Valid() && index < D.Length
      ensures way < 2
      ensures hit ==> Hit(D[index], way, tag)
      ensures !hit ==> way == D[index].lru && !Hit(D[index], 0, tag) && !Hit(D[index], 1, tag)
    {
      var e := D[index];
      if e.dSet[0].valid && e.dSet[0].tag == tag {
        hit, way := true, 0;
      } else if e.dSet[1].valid && e.dSet[1].tag == tag {
        hit, way := true, 1;
      } else {
        hit, way := false, e.lru;
      }
    }

    /** Copy a dirty line to memory; a refused word stops the copy. The view never changes. */
    method WriteBack(index: nat, way: nat) returns (ok: bool)
      requires Valid() && index < D.Length && way < 2
      requires D[index].dSet[way].valid && D[index].dSet[way].dirty
      modifies mem`bytes
      ensures Valid() && View() == old(View())
      ensures var base := DBase(l, D[index].dSet[way].tag, index);
              && (ok <==> LineAccepted(mem.writeFaults, base, 16))
              && (ok ==> mem.bytes == Store(old(mem.bytes), base, D[index].dSet[way].line))
    {
      hide DIndex, DTag, DBase, Store, Pow2, Entries, ViewOf, LineAccepted;
      var w := D[index].dSet[way];
      ghost var done;
      ok, done := mem.WriteLine(DBase(l, w.tag, index), w.line);
      StoreOwnLine(l, D[..], old(mem.bytes), index, way, done);
      assert done == 16 ==> w.line[..done] == w.line;
    }

    /** Read the words of a line straight into a way; a refused word stops the transfer. */
    method LoadWords(index: nat, way: nat, base: int) returns (ok: bool, ghost done: nat)
      requires mem.Valid() && base % 4 == 0 && 0 <= base && base + 16 <= 0x1_0000_0000
      requires index < D.Length && way < |D[index].dSet| && |D[index].dSet[way].line| == 16
      modifies D
      ensures done <= 16
      ensures D[index] == Loaded(old(D[index]), way, mem.bytes[base..base + done])
      ensures forall i | 0 <= i < D.Length && i != index :: D[i] == old(D[i])
      ensures ok <==> LineAccepted(mem.readFaults, base, 16)
      ensures ok ==> D[index].dSet[way].line == mem.bytes[base..base + 16]
      ensures !ok ==> done < 16 && StopsAt(mem.readFaults, base, done)
    {
      hide Store;
      ghost var was := D[index].dSet[way].line;
      StoreNothing(was);
      assert mem.bytes[base..base + 0] == [];
      var i := 0;
      while i < 16
        invariant i <= 16 && i % 4 == 0
        invariant D[index] == Loaded(old(D[index]), way, mem.bytes[base..base + i])
        invariant forall i | 0 <= i < D.Length && i != index :: D[i] == old(D[i])
        invariant LineAccepted(mem.readFaults, base, i)
      {
        var got, data := mem.Read(base + i);
        if !got {
          return false, i;
        }
        StoreAppend(was, 0, mem.bytes[base..base + i], data);
        WordAppended(mem.bytes, base, i);
        var line := Store(D[index].dSet[way].line, i, data);
        LineAcceptedNext(mem.readFaults, base, i);
        D[index] := SetWay(D[index], way, D[index].dSet[way].(line := line));
        i := i + 4;
      }
      StoreAll(was, mem.bytes[base..base + 16]);
      return true, i;
    }

    /** Read the line `tag` into a way that holds nothing unsaved; a refused word leaves the way invalid. */
    method Fill(index: nat, way: nat, tag: nat) returns (ok: bool)
      requires Valid() && index < D.Length && way < 2 && tag < Pow2(31 - l)
      requires !Hit(D[index], 0, tag) && !Hit(D[index], 1, tag)
      requires D[index].dSet[way].valid ==> !D[index].dSet[way].dirty
      modifies D
      ensures Valid() && View() == old(View())
      ensures ok <==> LineAccepted(mem.readFaults, DBase(l, tag, index), 16)
      ensures forall i | 0 <= i < D.Length && i != index :: D[i] == old(D[i])
      ensures D[index].dSet[1 - way] == old(D[index].dSet[1 - way])
      ensures ok ==> Hit(D[index], way, tag) && !D[index].dSet[way].dirty && D[index].lru == 1 - way
      ensures !ok ==> !D[index].dSet[way].valid && D[index].lru == old(D[index].lru)
    {
      hide DIndex, DTag, DBase, ViewOf, LineAccepted;
      ghost var D0 := D[..];
      D[index] := SetWay(D[index], way, D[index].dSet[way].(tag := tag));
      ghost var done;
      ok, done := LoadWords(index, way, DBase(l, tag, index));
      var e, w := D[index], D[index].dSet[way];
      D[index] := if ok then Entry(e.dSet[way := w.(valid := true, dirty := false)], if way == 0 then 1 else 0)
                  else SetWay(e, way, w.(valid := false));
      ReplaceBackedWay(l, D0, mem.bytes, index, way, D[index].dSet[way], D[index].lru);
      SetOnly(D0, D[..], index, way);
    }

    /** Whether some way holds the line of `addr`. */
    ghost predicate Cached(addr: uint32)
      reads this, D, mem
      requires Valid()
    {
      var e := D[DIndex(l, addr)];
      Hit(e, 0, DTag(l, addr)) || Hit(e, 1, DTag(l, addr))
    }

    /** Whether dCacheSelect can bring in the line of `addr` without a refused access. */
    ghost predicate CanSelect(addr: uint32)
      reads this, D, mem
      requires Valid()
    {
      var index, tag := DIndex(l, addr), DTag(l, addr);
      var victim := D[index].dSet[D[index].lru];
      Cached(addr)
      || ((victim.valid && victim.dirty ==> LineAccepted(mem.writeFaults, DBase(l, victim.tag, index), 16))
          && LineAccepted(mem.readFaults, DBase(l, tag, index), 16))
    }

    /** dCacheSelect: find or load the line of `addr`. Whatever memory refuses, the view stays. */
    method Select(addr: uint32) returns (ok: bool, index: nat, way: nat)
      requires Valid()
      modifies D, mem`bytes
      ensures Valid() && View() == old(View())
      ensures ok == old(CanSelect(addr))
      ensures index == DIndex(l, addr) && index < D.Length && way < 2
      ensures ok ==> Hit(D[index], way, DTag(l, addr))
      ensures forall i | 0 <= i < D.Length && i != index :: D[i] == old(D[i])
      ensures old(Cached(addr)) ==> D[index] == old(D[index]) && mem.bytes == old(mem.bytes)
    {
      hide DIndex, DTag, DBase, LineIndex, WordOf, Store;
      index := DIndex(l, addr);
      var tag := DTag(l, addr);
      var hit;
      hit, way := LookUp(index, tag);
      var w := D[index].dSet[way];
      if tag != w.tag && w.valid && w.dirty {
        ok := WriteBack(index, way);
        if !ok {
          return;
        }
        ghost var D0 := D[..];
        D[index] := SetWay(D[index], way, w.(valid := false, dirty := true));
        BackedLine(mem.bytes, l, w, index, old(mem.bytes));
        ReplaceBackedWay(l, D0, mem.bytes, index, way, D[index].dSet[way], D[index].lru);
        SetOnly(D0, D[..], index, way);
      }
      if tag != D[index].dSet[way].tag || !D[index].dSet[way].valid {
        ok := Fill(index, way, tag);
      } else {
        ok := true;
      }
    }

    /** dCacheRead: the word of the view that contains `addr`. A hit changes nothing at all. */
    method Read(addr: uint32) returns (ok: bool, data: Word)
      requires Valid()
      modifies D, mem`bytes
      ensures Valid() && View() == old(View())
      ensures ok == old(CanSelect(addr))
      ensures ok ==> data == WordAt(View(), addr)
    {
      hide DIndex, DTag, DBase, LineIndex, WordOf, Store;
      var index, way;
      ok, index, way := Select(addr);
      data := [0, 0, 0, 0];
      if ok {
        var waddr := WordOf(addr);
        var lindex := LineIndex(waddr);
        LineIndexIsOffset(waddr);
        SameLine(l, addr);
        HitView(l, D[..], mem.bytes, way, waddr, 4);
        data := D[index].dSet[way].line[lindex..lindex + 4];
      }
    }

    /** dCacheWrite: a store of one, two or four bytes. A store that crosses the word it starts in
        is reported as misaligned by the source and performed all the same; it has to stay in the line. */
    method Write(addr: uint32, data: Word, size: nat) returns (ok: bool)
      requires Valid()
      requires size == 1 ==> addr % 16 <= 14
      requires size == 2 ==> addr % 16 <= 12
      modifies D, mem`bytes
      ensures Valid()
      ensures ok <==> size <= 2 && old(CanSelect(addr))
      ensures ok && size == 0 ==>
                View()[addr] == data[3] && forall a: uint32 | a != addr :: View()[a] == old(View())[a]
      ensures ok && size == 1 ==>
                && addr + 1 < 0x1_0000_0000 && View()[addr] == data[2] && View()[addr + 1] == data[3]
                && forall a: uint32 | a != addr && a != addr + 1 :: View()[a] == old(View())[a]
      ensures ok && size == 2 ==>
                && addr + 3 < 0x1_0000_0000 && View()[addr] == data[0] && View()[addr + 1] == data[1]
                && View()[addr + 2] == data[2] && View()[addr + 3] == data[3]
                && forall a: uint32 | a < addr || a > addr + 3 :: View()[a] == old(View())[a]
      ensures ok ==> addr + |StoredBytes(data, size)| <= 0x1_0000_0000
      ensures View() == if ok then Store(old(View()), addr, StoredBytes(data, size)) else old(View())
      ensures ok ==> var e := D[DIndex(l, addr)];
                     Hit(e, 1 - e.lru, DTag(l, addr)) && e.dSet[1 - e.lru].dirty
    {
      hide DIndex, DTag, DBase, LineIndex, WordOf, Store, StoredBytes;
      var index, way;
      ok, index, way := Select(addr);
      if ok {
        if size > 2 {
          return false;
        }
        StoredLength(data, size);
        StoreIntoLine(addr, index, way, StoredBytes(data, size));
        StoredSpelledOut(old(View()), addr, data, size);
      }
    }

    /** The byte copy at the end of both store operations, into the way that holds the line. */
    method StoreIntoLine(addr: uint32, index: nat, way: nat, bytes: seq<byte>)
      requires Valid() && index == DIndex(l, addr) && index < D.Length && way < 2
      requires Hit(D[index], way, DTag(l, addr)) && addr % 16 + |bytes| <= 16
      modifies D
      ensures Valid() && addr + |bytes| <= 0x1_0000_0000
      ensures View() == Store(old(View()), addr, bytes)
      ensures D[index].lru == 1 - way && Hit(D[index], way, DTag(l, addr)) && D[index].dSet[way].dirty
      ensures forall i | 0 <= i < D.Length && i != index :: D[i] == old(D[i])
    {
      hide DIndex, DTag, DBase, LineIndex, WordOf, Store, Pow2, Entries, ViewOf;
      ghost var D0 := D[..];
      var w := D[index].dSet[way];
      var lindex := LineIndex(WordOf(addr));
      OffsetInLine(addr);
      WriteHit(l, D[..], mem.bytes, way, addr, bytes, 1 - way);
      var w' := w.(line := Store(w.line, lindex + addr % 4, bytes), dirty := true);
      D[index] := Entry(D[index].dSet[way := w'], if way == 0 then 1 else 0);
      assert D[..] == D0[index := D[index]];
    }

    /** dCacheNAWrite, for the word stores its only caller issues: a hit is written in place,
        a miss goes to memory and loads nothing. */
    method NAWrite(addr: uint32, data: Word) returns (ok: bool)
      requires Valid() && addr % 4 == 0
      modifies D, mem`bytes
      ensures Valid()
      ensures old(Cached(addr)) ==> ok && mem.bytes == old(mem.bytes)
      ensures !old(Cached(addr)) ==> (ok <==> addr !in mem.writeFaults) && D[..] == old(D[..])
      ensures View() == if ok then StoreWord(old(View()), addr, data) else old(View())
    {
      hide DIndex, DTag, DBase, LineIndex, WordOf, Store;
      var index, tag := DIndex(l, addr), DTag(l, addr);
      var hit, way := LookUp(index, tag);
      if !hit {
        MissStore(l, D[..], mem.bytes, addr, data);
        ghost var D0 := D[..];
        ok := mem.Write(addr, data);
        assert D[..] == D0;
      } else {
        StoreIntoLine(addr, index, way, data);
        ok := true;
      }
    }

    /** dCacheZeroLine: the whole line of `addr` reads as zero, written back or not. */
    method ZeroLine(addr: uint32) returns (ok: bool)
      requires Valid()
      modifies D, mem`bytes
      ensures Valid()
      ensures View() == if ok then StoreLine(old(View()), addr, ZEROS) else old(View())
      ensures ok <==> old(Cached(addr)) || old(CanDrop(DIndex(l, addr), D[DIndex(l, addr)].lru))
      ensures !ok ==> D[..] == old(D[..]) && mem.writeFaults != {}
    {
      hide DIndex, DTag, DBase, LineIndex, WordOf, Store;
      var index, tag := DIndex(l, addr), DTag(l, addr);
      var hit, way := LookUp(index, tag);
      var w := D[index].dSet[way];
      if !hit && w.valid && w.dirty {
        ok := WriteBack(index, way);
        if !ok {
          return;
        }
        BackedLine(mem.bytes, l, w, index, old(mem.bytes));
      }
      ghost var D0 := D[..];
      ghost var v := View();
      D[index] := SetWay(D[index], way, Way(ZEROS, tag, true, true));
      D[index] := D[index].(lru := if way == 1 then 0 else 1);
      ZeroInstalled(l, D0, mem.bytes, way, addr);
      SetOnly(D0, D[..], index, way);
      ok := true;
    }

    /** The data-cache part of cacheFlush: afterwards no way holds the line, and memory does. */
    method FlushLine(addr: uint32) returns (ok: bool)
      requires Valid()
      modifies D, mem`bytes
      ensures Valid() && View() == old(View())
      ensures ok <==> old(CanFlush(addr))
      ensures ok ==> !Cached(addr)
      ensures forall a: uint32 :: Cached(a) ==> old(Cached(a))
      ensures !ok ==> D[..] == old(D[..])
      ensures forall i | 0 <= i < D.Length && i != DIndex(l, addr) :: D[i] == old(D[i])
      ensures !old(Cached(addr)) ==> D[..] == old(D[..]) && mem.bytes == old(mem.bytes)
    {
      hide DIndex, DTag, DBase, Store;
      var index, tag := DIndex(l, addr), DTag(l, addr);
      var hit, way := LookUp(index, tag);
      if hit {
        ok := Drop(index, way);
      } else {
        ok := true;
      }
    }

    /** Whether the line of `addr`, if it is cached dirty, can be written back. */
    ghost predicate CanFlush(addr: uint32)
      reads this, D, mem
      requires Valid()
    {
      forall way | 0 <= way < 2 && Hit(D[DIndex(l, addr)], way, DTag(l, addr)) :: CanDrop(DIndex(l, addr), way)
    }

    ghost predicate CanDrop(index: nat, way: nat)
      reads this, D, mem
      requires Valid() && index < D.Length && way < 2
    {
      var w := D[index].dSet[way];
      w.valid && w.dirty ==> LineAccepted(mem.writeFaults, DBase(l, w.tag, index), 16)
    }

    /** The common end of the two flushes: save the way if it is dirty, then mark it invalid and next to be used. */
    method Drop(index: nat, way: nat) returns (ok: bool)
      requires Valid() && index < D.Length && way < 2
      modifies D, mem`bytes
      ensures Valid() && View() == old(View())
      ensures ok <==> old(CanDrop(index, way))
      ensures !ok ==> D[..] == old(D[..])
      ensures ok ==> D[index] == Entry(old(D[index].dSet)[way := old(D[index].dSet[way]).(valid := false)], way)
      ensures forall i | 0 <= i < D.Length && i != index :: D[i] == old(D[i])
    {
      hide DIndex, DTag, DBase, Store;
      var w := D[index].dSet[way];
      if w.valid && w.dirty {
        ok := WriteBack(index, way);
        if !ok {
          return;
        }
        BackedLine(mem.bytes, l, w, index, old(mem.bytes));
      }
      ghost var D0 := D[..];
      D[index] := SetWay(D[index], way, w.(valid := false));
      D[index] := D[index].(lru := way);
      ReplaceBackedWay(l, D0, mem.bytes, index, way, w.(valid := false), way);
      SetOnly(D0, D[..], index, way);
      ok := true;
    }

    /** The data-cache part of cacheIndexFlush: bit 31 of the address picks the way, no tag is compared. */
    method IndexFlushLine(addr: uint32) returns (ok: bool)
      requires Valid()
      modifies D, mem`bytes
      ensures Valid() && View() == old(View())
      ensures ok <==> old(CanDrop(DIndex(l, addr), if addr >= 0x8000_0000 then 1 else 0))
      ensures var index, way := DIndex(l, addr), if addr >= 0x8000_0000 then 1 else 0;
              ok ==> D[index] == Entry(old(D[index].dSet)[way := old(D[index].dSet[way]).(valid := false)], way)
      ensures forall i | 0 <= i < D.Length && i != DIndex(l, addr) :: D[i] == old(D[i])
    {
      ok := Drop(DIndex(l, addr), if addr >= 0x8000_0000 then 1 else 0);
    }

    /** The data-cache part of cacheInvalidate: exactly the line of `addr` falls back to what memory holds. */
    method InvalidateLine(addr: uint32)
      requires Valid()
      modifies D
      ensures Valid() && !Cached(addr)
      ensures forall a: uint32 ::
                View()[a] == (if InLine(l, DTag(l, addr), DIndex(l, addr), a) then mem.bytes[a] else old(View())[a])
      ensures !old(Cached(addr)) ==> D[..] == old(D[..])
    {
      hide DIndex, DTag, DBase, Store;
      var index, tag := DIndex(l, addr), DTag(l, addr);
      ghost var D0 := D[..];
      var hit, way := LookUp(index, tag);
      if hit {
        var w := D[index].dSet[way];
        D[index] := SetWay(D[index], way, w.(valid := false));
        D[index] := D[index].(lru := way);
        InstallWay(l, D0, mem.bytes, index, way, w.(valid := false), way);
        SetOnly(D0, D[..], index, way);
      }
    }

    /** debug_dCacheRead of a word: reads the view, and (having no modifies clause) leaves every cache bit alone. */
    method DebugRead(addr: uint32) returns (data: Word)
      requires Valid() && addr % 4 == 0
      ensures data == WordAt(View(), addr)
    {
      hide DIndex, DTag, DBase, LineIndex, WordOf, Store;
      var index, tag := DIndex(l, addr), DTag(l, addr);
      var lindex := LineIndex(addr);
      LineIndexIsOffset(addr);
      var e := D[index];
      if e.dSet[0].valid && e.dSet[0].tag == tag {
        HitView(l, D[..], mem.bytes, 0, addr, 4);
        data := e.dSet[0].line[lindex..lindex + 4];
      } else if e.dSet[1].valid && e.dSet[1].tag == tag {
        HitView(l, D[..], mem.bytes, 1, addr, 4);
        data := e.dSet[1].line[lindex..lindex + 4];
      } else {
        MissView(l, D[..], mem.bytes, addr, 4);
        data := mem.bytes[addr..addr + 4];
      }
    }
  }

  /** The word boundary at or below an address. */
  function WordOf(addr: uint32): (w: uint32)
    ensures w == addr - addr % 4
  {
    WordAlign(addr);
    And(addr, 0xFFFF_FFFC)
  }

  /** The offset field of an address, as the sources extract it. */
  function LineIndex(addr: uint32): nat {
    GetFieldValue(addr, DINDEX_R - 1, 0)
  }

  lemma LineIndexIsOffset(addr: uint32)
    ensures LineIndex(addr) == addr % 16
  {
    hide GetFieldValue, Pow2;
    FieldIsDivMod(addr, DINDEX_R - 1, 0);
    Pow2Values();
  }

  /** The word boundary and the offset in the word add up to the offset in the line. */
  lemma OffsetInLine(addr: uint32)
    ensures LineIndex(WordOf(addr)) + addr % 4 == addr % 16
  {
    hide LineIndex, WordOf;
    LineIndexIsOffset(WordOf(addr));
    OffsetSum(addr);
  }

  /** After a complete write-back, memory holds the line. */
  lemma BackedLine(m: seq<byte>, l: nat, w: Way, index: nat, m0: seq<byte>)
    requires DGeometry(l) && WayShape(l, w) && index < Entries(l, DINDEX_R) && |m0| == 0x1_0000_0000
    requires m == Store(m0, DBase(l, w.tag, index), w.line)
    ensures MemLine(l, m, w.tag, index) == w.line
  {
  }

  /** The word boundary below an address lies in the same line. */
  lemma SameLine(l: nat, addr: uint32)
    requires DGeometry(l)
    ensures DIndex(l, addr - addr % 4) == DIndex(l, addr)
    ensures DTag(l, addr - addr % 4) == DTag(l, addr)
  {
    hide DIndex, DTag, DBase, LineIndex, WordOf, Store;
    LineOffset(l, DTag(l, addr), DIndex(l, addr), addr);
    LineOffset(l, DTag(l, addr), DIndex(l, addr), addr - addr % 4);
  }

  /** Pointwise form of a store. */
  lemma StoreByBytes(v: seq<byte>, v': seq<byte>, addr: nat, data: seq<byte>)
    requires |v| == |v'| && addr + |data| <= |v|
    requires forall a | 0 <= a < |v| :: v'[a] == if addr <= a < addr + |data| then data[a - addr] else v[a]
    ensures v' == Store(v, addr, data)
  {
  }

  /** What a store inside a line that is not cached does to memory and to the view, byte by byte. */
  lemma MissStoreByte(l: nat, D: seq<Entry>, m: seq<byte>, addr: uint32, data: seq<byte>, a: uint32)
    requires Inv(l, D, m) && addr % 16 + |data| <= 16
    requires !Hit(D[DIndex(l, addr)], 0, DTag(l, addr)) && !Hit(D[DIndex(l, addr)], 1, DTag(l, addr))
    ensures addr + |data| <= 0x1_0000_0000
    ensures !InLine(l, DTag(l, addr), DIndex(l, addr), a) ==> Store(m, addr, data)[a] == m[a]
    ensures ByteAt(l, D, Store(m, addr, data), a) ==
            if addr <= a < addr + |data| then data[a - addr] else ByteAt(l, D, m, a)
  {
    hide DIndex, DTag, DBase, Store;
    LineOffset(l, DTag(l, addr), DIndex(l, addr), addr);
    LineOffset(l, DTag(l, addr), DIndex(l, addr), a);
  }

  /** Memory may be written behind a line that is not cached: the invariant stays,
      and the view takes the store as it is. */
  lemma MissStore(l: nat, D: seq<Entry>, m: seq<byte>, addr: uint32, data: seq<byte>)
    requires Inv(l, D, m) && addr % 16 + |data| <= 16
    requires !Hit(D[DIndex(l, addr)], 0, DTag(l, addr)) && !Hit(D[DIndex(l, addr)], 1, DTag(l, addr))
    ensures addr + |data| <= 0x1_0000_0000
    ensures Inv(l, D, Store(m, addr, data))
    ensures ViewOf(l, D, Store(m, addr, data)) == Store(ViewOf(l, D, m), addr, data)
  {
    hide DIndex, DTag, DBase, Store;
    MissStoreByte(l, D, m, addr, data, addr);
    var index, e := DIndex(l, addr), D[DIndex(l, addr)];
    var m' := Store(m, addr, data);
    forall a: uint32
      ensures !InLine(l, DTag(l, addr), index, a) ==> m'[a] == m[a]
      ensures ByteAt(l, D, m', a) == if addr <= a < addr + |data| then data[a - addr] else ByteAt(l, D, m, a)
    {
      MissStoreByte(l, D, m, addr, data, a);
    }
    StoreByBytes(ViewOf(l, D, m), ViewOf(l, D, m'), addr, data);
    OtherWaysUntouched(l, e, index, DTag(l, addr), m, m');
    LocalChange(l, D, m, index, e, m');
    assert D[index := e] == D;
  }

  /** Changing memory only in a line that a set does not hold keeps the set consistent with memory. */
  lemma OtherWaysUntouched(l: nat, e: Entry, index: nat, tag: nat, m: seq<byte>, m': seq<byte>)
    requires DGeometry(l) && index < Entries(l, DINDEX_R) && |m| == 0x1_0000_0000 == |m'|
    requires EntryOk(l, e, index, m) && !Hit(e, 0, tag) && !Hit(e, 1, tag)
    requires forall a: uint32 :: !InLine(l, tag, index, a) ==> m'[a] == m[a]
    ensures EntryOk(l, e, index, m')
  {
    hide DIndex, DTag, DBase;
    if e.dSet[0].valid {
      LineUntouched(l, e.dSet[0].tag, index, m, m');
    }
    if e.dSet[1].valid {
      LineUntouched(l, e.dSet[1].tag, index, m, m');
    }
  }

  /** A way may be overwritten by the line of `addr` if it is that line, or empty, or backed by memory. */
  ghost predicate Replaceable(l: nat, D: seq<Entry>, m: seq<byte>, way: nat, addr: uint32)
    requires Inv(l, D, m) && way < 2
  {
    && !Hit(D[DIndex(l, addr)], 1 - way, DTag(l, addr))
    && Backed(l, D[DIndex(l, addr)].dSet[way], m, DIndex(l, addr), DTag(l, addr))
  }

  /** A way that, unless it is the line `tag` itself, loses nothing when it is overwritten. */
  predicate Backed(l: nat, w: Way, m: seq<byte>, index: nat, tag: nat)
    requires DGeometry(l) && WayShape(l, w) && |m| == 0x1_0000_0000 && index < Entries(l, DINDEX_R)
  {
    w.valid && w.tag != tag ==> w.line == MemLine(l, m, w.tag, index)
  }

  function Zeroed(l: nat, D: seq<Entry>, way: nat, addr: uint32): seq<Entry>
    requires DGeometry(l) && |D| == Entries(l, DINDEX_R) && way < 2 == |D[DIndex(l, addr)].dSet|
  {
    D[DIndex(l, addr) := Entry(D[DIndex(l, addr)].dSet[way := Way(ZEROS, DTag(l, addr), true, true)], 1 - way)]
  }

  lemma ZeroInstalled(l: nat, D: seq<Entry>, m: seq<byte>, way: nat, addr: uint32)
    requires Inv(l, D, m) && way < 2 && Replaceable(l, D, m, way, addr)
    ensures Inv(l, Zeroed(l, D, way, addr), m)
    ensures ViewOf(l, Zeroed(l, D, way, addr), m) == StoreLine(ViewOf(l, D, m), addr, ZEROS)
  {
    hide DIndex, DTag, DBase, Store;
    var index, tag := DIndex(l, addr), DTag(l, addr);
    var w, D' := D[index].dSet[way], Zeroed(l, D, way, addr);
    var base, v := addr - addr % 16, ViewOf(l, D, m);
    LineOffset(l, tag, index, addr);
    InstallWay(l, D, m, index, way, Way(ZEROS, tag, true, true), 1 - way);
    forall a: uint32
      ensures ByteAt(l, D', m, a) == if base <= a < base + 16 then 0 else v[a]
    {
      LineOffset(l, tag, index, a);
      LineOffset(l, w.tag, index, a);
    }
    StoreByBytes(v, ViewOf(l, D', m), base, ZEROS);
  }
}
