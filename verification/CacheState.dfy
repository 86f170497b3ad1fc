/** The contents of the two caches as values, the invariant that relates them to
    memory, and the programmer's view: one flat byte memory. */
module CacheState {
  import opened Bits
  import opened AddressFields
  import opened CommonMemory

  const DINDEX_R: nat := 4

  datatype Way = Way(line: seq<byte>, tag: nat, valid: bool, dirty: bool)
  datatype Entry = Entry(dSet: seq<Way>, lru: nat)

  const ZEROS: seq<byte> := [0, 0, 0, 0, 0, 0, 0, 0, 0, 0, 0, 0, 0, 0, 0, 0]
  const EMPTY_WAY: Way := Way(ZEROS, 0, false, false)
  const EMPTY_ENTRY: Entry := Entry([EMPTY_WAY, EMPTY_WAY], 0)

  /** Set selected by an address. */
  function DIndex(l: nat, a: uint32): (i: nat)
    requires DGeometry(l)
    ensures i < Entries(l, DINDEX_R)
  {
    SplitAddress(l, DINDEX_R, a);
    Index(l, DINDEX_R, a)
  }

  /** Tag of the line an address lies in. */
  function DTag(l: nat, a: uint32): (t: nat)
    requires DGeometry(l)
    ensures t < Pow2(31 - l)
  {
    SplitAddress(l, DINDEX_R, a);
    Tag(l, a)
  }

  /** Index geometry of the data cache: DINDEX_L runs from bit 8 (1K) to bit 12 (16K). */
  predicate DGeometry(l: nat) {
    8 <= l <= 12
  }

  function DBase(l: nat, tag: nat, index: nat): nat
    requires DGeometry(l) && tag < Pow2(31 - l) && index < Entries(l, DINDEX_R)
    ensures DBase(l, tag, index) % 16 == 0 && DBase(l, tag, index) + 16 <= 0x1_0000_0000
  {
    LineMembers(l, DINDEX_R, tag, index);
    Pow2Values();
    LineBase(l, DINDEX_R, tag, index)
  }

  predicate Hit(e: Entry, way: nat, tag: nat) {
    way < |e.dSet| && e.dSet[way].valid && e.dSet[way].tag == tag
  }

  predicate WayShape(l: nat, w: Way)
    requires DGeometry(l)
  {
    |w.line| == 16 && w.tag < Pow2(31 - l)
  }

  predicate EntryShape(l: nat, e: Entry)
    requires DGeometry(l)
  {
    |e.dSet| == 2 && e.lru < 2 && WayShape(l, e.dSet[0]) && WayShape(l, e.dSet[1])
  }

  /** Tags of valid ways differ, and a valid clean line is its memory line. */
  ghost predicate EntryOk(l: nat, e: Entry, index: nat, m: seq<byte>)
    requires DGeometry(l) && index < Entries(l, DINDEX_R) && |m| == 0x1_0000_0000
  {
    && EntryShape(l, e)
    && !(e.dSet[0].valid && e.dSet[1].valid && e.dSet[0].tag == e.dSet[1].tag)
    && (forall s | 0 <= s < 2 && e.dSet[s].valid && !e.dSet[s].dirty ::
          e.dSet[s].line == MemLine(l, m, e.dSet[s].tag, index))
  }

  ghost predicate Inv(l: nat, D: seq<Entry>, m: seq<byte>) {
    && DGeometry(l)
    && |m| == 0x1_0000_0000
    && |D| == Entries(l, DINDEX_R)
    && (forall i | 0 <= i < |D| :: EntryOk(l, D[i], i, m))
  }

  /** The byte a program sees at offset `off` of the line `tag` of a set, `below` being memory's. */
  function EntryByte(e: Entry, tag: nat, off: nat, below: byte): byte {
    if Hit(e, 0, tag) && off < |e.dSet[0].line| then e.dSet[0].line[off]
    else if Hit(e, 1, tag) && off < |e.dSet[1].line| then e.dSet[1].line[off]
    else below
  }

  function ByteAt(l: nat, D: seq<Entry>, m: seq<byte>, a: uint32): byte
    requires DGeometry(l) && |m| == 0x1_0000_0000 && |D| == Entries(l, DINDEX_R)
  {
    EntryByte(D[DIndex(l, a)], DTag(l, a), a % 16, m[a])
  }

  /** The flat memory the program sees through the data cache. */
  ghost function ViewOf(l: nat, D: seq<Entry>, m: seq<byte>): (v: seq<byte>)
    requires DGeometry(l) && |m| == 0x1_0000_0000 && |D| == Entries(l, DINDEX_R)
    ensures |v| == 0x1_0000_0000
    ensures forall a: uint32 :: v[a] == ByteAt(l, D, m, a)
  {
    seq(0x1_0000_0000, a requires 0 <= a < 0x1_0000_0000 => ByteAt(l, D, m, a))
  }

  /** Changing one set, and memory only in lines of that set, keeps the invariant. */
  lemma LocalChange(l: nat, D: seq<Entry>, m: seq<byte>, index: nat, e': Entry, m': seq<byte>)
    requires Inv(l, D, m) && index < |D| && |m'| == |m|
    requires EntryOk(l, e', index, m')
    requires forall a: uint32 :: DIndex(l, a) != index ==> m'[a] == m[a]
    ensures Inv(l, D[index := e'], m')
  {
    hide Pow2, Entries, DIndex, DTag;
    var D' := D[index := e'];
    forall i | 0 <= i < |D'|
      ensures EntryOk(l, D'[i], i, m')
    {
      if i != index {
        OtherSetUntouched(l, D[i], i, m, m', index);
      }
    }
  }

  lemma OtherSetUntouched(l: nat, e: Entry, i: nat, m: seq<byte>, m': seq<byte>, index: nat)
    requires DGeometry(l) && i < Entries(l, DINDEX_R) && i != index
    requires |m| == 0x1_0000_0000 == |m'| && EntryOk(l, e, i, m)
    requires forall a: uint32 :: DIndex(l, a) != index ==> m'[a] == m[a]
    ensures EntryOk(l, e, i, m')
  {
    hide Pow2, Entries, DIndex, DTag;
    forall s | 0 <= s < 2 && e.dSet[s].valid && !e.dSet[s].dirty
      ensures MemLine(l, m', e.dSet[s].tag, i) == MemLine(l, m, e.dSet[s].tag, i)
    {
      LineUntouched(l, e.dSet[s].tag, i, m, m');
    }
  }

  /** A cache without valid lines satisfies the invariant and shows memory itself. */
  lemma EmptyCache(l: nat, D: seq<Entry>, m: seq<byte>)
    requires DGeometry(l) && |m| == 0x1_0000_0000 && |D| == Entries(l, DINDEX_R)
    requires forall i | 0 <= i < |D| :: D[i] == EMPTY_ENTRY
    ensures Inv(l, D, m) && ViewOf(l, D, m) == m
  {
    hide Pow2, Entries, DIndex, DTag;
    assert EntryShape(l, EMPTY_ENTRY);
  }

  /** The line of memory under the fields `(tag, index)`. */
  function MemLine(l: nat, m: seq<byte>, tag: nat, index: nat): (line: seq<byte>)
    requires DGeometry(l) && tag < Pow2(31 - l) && index < Entries(l, DINDEX_R) && |m| == 0x1_0000_0000
    ensures |line| == 16
  {
    m[DBase(l, tag, index)..DBase(l, tag, index) + 16]
  }

  predicate InLine(l: nat, tag: nat, index: nat, a: uint32)
    requires DGeometry(l)
  {
    DIndex(l, a) == index && DTag(l, a) == tag
  }

  /** A byte of a line sits at its own offset from the start of the line. */
  lemma LineOffset(l: nat, tag: nat, index: nat, a: uint32)
    requires DGeometry(l) && tag < Pow2(31 - l) && index < Entries(l, DINDEX_R)
    ensures InLine(l, tag, index, a) <==> DBase(l, tag, index) <= a < DBase(l, tag, index) + 16
    ensures InLine(l, tag, index, a) ==> a == DBase(l, tag, index) + a % 16
  {
    LineMember(l, DINDEX_R, tag, index, a);
    Pow2Values();
  }

  /** Replacing way `way` of a set by `w'`: the line of `w'` shows `w'`, the line it
      replaces falls back to memory, every other byte keeps its value. */
  lemma InstallWay(l: nat, D: seq<Entry>, m: seq<byte>, index: nat, way: nat, w': Way, lru': nat)
    requires Inv(l, D, m) && index < |D| && way < 2 && lru' < 2 && WayShape(l, w')
    requires w'.valid ==> !Hit(D[index], 1 - way, w'.tag)
    requires w'.valid && !w'.dirty ==> w'.line == MemLine(l, m, w'.tag, index)
    ensures var D' := D[index := Entry(D[index].dSet[way := w'], lru')];
            && Inv(l, D', m)
            && forall a: uint32 ::
                 ByteAt(l, D', m, a) ==
                 (if w'.valid && InLine(l, w'.tag, index, a) then w'.line[a % 16]
                  else if DIndex(l, a) == index && Hit(D[index], way, DTag(l, a)) then m[a]
                  else ByteAt(l, D, m, a))
  {
    hide Pow2, Entries, DIndex, DTag;
    var e' := Entry(D[index].dSet[way := w'], lru');
    LocalChange(l, D, m, index, e', m);
  }

  /** A way that memory backs can be dropped, or replaced by another line of memory, unseen. */
  lemma ReplaceBackedWay(l: nat, D: seq<Entry>, m: seq<byte>, index: nat, way: nat, w': Way, lru': nat)
    requires Inv(l, D, m) && index < |D| && way < 2 && lru' < 2 && WayShape(l, w')
    requires D[index].dSet[way].valid ==> D[index].dSet[way].line == MemLine(l, m, D[index].dSet[way].tag, index)
    requires w'.valid ==> !Hit(D[index], 0, w'.tag) && !Hit(D[index], 1, w'.tag)
    requires w'.valid ==> w'.line == MemLine(l, m, w'.tag, index)
    ensures var D' := D[index := Entry(D[index].dSet[way := w'], lru')];
            Inv(l, D', m) && ViewOf(l, D', m) == ViewOf(l, D, m)
  {
    hide Pow2, Entries, DIndex, DTag, DBase;
    var w := D[index].dSet[way];
    InstallWay(l, D, m, index, way, w', lru');
    var D' := D[index := Entry(D[index].dSet[way := w'], lru')];
    forall a: uint32
      ensures ByteAt(l, D', m, a) == ByteAt(l, D, m, a)
    {
      LineOffset(l, w.tag, index, a);
      LineOffset(l, w'.tag, index, a);
    }
  }

  /** Storing a dirty line, or any first part of it, to its own memory line changes nothing in view. */
  lemma StoreOwnLine(l: nat, D: seq<Entry>, m: seq<byte>, index: nat, way: nat, k: nat)
    requires Inv(l, D, m) && index < |D| && way < 2 && k <= 16
    requires D[index].dSet[way].valid && D[index].dSet[way].dirty
    ensures var w := D[index].dSet[way];
            var m' := Store(m, DBase(l, w.tag, index), w.line[..k]);
            Inv(l, D, m') && ViewOf(l, D, m') == ViewOf(l, D, m)
  {
    hide Pow2, Entries, DIndex, DTag, DBase;
    var w, o := D[index].dSet[way], D[index].dSet[1 - way];
    var base := DBase(l, w.tag, index);
    var m' := Store(m, base, w.line[..k]);
    forall a: uint32
      ensures DIndex(l, a) != index ==> m'[a] == m[a]
      ensures DIndex(l, a) == index ==> m'[a] == (if DTag(l, a) == w.tag && a % 16 < k then w.line[a % 16] else m[a])
    {
      LineOffset(l, w.tag, index, a);
    }
    if o.valid {
      LineUntouched(l, o.tag, index, m, m');
    }
    LocalChange(l, D, m, index, D[index], m');
    assert D[index := D[index]] == D;
    forall a: uint32
      ensures ByteAt(l, D, m', a) == ByteAt(l, D, m, a)
    {
    }
  }

  /** A line keeps its contents when no byte of it changes. */
  lemma LineUntouched(l: nat, tag: nat, index: nat, m: seq<byte>, m': seq<byte>)
    requires DGeometry(l) && tag < Pow2(31 - l) && index < Entries(l, DINDEX_R)
    requires |m| == 0x1_0000_0000 == |m'|
    requires forall a: uint32 :: InLine(l, tag, index, a) ==> m'[a] == m[a]
    ensures MemLine(l, m', tag, index) == MemLine(l, m, tag, index)
  {
    hide Pow2, Entries, DIndex, DTag;
    var base := DBase(l, tag, index);
    forall k | 0 <= k < 16
      ensures MemLine(l, m', tag, index)[k] == MemLine(l, m, tag, index)[k]
    {
      LineOffset(l, tag, index, base + k);
    }
  }

  /** On a hit, the view of a stretch inside the line is that stretch of the way. */
  lemma HitView(l: nat, D: seq<Entry>, m: seq<byte>, way: nat, a: uint32, n: nat)
    requires Inv(l, D, m) && way < 2 && a % 16 + n <= 16
    requires DIndex(l, a) < |D| && Hit(D[DIndex(l, a)], way, DTag(l, a))
    ensures a + n <= 0x1_0000_0000
    ensures ViewOf(l, D, m)[a..a + n] == D[DIndex(l, a)].dSet[way].line[a % 16..a % 16 + n]
  {
    hide Pow2, Entries, DIndex, DTag, DBase;
    var index, tag := DIndex(l, a), DTag(l, a);
    LineOffset(l, tag, index, a);
    var v, line, off := ViewOf(l, D, m)[a..a + n], D[index].dSet[way].line, a % 16;
    forall k | 0 <= k < n
      ensures v[k] == line[off..off + n][k]
    {
      LineOffset(l, tag, index, a + k);
      assert v[k] == ByteAt(l, D, m, a + k);
    }
  }

  /** When neither way holds the line, the view of a stretch inside it is memory itself. */
  lemma MissView(l: nat, D: seq<Entry>, m: seq<byte>, a: uint32, n: nat)
    requires Inv(l, D, m) && a % 16 + n <= 16
    requires var i := DIndex(l, a); i < |D| && !Hit(D[i], 0, DTag(l, a)) && !Hit(D[i], 1, DTag(l, a))
    ensures a + n <= 0x1_0000_0000
    ensures ViewOf(l, D, m)[a..a + n] == m[a..a + n]
  {
    hide Pow2, Entries, DIndex, DTag, DBase;
    var index, tag := DIndex(l, a), DTag(l, a);
    LineOffset(l, tag, index, a);
    var v := ViewOf(l, D, m)[a..a + n];
    forall k | 0 <= k < n
      ensures v[k] == m[a..a + n][k]
    {
      LineOffset(l, tag, index, a + k);
      assert v[k] == ByteAt(l, D, m, a + k);
    }
  }

  /** Writing into the way that holds the line is a store to the view. */
  lemma WriteHit(l: nat, D: seq<Entry>, m: seq<byte>, way: nat, a: uint32, data: seq<byte>, lru': nat)
    requires Inv(l, D, m) && way < 2 && lru' < 2 && a % 16 + |data| <= 16
    requires DIndex(l, a) < |D| && Hit(D[DIndex(l, a)], way, DTag(l, a))
    ensures a + |data| <= 0x1_0000_0000
    ensures var index := DIndex(l, a);
            var w := D[index].dSet[way];
            var w' := w.(line := Store(w.line, a % 16, data), dirty := true);
            var D' := D[index := Entry(D[index].dSet[way := w'], lru')];
            Inv(l, D', m) && ViewOf(l, D', m) == Store(ViewOf(l, D, m), a, data)
  {
    hide Pow2, Entries, DIndex, DTag, DBase;
    var index, tag := DIndex(l, a), DTag(l, a);
    var w := D[index].dSet[way];
    var w' := w.(line := Store(w.line, a % 16, data), dirty := true);
    var D' := D[index := Entry(D[index].dSet[way := w'], lru')];
    HitView(l, D, m, way, a, |data|);
    InstallWay(l, D, m, index, way, w', lru');
    LineOffset(l, tag, index, a);
    forall b: uint32
      ensures ByteAt(l, D', m, b) == Store(ViewOf(l, D, m), a, data)[b]
    {
      LineOffset(l, tag, index, b);
    }
  }
}
