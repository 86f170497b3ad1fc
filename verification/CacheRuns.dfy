/** Whole runs of the data cache. Any sequence of accesses behaves as it would on one
    flat byte memory, also when memory refuses some of them, and a sweep of index
    flushes leaves the caches empty with memory holding the whole view. */
module CacheRuns {
  import opened Bits
  import opened AddressFields
  import opened CommonMemory
  import opened CacheState
  import opened DataCacheModel
  import opened CacheSystemModel

  datatype Access =
    | Load(addr: uint32)
    | Store(addr: uint32, data: Word, size: nat)
    | NonAllocatingStore(addr: uint32, data: Word)
    | ZeroLine(addr: uint32)
    | Flush(addr: uint32, incr: uint32)
    | IndexFlush(addr: uint32, incr: uint32)
    | DebugLoad(addr: uint32)
  {
    /** What the interpreter guarantees of the accesses it issues: sizes of 1, 2 or 4 bytes, and
        alignment (a plain store may even be misaligned, if it stays inside a line). */
    predicate Issued() {
      match this
      case Store(a, _, n) => n <= 2 && (n == 1 ==> a % 16 <= 14) && (n == 2 ==> a % 16 <= 12)
      case NonAllocatingStore(a, _) => a % 4 == 0
      case DebugLoad(a) => a % 4 == 0
      case _ => true
    }
  }

  /** One access on a flat memory; a refused one has no effect. */
  function FlatStep(v: seq<byte>, op: Access, ok: bool): (v': seq<byte>)
    requires |v| == 0x1_0000_0000 && op.Issued()
    ensures |v'| == 0x1_0000_0000
  {
    if !ok then v
    else match op
      case Store(a, d, n) => StoredLength(d, n); CommonMemory.Store(v, a, StoredBytes(d, n))
      case NonAllocatingStore(a, d) => StoreWord(v, a, d)
      case ZeroLine(a) => StoreLine(v, a, ZEROS)
      case _ => v
  }

  /** What an access reads out of a flat memory; nothing for those that do not read. */
  function FlatResult(v: seq<byte>, op: Access, ok: bool): seq<byte>
    requires |v| == 0x1_0000_0000
  {
    match op
    case Load(a) => if ok then WordAt(v, a) else []
    case DebugLoad(a) => WordAt(v, a)
    case _ => []
  }

  /** A load of the word around a byte or short store shows the low-order data at their place and the
      old bytes beside them; a load of a stored word shows the data. */
  lemma LoadAfterStore(v: seq<byte>, a: uint32, d: Word, n: nat)
    requires |v| == 0x1_0000_0000 && Store(a, d, n).Issued()
    requires n == 1 ==> a % 4 <= 2
    requires n == 2 ==> a % 4 == 0
    ensures var was, got := WordAt(v, a), FlatResult(FlatStep(v, Store(a, d, n), true), Load(a), true);
            && (n == 0 ==> got == was[a % 4 := d[3]])
            && (n == 1 ==> got == was[a % 4 := d[2]][a % 4 + 1 := d[3]])
            && (n == 2 ==> got == d)
  {
    hide CommonMemory.Store, StoredBytes, WordAt;
    StoredLength(d, n);
    StoredSpelledOut(v, a, d, n);
    WordIs(v, a);
    WordIs(FlatStep(v, Store(a, d, n), true), a);
  }

  lemma WordIs(v: seq<byte>, a: uint32)
    requires |v| == 0x1_0000_0000
    ensures var base := a - a % 4; WordAt(v, a) == [v[base], v[base + 1], v[base + 2], v[base + 3]]
  {
  }

  function FlatRun(v: seq<byte>, ops: seq<Access>, oks: seq<bool>): (v': seq<byte>)
    requires |v| == 0x1_0000_0000 && |ops| == |oks| && forall op | op in ops :: op.Issued()
    ensures |v'| == 0x1_0000_0000
  {
    if ops == [] then v
    else FlatStep(FlatRun(v, ops[..|ops| - 1], oks[..|ops| - 1]), ops[|ops| - 1], oks[|ops| - 1])
  }

  /** The results of all accesses of a run on a flat memory. */
  function FlatResults(v: seq<byte>, ops: seq<Access>, oks: seq<bool>): (results: seq<seq<byte>>)
    requires |v| == 0x1_0000_0000 && |ops| == |oks| && forall op | op in ops :: op.Issued()
    ensures |results| == |ops|
  {
    if ops == [] then []
    else
      var n := |ops| - 1;
      FlatResults(v, ops[..n], oks[..n]) + [FlatResult(FlatRun(v, ops[..n], oks[..n]), ops[n], oks[n])]
  }

  /** One access, performed on the caches. */
  method Perform(sys: CacheSystem, op: Access) returns (ok: bool, result: seq<byte>)
    requires sys.Valid() && sys.dce && op.Issued()
    modifies sys.dc.D, sys.mem`bytes, sys.I
    ensures sys.Valid()
    ensures sys.dc.View() == FlatStep(old(sys.dc.View()), op, ok)
    ensures result == FlatResult(old(sys.dc.View()), op, ok)
    ensures sys.mem.readFaults == {} == sys.mem.writeFaults ==> ok
  {
    hide DIndex, DTag, DBase, IIndex, ITag, CommonMemory.Store, WordAt, StoreWord, StoreLine;
    result := [];
    match op {
      case Load(a) =>
        var data;
        ok, data := sys.dc.Read(a);
        result := if ok then data else [];
      case Store(a, d, n) =>
        ok := sys.dc.Write(a, d, n);
      case NonAllocatingStore(a, d) =>
        ok := sys.dc.NAWrite(a, d);
      case ZeroLine(a) =>
        ok := sys.dc.ZeroLine(a);
      case Flush(a, incr) =>
        var next;
        ok, next := sys.CacheFlush(a, incr);
      case IndexFlush(a, incr) =>
        var next;
        ok, next := sys.CacheIndexFlush(a, incr);
      case DebugLoad(a) =>
        result := sys.dc.DebugRead(a);
        ok := true;
    }
  }

  lemma RunAppend(v: seq<byte>, ops: seq<Access>, oks: seq<bool>, op: Access, ok: bool)
    requires |v| == 0x1_0000_0000 && |ops| == |oks| && (forall o | o in ops + [op] :: o.Issued())
    ensures forall o | o in ops :: o in ops + [op]
    ensures op in ops + [op]
    ensures FlatRun(v, ops + [op], oks + [ok]) == FlatStep(FlatRun(v, ops, oks), op, ok)
    ensures FlatResults(v, ops + [op], oks + [ok])
            == FlatResults(v, ops, oks) + [FlatResult(FlatRun(v, ops, oks), op, ok)]
  {
    assert (ops + [op])[|ops|] == op;
    assert (ops + [op])[..|ops|] == ops && (oks + [ok])[..|oks|] == oks;
  }

  /** The words that memory refuses to read or to write while an access is under way. */
  datatype Refusals = Refusals(noReads: set<int>, noWrites: set<int>)

  /** Every run of accesses returns what the flat memory returns and ends in the flat memory's state,
      whatever words memory refuses at each access; where it refuses none, the access succeeds. */
  method Run(sys: CacheSystem, ops: seq<Access>, refusals: seq<Refusals>)
    returns (oks: seq<bool>, results: seq<seq<byte>>)
    requires sys.Valid() && sys.dce && forall op | op in ops :: op.Issued()
    requires |refusals| == |ops|
    modifies sys.dc.D, sys.mem, sys.I
    ensures sys.Valid() && |oks| == |results| == |ops|
    ensures sys.dc.View() == FlatRun(old(sys.dc.View()), ops, oks)
    ensures results == FlatResults(old(sys.dc.View()), ops, oks)
    ensures forall k | 0 <= k < |ops| && refusals[k] == Refusals({}, {}) :: oks[k]
  {
    hide FlatStep, FlatResult, FlatRun, FlatResults;
    ghost var v0 := sys.dc.View();
    oks, results := [], [];
    EmptyRun(v0);
    var i := 0;
    while i < |ops|
      invariant i <= |ops| && sys.Valid() && |oks| == |results| == i
      invariant sys.dc.View() == FlatRun(v0, ops[..i], oks)
      invariant results == FlatResults(v0, ops[..i], oks)
      invariant forall k | 0 <= k < i && refusals[k] == Refusals({}, {}) :: oks[k]
    {
      sys.mem.readFaults, sys.mem.writeFaults := refusals[i].noReads, refusals[i].noWrites;
      var ok, result := Perform(sys, ops[i]);
      assert ops[..i + 1] == ops[..i] + [ops[i]];
      RunAppend(v0, ops[..i], oks, ops[i], ok);
      oks, results := oks + [ok], results + [result];
      i := i + 1;
    }
    assert ops[..i] == ops;
  }

  lemma EmptyRun(v: seq<byte>)
    requires |v| == 0x1_0000_0000
    ensures FlatRun(v, [], []) == v && FlatResults(v, [], []) == []
  {
  }

  /** The address whose set is `n`, with bit 31 clear or set. */
  function SweepAddress(n: nat, high: bool): nat {
    16 * n + if high then 0x8000_0000 else 0
  }

  lemma SweepIndex(l: nat, n: nat, high: bool)
    requires DGeometry(l) && n < Entries(l, DINDEX_R)
    ensures SweepAddress(n, high) + 16 < 0x1_0000_0000
    ensures DIndex(l, SweepAddress(n, high)) == n
    ensures SweepAddress(n, high) >= 0x8000_0000 <==> high
  {
    Pow2Values();
    Pow2Add(30 - l, l + 1);
    Pow2Le(l - 3, 9);
    assert Pow2(9) == 512;
    assert Pow2(31 - l) == 2 * Pow2(30 - l);
    var tag := if high then Pow2(30 - l) else 0;
    JoinAddress(l, DINDEX_R, tag, n, 0);
    LineBaseSum(l, DINDEX_R, tag, n);
  }

  /** One half of a sweep: every set loses way 0 (`high` false) or way 1, following the returned addresses. */
  method SweepWay(sys: CacheSystem, high: bool)
    requires sys.Valid() && sys.dce && sys.mem.writeFaults == {}
    modifies sys.dc.D, sys.mem`bytes, sys.I
    ensures sys.Valid() && sys.dc.View() == old(sys.dc.View())
    ensures forall i | 0 <= i < sys.dc.D.Length :: !sys.dc.D[i].dSet[if high then 1 else 0].valid
    ensures forall i | 0 <= i < sys.dc.D.Length ::
              sys.dc.D[i].dSet[if high then 0 else 1] == old(sys.dc.D[i].dSet[if high then 0 else 1])
  {
    hide DIndex, DTag, DBase, IIndex, ITag;
    var way := if high then 1 else 0;
    var addr: uint32 := SweepAddress(0, high);
    var n := 0;
    while n < sys.dc.D.Length
      invariant n <= sys.dc.D.Length && sys.Valid() && sys.dc.View() == old(sys.dc.View())
      invariant addr == SweepAddress(n, high)
      invariant forall i | 0 <= i < n :: !sys.dc.D[i].dSet[way].valid
      invariant forall i | 0 <= i < sys.dc.D.Length :: sys.dc.D[i].dSet[1 - way] == old(sys.dc.D[i].dSet[1 - way])
    {
      SweepIndex(sys.dc.l, n, high);
      var ok, next := sys.CacheIndexFlush(addr, 16);
      addr := next;
      n := n + 1;
    }
  }

  /** A cache without valid lines shows memory itself. */
  lemma AllInvalid(l: nat, D: seq<Entry>, m: seq<byte>)
    requires Inv(l, D, m)
    requires forall i | 0 <= i < |D| :: !D[i].dSet[0].valid && !D[i].dSet[1].valid
    ensures ViewOf(l, D, m) == m
  {
    hide DIndex, DTag;
  }

  /** Sweeping both ways over every set leaves no valid data line, and memory is the view there was before. */
  method Sweep(sys: CacheSystem)
    requires sys.Valid() && sys.dce && sys.mem.writeFaults == {}
    modifies sys.dc.D, sys.mem`bytes, sys.I
    ensures sys.Valid() && sys.dc.View() == old(sys.dc.View()) == sys.mem.bytes
    ensures forall i | 0 <= i < sys.dc.D.Length :: !sys.dc.D[i].dSet[0].valid && !sys.dc.D[i].dSet[1].valid
  {
    hide DIndex, DTag, DBase, IIndex, ITag;
    SweepWay(sys, false);
    SweepWay(sys, true);
    AllInvalid(sys.dc.l, sys.dc.D[..], sys.mem.bytes);
  }
}
