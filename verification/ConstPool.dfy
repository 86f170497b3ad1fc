/** Constant pool numbering and writing by the assembler. */
module ConstPool {
  import opened Bits
  import opened JavaInts
  import opened Jasm

  type Rank = r: int | 0 <= r <= 2
  type PairTag = t: int | 9 <= t <= 12 witness 9

  /** A constant. References to other constants are cells, by their number; floating-point
      values are their bits, and a string is its bytes in the file. */
  datatype Const =
    | Utf8(text: seq<byte>)
    | Num(isFloat: bool, bits: int)
    | Wide(isDouble: bool, hi: int, lo: int)
    | Ref(isString: bool, cell: nat)
    | Pair(tag: PairTag, left: nat, right: nat)

  function Tag(c: Const): byte {
    match c
    case Utf8(_) => 1
    case Num(isFloat, _) => if isFloat then 4 else 3
    case Wide(isDouble, _, _) => if isDouble then 6 else 5
    case Ref(isString, _) => if isString then 8 else 7
    case Pair(tag, _, _) => tag
  }

  /** ConstValue.size: longs and doubles take two indexes. */
  function Size(c: Const): nat {
    if c.Wide? then 2 else 1
  }

  /** What an index of the pool holds. */
  datatype Slot = Gap | Held(cell: nat) | Dummy

  const NOT_SET := -1

  /** Cell numbers below `n`. */
  predicate Inside(ids: seq<nat>, n: nat) {
    forall k | 0 <= k < |ids| :: ids[k] < n
  }

  predicate Distinct(ids: seq<nat>) {
    forall i, j | 0 <= i < j < |ids| :: ids[i] != ids[j]
  }

  /** The cells of a rank among the first `n`, in the order of enumeration. */
  function OfRank(ranks: seq<Rank>, rank: int, n: nat): (ids: seq<nat>)
    requires n <= |ranks|
    ensures Inside(ids, n) && Distinct(ids)
    ensures forall id :: id in ids <==> 0 <= id < n && ranks[id] == rank
  {
    if n == 0 then [] else OfRank(ranks, rank, n - 1) + if ranks[n - 1] == rank then [n - 1] else []
  }

  /** All cells of the ranks below `rank`, rank by rank. */
  function Ranked(ranks: seq<Rank>, rank: nat): (ids: seq<nat>)
    ensures Inside(ids, |ranks|) && Distinct(ids)
    ensures forall id :: id in ids <==> 0 <= id < |ranks| && ranks[id] < rank
  {
    if rank == 0 then []
    else
      DistinctConcat(Ranked(ranks, rank - 1), OfRank(ranks, rank - 1, |ranks|));
      Ranked(ranks, rank - 1) + OfRank(ranks, rank - 1, |ranks|)
  }

  lemma DistinctConcat(xs: seq<nat>, ys: seq<nat>)
    requires Distinct(xs) && Distinct(ys) && forall x :: !(x in xs && x in ys)
    ensures Distinct(xs + ys)
  {
    forall i, j | 0 <= i < j < |xs + ys|
      ensures (xs + ys)[i] != (xs + ys)[j]
    {
      if i < |xs| <= j {
        assert xs[i] in xs && ys[j - |xs|] in ys;
      }
    }
  }

  /** The slots of a list of cells, one after another. */
  function Slots(values: seq<Const>, ids: seq<nat>): seq<Slot>
    requires Inside(ids, |values|)
  {
    if ids == [] then []
    else
      var n := |ids| - 1;
      Slots(values, ids[..n]) + [Held(ids[n])] + if values[ids[n]].Wide? then [Dummy] else []
  }

  function PoolOf(values: seq<Const>, ids: seq<nat>): seq<Slot>
    requires Inside(ids, |values|)
  {
    if ids == [] then [] else [Gap] + Slots(values, ids)
  }

  /** The index of the `k`th cell of the list. */
  function IndexOf(values: seq<Const>, ids: seq<nat>, k: nat): nat
    requires k <= |ids| && Inside(ids, |values|)
  {
    1 + |Slots(values, ids[..k])|
  }

  /** Everything from index 1 on is in use. */
  predicate Full(pool: seq<Slot>, cpx: nat) {
    forall k | cpx <= k < |pool| :: pool[k] != Gap
  }

  /** Two free indexes in a row. */
  predicate TwoFree(pool: seq<Slot>, k: nat) {
    k + 1 < |pool| && pool[k] == pool[k + 1] == Gap
  }

  datatype WriteResult = PoolWritten | Misnumbered | TextTooLong

  /** The bytes of a constant, given the indexes of the cells it refers to. */
  function ConstBytes(c: Const, args: seq<int>): seq<byte>
    requires RefsInside(c, |args|)
  {
    ByteOf(Tag(c)) +
    match c
    case Utf8(text) => ShortOf(|text|) + text
    case Num(_, bits) => IntOf(bits)
    case Wide(_, hi, lo) => IntOf(hi) + IntOf(lo)
    case Ref(_, cell) => ShortOf(args[cell])
    case Pair(_, left, right) => ShortOf(args[left]) + ShortOf(args[right])
  }

  /** The bytes of a constant, byte by byte. */
  lemma ConstSpelledOut(c: Const, args: seq<int>)
    requires RefsInside(c, |args|)
    ensures ConstBytes(c, args) ==
            match c
            case Utf8(text) => [1, |text| / 0x100 % 256, |text| % 256] + text
            case Num(isFloat, n) =>
              [if isFloat then 4 else 3, n / 0x100_0000 % 256, n / 0x1_0000 % 256, n / 0x100 % 256, n % 256]
            case Wide(isDouble, hi, lo) =>
              [if isDouble then 6 else 5,
               hi / 0x100_0000 % 256, hi / 0x1_0000 % 256, hi / 0x100 % 256, hi % 256,
               lo / 0x100_0000 % 256, lo / 0x1_0000 % 256, lo / 0x100 % 256, lo % 256]
            case Ref(isString, cell) => [if isString then 8 else 7, args[cell] / 0x100 % 256, args[cell] % 256]
            case Pair(tag, left, right) =>
              [tag, args[left] / 0x100 % 256, args[left] % 256, args[right] / 0x100 % 256, args[right] % 256]
  {
  }

  predicate RefsInside(c: Const, n: nat) {
    (c.Ref? ==> c.cell < n) && (c.Pair? ==> c.left < n && c.right < n)
  }

  /** The constants of a list of cells. */
  function PoolBytes(values: seq<Const>, args: seq<int>, ids: seq<nat>): seq<byte>
    requires AllInside(values, args, ids)
  {
    if ids == [] then []
    else
      var n := |ids| - 1;
      PoolBytes(values, args, ids[..n]) + ConstBytes(values[ids[n]], args)
  }

  /** The cells in the order of enumeration of the hash table; their indexes and the pool are set
      when the class ends. */
  class ClassData {
    const values: seq<Const>
    const ranks: seq<Rank>
    var args: seq<int>
    var pool: seq<Slot>

    ghost predicate Valid()
      reads this
    {
      && |values| == |ranks| == |args|
      && forall id | 0 <= id < |values| :: RefsInside(values[id], |values|)
    }

    /** The first cells of `ids` are numbered, in this order and densely; no other cell is. */
    ghost predicate Numbered(ids: seq<nat>)
      reads this
      requires Valid()
    {
      && Inside(ids, |values|) && Distinct(ids)
      && pool == PoolOf(values, ids)
      && (forall k | 0 <= k < |ids| :: args[ids[k]] == IndexOf(values, ids, k))
      && (forall id | 0 <= id < |args| && id !in ids :: args[id] == NOT_SET)
    }

    constructor (values: seq<Const>, ranks: seq<Rank>)
      requires |values| == |ranks| && forall id | 0 <= id < |values| :: RefsInside(values[id], |values|)
      ensures Valid() && this.values == values && this.ranks == ranks && Numbered([])
    {
      this.values, this.ranks := values, ranks;
      args := seq(|values|, _ => NOT_SET);
      pool := [];
    }

    method SetSize(n: nat)
      modifies this`pool
      ensures |pool| == n
      ensures forall k | 0 <= k < n :: pool[k] == if k < |old(pool)| then old(pool)[k] else Gap
    {
      pool := seq(n, k requires 0 <= k < n reads this => if k < |pool| then pool[k] else Gap);
    }

    /** find_1: the first free index from `cpx` on; the pool is made to reach it. */
    method Find1(cpx: nat) returns (r: nat)
      modifies this`pool
      ensures cpx <= r < |pool| && pool[r] == Gap && |pool| == if r < |old(pool)| then |old(pool)| else r + 1
      ensures forall k | 0 <= k < |pool| :: pool[k] == if k < |old(pool)| then old(pool)[k] else Gap
      ensures forall k | cpx <= k < r :: pool[k] != Gap
      ensures Full(old(pool), cpx) ==> r == if cpx < |old(pool)| then |old(pool)| else cpx
    {
      r := cpx;
      while r < |pool|
        invariant cpx <= r && pool == old(pool) && (r <= |pool| || r == cpx)
        invariant forall k | cpx <= k < r :: k < |pool| && pool[k] != Gap
      {
        if pool[r] == Gap {
          return;
        }
        r := r + 1;
      }
      SetSize(r + 1);
    }

    /** find_2: the first two free indexes from `cpx` on. Its look at the second one is an
        ArrayIndexOutOfBoundsException when a single gap ends the pool. */
    method Find2(cpx: nat) returns (ok: bool, r: nat)
      modifies this`pool
      ensures !ok <==> cpx < |old(pool)| && old(pool)[|old(pool)| - 1] == Gap
                       && forall k | cpx <= k < |old(pool)| :: !TwoFree(old(pool), k)
      ensures !ok ==> pool == old(pool)
      ensures forall k | cpx <= k < r :: !TwoFree(old(pool), k)
      ensures ok ==>
                && cpx <= r && |pool| == (if r < |old(pool)| then |old(pool)| else r + 2)
                && r + 1 < |pool| && pool[r] == pool[r + 1] == Gap
                && forall k | 0 <= k < |pool| :: pool[k] == if k < |old(pool)| then old(pool)[k] else Gap
      ensures Full(old(pool), cpx) ==> ok && r == if cpx < |old(pool)| then |old(pool)| else cpx
    {
      r := cpx;
      while r < |pool|
        invariant cpx <= r && pool == old(pool) && (r <= |pool| || r == cpx)
        invariant forall k | cpx <= k < r :: !TwoFree(pool, k)
        invariant cpx < r == |pool| ==> pool[r - 1] != Gap
      {
        if pool[r] == Gap {
          if r + 1 >= |pool| {
            return false, r;
          }
          if pool[r + 1] == Gap {
            assert TwoFree(pool, r);
            return true, r;
          }
        }
        r := r + 1;
      }
      SetSize(r + 2);
      ok := true;
    }

    /** NumberizePool for a class without declared constants. */
    method NumberizePool()
      requires Valid() && Numbered([])
      modifies this
      ensures Valid() && Numbered(Ranked(ranks, 3))
    {
      hide Slots, PoolOf, OfRank, IndexOf, Ranked;
      var cpx1, cpx2 := 1, 1;
      var rank := 0;
      NoneRanked(ranks);
      while rank < 3
        invariant 0 <= rank <= 3 && Valid() && Numbered(Ranked(ranks, rank))
        invariant 1 <= cpx1 <= NextIndex(pool) && 1 <= cpx2 <= NextIndex(pool)
      {
        cpx1, cpx2 := NumberizeRank(rank, cpx1, cpx2);
        RankDone(ranks, rank);
        rank := rank + 1;
      }
    }

    /** The cells of one rank. */
    method NumberizeRank(rank: nat, next1: nat, next2: nat) returns (cpx1: nat, cpx2: nat)
      requires Valid() && rank < 3 && Numbered(Ranked(ranks, rank))
      requires 1 <= next1 <= NextIndex(pool) && 1 <= next2 <= NextIndex(pool)
      modifies this
      ensures Valid() && Numbered(Ranked(ranks, rank) + OfRank(ranks, rank, |ranks|))
      ensures 1 <= cpx1 <= NextIndex(pool) && 1 <= cpx2 <= NextIndex(pool)
    {
      hide Slots, PoolOf, OfRank, IndexOf, Ranked, Numbered, NextIndex;
      cpx1, cpx2 := next1, next2;
      var id := 0;
      NoneOfRank(ranks, rank);
      assert Ranked(ranks, rank) + OfRank(ranks, rank, 0) == Ranked(ranks, rank);
      while id < |values|
        invariant 0 <= id <= |values| && Valid() && Numbered(Ranked(ranks, rank) + OfRank(ranks, rank, id))
        invariant 1 <= cpx1 <= NextIndex(pool) && 1 <= cpx2 <= NextIndex(pool)
      {
        NextOfRank(ranks, rank, id);
        if ranks[id] == rank {
          StillUnset(Ranked(ranks, rank) + OfRank(ranks, rank, id), id);
          if args[id] == NOT_SET {
            cpx1, cpx2 := NumberizeCell(id, cpx1, cpx2, Ranked(ranks, rank) + OfRank(ranks, rank, id));
          }
        }
        id := id + 1;
      }
    }

    lemma StillUnset(ids: seq<nat>, id: nat)
      requires Valid() && Numbered(ids) && id < |args| && id !in ids
      ensures args[id] == NOT_SET
    {
    }

    /** One cell: it gets the next index, and the index after it if its constant is a wide one. */
    method NumberizeCell(id: nat, next1: nat, next2: nat, ghost done: seq<nat>) returns (cpx1: nat, cpx2: nat)
      requires Valid() && id < |values| && Numbered(done) && id !in done
      requires 1 <= next1 <= NextIndex(pool) && 1 <= next2 <= NextIndex(pool)
      modifies this
      ensures Valid() && Numbered(done + [id])
      ensures 1 <= cpx1 <= NextIndex(pool) && 1 <= cpx2 <= NextIndex(pool)
    {
      hide Slots, PoolOf, IndexOf;
      FullPool(values, done);
      OneMoreSlot(values, done, id);
      cpx1, cpx2 := next1, next2;
      ghost var was := pool;
      if Size(values[id]) == 1 {
        cpx1 := Find1(cpx1);
        args := args[id := cpx1];
        pool := pool[cpx1 := Held(id)];
      } else {
        var ok: bool;
        ok, cpx2 := Find2(cpx2);
        args := args[id := cpx2];
        pool := pool[cpx2 := Held(id)];
        pool := pool[cpx2 + 1 := Dummy];
      }
      assert pool == (if done == [] then [Gap] else was) + [Held(id)] + if values[id].Wide? then [Dummy] else [];
      assert pool == PoolOf(values, done + [id]);
      SameIndexes(values, done, id);
    }

    /** The constant pool part of write: the number of indexes, then every constant. The check that
        a cell stands at its own index never fails. */
    method WritePool(out: DataOutputStream) returns (r: WriteResult)
      requires Valid() && Numbered(Ranked(ranks, 3))
      modifies out
      ensures r != Misnumbered
      ensures r == TextTooLong <==> exists id :: 0 <= id < |values| && TooLong(values[id])
      ensures r == PoolWritten ==>
                AllInside(values, args, Ranked(ranks, 3))
                && out.bytes == old(out.bytes) + ShortOf(|pool|) + PoolBytes(values, args, Ranked(ranks, 3))
    {
      hide Slots, PoolOf, IndexOf, Ranked, OfRank, ConstBytes, PoolBytes, ShortOf, TooLong, Tag;
      NoBytesYet(values, args, Ranked(ranks, 3));
      ghost var ids, k := Ranked(ranks, 3), 0;
      out.WriteShort(|pool|);
      ghost var head := out.bytes;
      EntryAt(values, ids, 0);
      var i := 1;
      while i < |pool|
        invariant k <= |ids| && i == IndexOf(values, ids, k) && (k < |ids| <==> i < |pool|)
        invariant forall j | 0 <= j < k :: !TooLong(values[ids[j]])
        invariant AllInside(values, args, ids[..k])
        invariant out.bytes == head + PoolBytes(values, args, ids[..k])
        decreases |ids| - k
      {
        EntryAt(values, ids, k);
        var cell := pool[i].cell;
        var value := values[cell];
        if args[cell] != i {
          return Misnumbered;
        }
        ghost var before := out.bytes;
        r := WriteConst(out, value);
        if r == TextTooLong {
          assert TooLong(values[cell]);
          return;
        }
        PoolBytesNext(values, args, ids, k);
        i := i + Size(value);
        k := k + 1;
        EntryAt(values, ids, k);
      }
      assert ids[..k] == ids;
      forall id | 0 <= id < |values|
        ensures !TooLong(values[id])
      {
        assert id in ids;
      }
      r := PoolWritten;
    }

    /** ConstValue.write; writeUTF refuses what its length field cannot count. */
    method WriteConst(out: DataOutputStream, c: Const) returns (r: WriteResult)
      requires RefsInside(c, |args|)
      modifies out
      ensures r == if TooLong(c) then TextTooLong else PoolWritten
      ensures r == TextTooLong <==> c.Utf8? && |c.text| > 65535
      ensures r == PoolWritten ==> out.bytes == old(out.bytes) + ConstBytes(c, args)
      ensures r == PoolWritten ==>
                && |out.bytes| > |old(out.bytes)|
                && out.bytes[|old(out.bytes)|] ==
                   match c
                   case Utf8(_) => 1
                   case Num(isFloat, _) => if isFloat then 4 else 3
                   case Wide(isDouble, _, _) => if isDouble then 6 else 5
                   case Ref(isString, _) => if isString then 8 else 7
                   case Pair(tag, _, _) => tag
    {
      hide ByteOf, ShortOf, IntOf;
      ConstSpelledOut(c, args);
      r := PoolWritten;
      out.WriteByte(Tag(c));
      match c
      case Utf8(text) =>
        if |text| >= 0x1_0000 {
          r := TextTooLong;
          return;
        }
        out.WriteShort(|text|);
        out.bytes := out.bytes + text;
      case Num(_, bits) => out.WriteInt(bits);
      case Wide(_, hi, lo) =>
        out.WriteInt(hi);
        out.WriteInt(lo);
      case Ref(_, cell) => out.WriteShort(args[cell]);
      case Pair(_, left, right) =>
        out.WriteShort(args[left]);
        out.WriteShort(args[right]);
    }
  }

  predicate TooLong(c: Const) {
    c.Utf8? && |c.text| >= 0x1_0000
  }

  /** The index behind the last one in use. */
  function NextIndex(pool: seq<Slot>): nat {
    if |pool| == 0 then 1 else |pool|
  }

  predicate AllInside(values: seq<Const>, args: seq<int>, ids: seq<nat>) {
    forall k | 0 <= k < |ids| :: ids[k] < |values| && RefsInside(values[ids[k]], |args|)
  }

  lemma NoneRanked(ranks: seq<Rank>)
    ensures Ranked(ranks, 0) == []
  {
  }

  lemma RankDone(ranks: seq<Rank>, rank: nat)
    ensures Ranked(ranks, rank + 1) == Ranked(ranks, rank) + OfRank(ranks, rank, |ranks|)
  {
  }

  lemma NoneOfRank(ranks: seq<Rank>, rank: nat)
    ensures OfRank(ranks, rank, 0) == []
  {
  }

  lemma NextOfRank(ranks: seq<Rank>, rank: nat, id: nat)
    requires id < |ranks|
    ensures ranks[id] == rank ==> id !in Ranked(ranks, rank) + OfRank(ranks, rank, id)
    ensures Ranked(ranks, rank) + OfRank(ranks, rank, id + 1)
            == if ranks[id] == rank then Ranked(ranks, rank) + OfRank(ranks, rank, id) + [id]
               else Ranked(ranks, rank) + OfRank(ranks, rank, id)
  {
    assert Ranked(ranks, rank) + (OfRank(ranks, rank, id) + [id])
      == Ranked(ranks, rank) + OfRank(ranks, rank, id) + [id];
  }

  /** A dense pool has no gap from index 1 on. */
  lemma {:induction false} FullPool(values: seq<Const>, ids: seq<nat>)
    requires Inside(ids, |values|)
    ensures Full(PoolOf(values, ids), 1)
    ensures |PoolOf(values, ids)| != 1
    ensures forall k | 0 <= k < |Slots(values, ids)| :: Slots(values, ids)[k] != Gap
  {
    if ids != [] {
      FullPool(values, ids[..|ids| - 1]);
    }
  }

  lemma OneMoreSlot(values: seq<Const>, ids: seq<nat>, id: nat)
    requires id < |values| && Inside(ids, |values|)
    ensures Inside(ids + [id], |values|)
    ensures PoolOf(values, ids + [id])
            == (if ids == [] then [Gap] else PoolOf(values, ids)) + [Held(id)]
               + if values[id].Wide? then [Dummy] else []
    ensures IndexOf(values, ids + [id], |ids|) == NextIndex(PoolOf(values, ids))
    ensures PoolOf(values, ids) == [] <==> ids == []
  {
    assert (ids + [id])[..|ids|] == ids;
    var tail := if values[id].Wide? then [Dummy] else [];
    assert [Gap] + (Slots(values, ids) + [Held(id)] + tail) == [Gap] + Slots(values, ids) + [Held(id)] + tail;
    assert ids == [] ==> [Gap] + Slots(values, ids) == [Gap];
  }

  lemma SameIndexes(values: seq<Const>, ids: seq<nat>, id: nat)
    requires id < |values| && Inside(ids, |values|)
    ensures Inside(ids + [id], |values|)
    ensures forall k | 0 <= k <= |ids| :: IndexOf(values, ids + [id], k) == IndexOf(values, ids, k)
  {
    forall k | 0 <= k <= |ids|
      ensures (ids + [id])[..k] == ids[..k]
    {
    }
  }

  /** The entry at the index of cell `k`, and the index of the next cell. */
  lemma {:induction false} EntryAt(values: seq<Const>, ids: seq<nat>, k: nat)
    requires k <= |ids| && Inside(ids, |values|)
    ensures k < |ids| ==>
              && IndexOf(values, ids, k) < |PoolOf(values, ids)|
              && PoolOf(values, ids)[IndexOf(values, ids, k)] == Held(ids[k])
              && IndexOf(values, ids, k + 1) == IndexOf(values, ids, k) + Size(values[ids[k]])
    ensures k == |ids| && ids != [] ==> IndexOf(values, ids, k) == |PoolOf(values, ids)|
    ensures ids == [] ==> PoolOf(values, ids) == []
    ensures IndexOf(values, ids, 0) == 1
    decreases |ids|
  {
    if k == |ids| {
      assert ids[..k] == ids;
    } else {
      SlotsNext(values, ids, k);
      SlotsPrefix(values, ids, k + 1);
      hide Slots;
    }
  }

  lemma SlotsNext(values: seq<Const>, ids: seq<nat>, k: nat)
    requires k < |ids| && Inside(ids, |values|)
    ensures Slots(values, ids[..k + 1])
            == Slots(values, ids[..k]) + [Held(ids[k])] + if values[ids[k]].Wide? then [Dummy] else []
  {
    assert ids[..k + 1][..k] == ids[..k];
  }

  lemma {:induction false} SlotsPrefix(values: seq<Const>, ids: seq<nat>, k: nat)
    requires k <= |ids| && Inside(ids, |values|)
    ensures Slots(values, ids[..k]) <= Slots(values, ids)
    decreases |ids|
  {
    if k == |ids| {
      assert ids[..k] == ids;
    } else {
      var n := |ids| - 1;
      SlotsPrefix(values, ids[..n], k);
      assert ids[..n][..k] == ids[..k];
    }
  }

  lemma NoBytesYet(values: seq<Const>, args: seq<int>, ids: seq<nat>)
    ensures AllInside(values, args, ids[..0]) && PoolBytes(values, args, ids[..0]) == []
  {
  }

  lemma PoolBytesNext(values: seq<Const>, args: seq<int>, ids: seq<nat>, k: nat)
    requires k < |ids| && AllInside(values, args, ids[..k]) && ids[k] < |values| && RefsInside(values[ids[k]], |args|)
    ensures AllInside(values, args, ids[..k + 1])
    ensures PoolBytes(values, args, ids[..k + 1])
            == PoolBytes(values, args, ids[..k]) + ConstBytes(values[ids[k]], args)
  {
    hide ConstBytes;
    assert ids[..k + 1][..k] == ids[..k];
  }
}
