/** The disassembler's reading of a constant pool, and what it makes of a written one. */
module ConstPoolReader {
  import opened Bits
  import opened JavaInts
  import opened ConstPool

  /** What the disassembler stores for an index. */
  datatype Entry =
    | NoEntry
    | Text(text: seq<byte>)
    | Number(bits: int)
    | WideNumber(hi: int, lo: int)
    | CPX(index: int)
    | CPX2(index: int, other: int)

  datatype Row = Row(tag: int, entry: Entry)

  datatype Parsed = Parsed(tag: byte, entry: Entry, next: nat) | Malformed

  /** One constant; Malformed is a ClassFormatError or the end of the file. */
  function Parse(input: seq<byte>, at: nat): (r: Parsed)
    ensures r.Parsed? ==> r.next > at
  {
    if at >= |input| then Malformed
    else
      var tag := input[at];
      if tag == 1 then
        if at + 3 > |input| then Malformed
        else
          var n := GetShort(input, at + 1) % 0x1_0000;
          if at + 3 + n > |input| then Malformed else Parsed(tag, Text(input[at + 3..at + 3 + n]), at + 3 + n)
      else if tag == 3 || tag == 4 then
        if at + 5 > |input| then Malformed else Parsed(tag, Number(GetInt(input, at + 1)), at + 5)
      else if tag == 5 || tag == 6 then
        if at + 9 > |input| then Malformed
        else Parsed(tag, WideNumber(GetInt(input, at + 1), GetInt(input, at + 5)), at + 9)
      else if tag == 7 || tag == 8 then
        if at + 3 > |input| then Malformed else Parsed(tag, CPX(GetShort(input, at + 1)), at + 3)
      else if 9 <= tag <= 12 then
        if at + 5 > |input| then Malformed
        else Parsed(tag, CPX2(GetShort(input, at + 1), GetShort(input, at + 3)), at + 5)
      else Malformed
  }

  /** Which bytes are a constant: a known number, and as many bytes as it asks for. */
  lemma ParsedIff(input: seq<byte>, at: nat)
    ensures Parse(input, at).Parsed? <==>
              && at < |input|
              && match input[at]
                 case 1 => at + 3 <= |input| && at + 3 + (input[at + 1] as int) * 0x100 + input[at + 2] <= |input|
                 case 7 | 8 => at + 3 <= |input|
                 case 3 | 4 | 9 | 10 | 11 | 12 => at + 5 <= |input|
                 case 5 | 6 => at + 9 <= |input|
                 case _ => false
    ensures Parse(input, at).Parsed? ==> Parse(input, at).tag == input[at]
  {
    if at + 3 <= |input| {
      UnsignedShort(input, at + 1);
    }
  }

  lemma UnsignedShort(input: seq<byte>, at: nat)
    requires at + 2 <= |input|
    ensures GetShort(input, at) % 0x1_0000 == (input[at] as int) * 0x100 + input[at + 1]
  {
  }

  predicate TakesTwo(tag: byte) {
    tag == 5 || tag == 6
  }

  datatype Outcome = Pool(rows: seq<Row>, next: nat) | Error

  /** The rows from index `i` on, added to those read before. */
  function ReadFrom(input: seq<byte>, at: nat, i: nat, rows: seq<Row>): Outcome
    decreases |rows| - i
  {
    if i >= |rows| then Pool(rows, at)
    else
      match Parse(input, at)
      case Malformed => Error
      case Parsed(tag, entry, next) =>
        ReadFrom(input, next, if TakesTwo(tag) then i + 2 else i + 1, rows[i := Row(tag, entry)])
  }

  function NoRows(n: nat): (rows: seq<Row>)
    ensures |rows| == n && forall k | 0 <= k < n :: rows[k] == Row(0, NoEntry)
  {
    seq(n, _ => Row(0, NoEntry))
  }

  /** The pool at `at`: the number of indexes, then the constants. A number of 32768 or more is
      read as negative, for which no array can be made. */
  function ReadPool(input: seq<byte>, at: nat): Outcome {
    if at + 2 > |input| then Error
    else if GetShort(input, at) < 0 then Error
    else ReadFrom(input, at + 2, 1, NoRows(GetShort(input, at)))
  }

  class ClassData {
    var length: int
    var types: array<int>
    var cpool: array<Entry>

    ghost predicate Valid()
      reads this
    {
      types.Length == cpool.Length
    }

    /** The two arrays, as rows. */
    ghost function Rows(): (rows: seq<Row>)
      reads this, types, cpool
      requires Valid()
      ensures |rows| == types.Length
    {
      seq(types.Length, k requires 0 <= k < types.Length && Valid() reads this, types, cpool => Row(types[k], cpool[k]))
    }

    constructor ()
      ensures Valid()
    {
      length, types, cpool := 0, new int[0], new Entry[0];
    }

    /** readCP. */
    method ReadCP(input: seq<byte>, at: nat) returns (ok: bool, next: nat)
      requires Valid()
      modifies this
      ensures Valid()
      ensures (if ok then Pool(Rows(), next) else Error) == ReadPool(input, at)
    {
      hide GetShort, Parse;
      ok, next := false, at;
      if at + 2 > |input| {
        return;
      }
      length := GetShort(input, at);
      if length < 0 {
        return;
      }
      types := new int[length](_ => 0);
      cpool := new Entry[length](_ => NoEntry);
      next := at + 2;
      assert Rows() == NoRows(length);
      ghost var target := ReadFrom(input, next, 1, NoRows(length));
      var i := 1;
      while i < length
        invariant Valid() && types.Length == length && fresh(types) && fresh(cpool) && 1 <= i
        invariant ReadFrom(input, next, i, Rows()) == target
      {
        match Parse(input, next) {
          case Malformed => return;
          case Parsed(tag, entry, after) =>
            ghost var before := Rows();
            types[i], cpool[i] := tag, entry;
            assert Rows() == before[i := Row(tag, entry)];
            next := after;
            if TakesTwo(tag) {
              i := i + 1;
            }
            i := i + 1;
        }
      }
      ok := true;
    }
  }

  // ----- reading what was written

  /** What a constant should be read as: the low-order bits of its numbers, and the indexes of the
      cells it refers to. */
  function EntryOf(c: Const, args: seq<int>): Entry
    requires RefsInside(c, |args|)
  {
    match c
    case Utf8(text) => Text(text)
    case Num(_, bits) => Number(S32(bits))
    case Wide(_, hi, lo) => WideNumber(S32(hi), S32(lo))
    case Ref(_, cell) => CPX(S16(args[cell]))
    case Pair(_, left, right) => CPX2(S16(args[left]), S16(args[right]))
  }

  lemma Part(input: seq<byte>, at: nat, before: seq<byte>, b: seq<byte>, after: seq<byte>)
    requires at + |before| + |b| + |after| <= |input| && input[at..at + |before| + |b| + |after|] == before + b + after
    ensures input[at + |before|..at + |before| + |b|] == b
  {
    var all := before + b + after;
    SubSlice(input, at, all, |before|, |b|);
    assert all[|before|..|before| + |b|] == b;
  }

  /** A constant is read back from where it was written. */
  lemma ConstReadsBack(input: seq<byte>, at: nat, c: Const, args: seq<int>)
    requires RefsInside(c, |args|) && !TooLong(c)
    requires at + |ConstBytes(c, args)| <= |input| && input[at..at + |ConstBytes(c, args)|] == ConstBytes(c, args)
    ensures Parse(input, at) == Parsed(Tag(c), EntryOf(c, args), at + |ConstBytes(c, args)|)
  {
    hide GetShort, GetInt, S16, S32, ShortOf, IntOf;
    TagReadsBack(input, at, c, args);
    match c
    case Utf8(text) => TextReadsBack(input, at, text);
    case Num(_, bits) =>
      Part(input, at, ByteOf(Tag(c)), IntOf(bits), []);
      IntRoundTrip(input, at + 1, bits);
    case Wide(_, hi, lo) => IntsReadBack(input, at, Tag(c), hi, lo);
    case Ref(_, cell) =>
      Part(input, at, ByteOf(Tag(c)), ShortOf(args[cell]), []);
      ShortRoundTrip(input, at + 1, args[cell]);
    case Pair(_, left, right) => ShortsReadBack(input, at, Tag(c), args[left], args[right]);
  }

  lemma TextReadsBack(input: seq<byte>, at: nat, text: seq<byte>)
    requires |text| < 0x1_0000
    requires var b := ByteOf(1) + (ShortOf(|text|) + text);
             at + |b| <= |input| && input[at..at + |b|] == b
    ensures GetShort(input, at + 1) % 0x1_0000 == |text| && input[at + 3..at + 3 + |text|] == text
  {
    hide GetShort, S16, ShortOf;
    var tag, n := ByteOf(1), ShortOf(|text|);
    assert tag + (n + text) == tag + n + text;
    Part(input, at, tag, n, text);
    Part(input, at, tag + n, text, []);
    assert tag + n + text + [] == tag + n + text;
    ShortRoundTrip(input, at + 1, |text|);
    S16Low(|text|);
  }

  lemma IntsReadBack(input: seq<byte>, at: nat, tag: byte, hi: int, lo: int)
    requires var b := ByteOf(tag) + (IntOf(hi) + IntOf(lo));
             at + |b| <= |input| && input[at..at + |b|] == b
    ensures GetInt(input, at + 1) == S32(hi) && GetInt(input, at + 5) == S32(lo)
  {
    hide GetInt, S32, IntOf;
    var t, h, l := ByteOf(tag), IntOf(hi), IntOf(lo);
    assert t + (h + l) == t + h + l && t + h + l + [] == t + h + l;
    Part(input, at, t, h, l);
    Part(input, at, t + h, l, []);
    IntRoundTrip(input, at + 1, hi);
    IntRoundTrip(input, at + 5, lo);
  }

  lemma ShortsReadBack(input: seq<byte>, at: nat, tag: byte, left: int, right: int)
    requires var b := ByteOf(tag) + (ShortOf(left) + ShortOf(right));
             at + |b| <= |input| && input[at..at + |b|] == b
    ensures GetShort(input, at + 1) == S16(left) && GetShort(input, at + 3) == S16(right)
  {
    hide GetShort, S16, ShortOf;
    var t, l, r := ByteOf(tag), ShortOf(left), ShortOf(right);
    assert t + (l + r) == t + l + r && t + l + r + [] == t + l + r;
    Part(input, at, t, l, r);
    Part(input, at, t + l, r, []);
    ShortRoundTrip(input, at + 1, left);
    ShortRoundTrip(input, at + 3, right);
  }

  lemma TagReadsBack(input: seq<byte>, at: nat, c: Const, args: seq<int>)
    requires RefsInside(c, |args|)
    requires at + |ConstBytes(c, args)| <= |input| && input[at..at + |ConstBytes(c, args)|] == ConstBytes(c, args)
    ensures at < |input| && input[at] == Tag(c)
  {
    assert input[at..at + |ConstBytes(c, args)|][0] == ConstBytes(c, args)[0];
  }

  /** The bytes of the first `k` constants, and the next one after them. */
  lemma {:induction false} BytesAt(values: seq<Const>, args: seq<int>, ids: seq<nat>, k: nat)
    requires AllInside(values, args, ids) && k < |ids|
    ensures AllInside(values, args, ids[..k])
    ensures var from, b := |PoolBytes(values, args, ids[..k])|, ConstBytes(values[ids[k]], args);
            && from + |b| <= |PoolBytes(values, args, ids)|
            && PoolBytes(values, args, ids)[from..from + |b|] == b
            && |PoolBytes(values, args, ids[..k + 1])| == from + |b|
    decreases |ids|
  {
    hide ConstBytes, PoolBytes;
    PoolBytesNext(values, args, ids, k);
    var n := |ids| - 1;
    if k == n {
      assert ids[..k + 1] == ids;
    } else {
      BytesAt(values, args, ids[..n], k);
      assert ids[..n][..k] == ids[..k] && ids[..n][..k + 1] == ids[..k + 1] && ids[..n][k] == ids[k];
      PoolBytesNext(values, args, ids, n);
      assert ids[..n + 1] == ids;
      PartOfPrefix(PoolBytes(values, args, ids[..n]), ConstBytes(values[ids[n]], args),
                   |PoolBytes(values, args, ids[..k])|, |ConstBytes(values[ids[k]], args)|);
    }
  }

  lemma PartOfPrefix(all: seq<byte>, more: seq<byte>, from: nat, n: nat)
    requires from + n <= |all|
    ensures (all + more)[from..from + n] == all[from..from + n]
  {
  }

  /** The row that constant `id` should have. */
  function RowOf(values: seq<Const>, args: seq<int>, id: nat): Row
    requires id < |values| && RefsInside(values[id], |args|)
  {
    Row(Tag(values[id]), EntryOf(values[id], args))
  }

  /** `rows` holds the constants from the `k`th on, and is `was` everywhere else. */
  ghost predicate Filled(values: seq<Const>, args: seq<int>, ids: seq<nat>, k: nat, was: seq<Row>, rows: seq<Row>)
    requires AllInside(values, args, ids) && Inside(ids, |values|)
  {
    && |rows| == |was|
    && (forall j | k <= j < |ids| ::
          IndexOf(values, ids, j) < |rows| && rows[IndexOf(values, ids, j)] == RowOf(values, args, ids[j]))
    && (forall i | 0 <= i < |rows| && rows[i] != was[i] :: exists j :: k <= j < |ids| && i == IndexOf(values, ids, j))
  }

  lemma {:induction false} IndexGrows(values: seq<Const>, ids: seq<nat>, j: nat, k: nat)
    requires j <= k <= |ids| && Inside(ids, |values|)
    ensures IndexOf(values, ids, j) + (k - j) <= IndexOf(values, ids, k)
    decreases k - j
  {
    if j < k {
      EntryAt(values, ids, j);
      IndexGrows(values, ids, j + 1, k);
    }
  }

  /** Reading on from the `k`th constant fills in all the remaining ones. */
  lemma {:induction false} RestReadsBack(values: seq<Const>, args: seq<int>, ids: seq<nat>, k: nat,
                                         input: seq<byte>, at: nat, rows: seq<Row>)
    requires AllInside(values, args, ids) && Inside(ids, |values|) && k <= |ids|
    requires forall j | 0 <= j < |ids| :: !TooLong(values[ids[j]])
    requires |rows| == |PoolOf(values, ids)|
    requires at + |PoolBytes(values, args, ids)| <= |input|
    requires input[at..at + |PoolBytes(values, args, ids)|] == PoolBytes(values, args, ids)
    ensures AllInside(values, args, ids[..k])
    ensures var r := ReadFrom(input, at + |PoolBytes(values, args, ids[..k])|, IndexOf(values, ids, k), rows);
            r.Pool? && r.next == at + |PoolBytes(values, args, ids)| && Filled(values, args, ids, k, rows, r.rows)
    decreases |ids| - k
  {
    hide Slots, PoolOf, IndexOf, PoolBytes, ConstBytes, Parse, RowOf;
    EntryAt(values, ids, k);
    if k == |ids| {
      assert ids[..k] == ids;
      BottomOut(values, args, ids, input, at, rows);
    } else {
      var here, i := at + |PoolBytes(values, args, ids[..k])|, IndexOf(values, ids, k);
      var c := values[ids[k]];
      BytesAt(values, args, ids, k);
      SubSlice(input, at, PoolBytes(values, args, ids), |PoolBytes(values, args, ids[..k])|, |ConstBytes(c, args)|);
      ConstReadsBack(input, here, c, args);
      var row := Row(Tag(c), EntryOf(c, args));
      RestReadsBack(values, args, ids, k + 1, input, at, rows[i := row]);
      SizeOfTag(c);
      var r := ReadFrom(input, here + |ConstBytes(c, args)|, IndexOf(values, ids, k + 1), rows[i := row]);
      assert row == RowOf(values, args, ids[k]) by { RowIs(values, args, ids[k]); }
      FilledMore(values, args, ids, k, rows, r.rows);
    }
  }

  lemma RowIs(values: seq<Const>, args: seq<int>, id: nat)
    requires id < |values| && RefsInside(values[id], |args|)
    ensures RowOf(values, args, id) == Row(Tag(values[id]), EntryOf(values[id], args))
  {
  }

  lemma SizeOfTag(c: Const)
    ensures Size(c) == if TakesTwo(Tag(c)) then 2 else 1
  {
  }

  lemma SubSlice(input: seq<byte>, at: nat, all: seq<byte>, from: nat, n: nat)
    requires at + |all| <= |input| && input[at..at + |all|] == all && from + n <= |all|
    ensures input[at + from..at + from + n] == all[from..from + n]
  {
    var piece, part := input[at + from..at + from + n], all[from..from + n];
    forall k | 0 <= k < n
      ensures piece[k] == part[k]
    {
      assert input[at..at + |all|][from + k] == all[from + k];
    }
  }

  lemma BottomOut(values: seq<Const>, args: seq<int>, ids: seq<nat>, input: seq<byte>, at: nat, rows: seq<Row>)
    requires AllInside(values, args, ids) && Inside(ids, |values|) && |rows| == |PoolOf(values, ids)|
    requires IndexOf(values, ids, |ids|) >= |rows|
    ensures ReadFrom(input, at + |PoolBytes(values, args, ids)|, IndexOf(values, ids, |ids|), rows)
            == Pool(rows, at + |PoolBytes(values, args, ids)|)
    ensures Filled(values, args, ids, |ids|, rows, rows)
  {
  }

  lemma FilledMore(values: seq<Const>, args: seq<int>, ids: seq<nat>, k: nat, was: seq<Row>, rows: seq<Row>)
    requires AllInside(values, args, ids) && Inside(ids, |values|) && k < |ids| && IndexOf(values, ids, k) < |was|
    requires Filled(values, args, ids, k + 1, was[IndexOf(values, ids, k) := RowOf(values, args, ids[k])], rows)
    ensures Filled(values, args, ids, k, was, rows)
  {
    hide Slots, IndexOf, RowOf;
    var i := IndexOf(values, ids, k);
    forall j | k + 1 <= j < |ids|
      ensures IndexOf(values, ids, j) > i
    {
      IndexGrows(values, ids, k, j);
    }
  }

  /** The numbering of a finished class: every constant has an index of its own between 1 and the
      end, without gaps, the index behind a wide one is not used for another, and constants of a
      lower rank come before those of a higher one. */
  lemma NumberingIsDense(values: seq<Const>, ranks: seq<Rank>, a: nat, b: nat)
    requires |values| == |ranks| && a < b < |Ranked(ranks, 3)|
    ensures Inside(Ranked(ranks, 3), |values|)
    ensures var ids := Ranked(ranks, 3);
            && IndexOf(values, ids, 0) == 1
            && IndexOf(values, ids, a + 1) == IndexOf(values, ids, a) + Size(values[ids[a]]) <= IndexOf(values, ids, b)
            && IndexOf(values, ids, b) + Size(values[ids[b]]) <= |PoolOf(values, ids)|
            && IndexOf(values, ids, |ids|) == |PoolOf(values, ids)|
            && ranks[ids[a]] <= ranks[ids[b]]
  {
    hide Slots, PoolOf, IndexOf, Ranked;
    var ids := Ranked(ranks, 3);
    EntryAt(values, ids, a);
    EntryAt(values, ids, b);
    EntryAt(values, ids, |ids|);
    IndexGrows(values, ids, a + 1, b);
    IndexGrows(values, ids, b + 1, |ids|);
    RanksRise(ranks, 3);
  }

  lemma {:induction false} RanksRise(ranks: seq<Rank>, rank: nat)
    ensures forall i, j | 0 <= i < j < |Ranked(ranks, rank)| ::
            ranks[Ranked(ranks, rank)[i]] <= ranks[Ranked(ranks, rank)[j]]
  {
    hide OfRank;
    if rank > 0 {
      RanksRise(ranks, rank - 1);
      var low, added := Ranked(ranks, rank - 1), OfRank(ranks, rank - 1, |ranks|);
      forall i, j | 0 <= i < j < |low + added|
        ensures ranks[(low + added)[i]] <= ranks[(low + added)[j]]
      {
        assert i < |low| ==> low[i] in low;
        assert j >= |low| ==> added[j - |low|] in added;
        assert i >= |low| ==> added[i - |low|] in added;
      }
    }
  }

  /** What a class is read back as. */
  ghost predicate ReadsAs(c: ConstPool.ClassData, rows: seq<Row>)
    reads c
    requires c.Valid() && c.Numbered(Ranked(c.ranks, 3))
  {
    && |rows| == |c.pool|
    && (forall id | 0 <= id < |c.values| :: 0 <= c.args[id] < |rows| && rows[c.args[id]] == RowOf(c.values, c.args, id))
    && (forall i | 0 <= i < |rows| && (c.pool[i] == Dummy || c.pool[i] == Gap) :: rows[i] == Row(0, NoEntry))
  }

  /** A class is written and read back: the same constants stand at the same indexes, refer to the
      same indexes, and the indexes behind longs and doubles stay empty. This holds exactly for
      pools of less than 32768 indexes. The length of a longer one is written in sixteen bits, and
      what they read as is a negative number or the length of another pool. */
  lemma PoolRoundTrip(c: ConstPool.ClassData, before: seq<byte>, after: seq<byte>)
    requires c.Valid() && c.Numbered(Ranked(c.ranks, 3))
    requires forall id | 0 <= id < |c.values| :: !TooLong(c.values[id])
    ensures AllInside(c.values, c.args, Ranked(c.ranks, 3))
    ensures var bytes := ShortOf(|c.pool|) + PoolBytes(c.values, c.args, Ranked(c.ranks, 3));
            var r := ReadPool(before + bytes + after, |before|);
            && (r.Pool? && ReadsAs(c, r.rows) <==> |c.pool| < 0x8000)
            && (|c.pool| < 0x8000 ==> r.next == |before| + |bytes|)
            && (|c.pool| < 0x8000 ==> |r.rows| == |c.pool| && forall id | 0 <= id < |c.values| ::
                 && 1 <= c.args[id] < |r.rows|
                 && match c.values[id]
                    case Utf8(text) => r.rows[c.args[id]] == Row(1, Text(text))
                    case Num(isFloat, n) => r.rows[c.args[id]] == Row(if isFloat then 4 else 3, Number(S32(n)))
                    case Wide(isDouble, hi, lo) =>
                      r.rows[c.args[id]] == Row(if isDouble then 6 else 5, WideNumber(S32(hi), S32(lo)))
                    case Ref(isString, cell) =>
                      r.rows[c.args[id]] == Row(if isString then 8 else 7, CPX(c.args[cell]))
                    case Pair(tag, left, right) =>
                      r.rows[c.args[id]] == Row(tag, CPX2(c.args[left], c.args[right])))
  {
    hide Slots, PoolOf, IndexOf, PoolBytes, ConstBytes, Parse, RowOf, Ranked, GetShort, ReadFrom, Filled, ShortOf, S16;
    var ids := Ranked(c.ranks, 3);
    var body := PoolBytes(c.values, c.args, ids);
    var bytes := ShortOf(|c.pool|) + body;
    var input, at := before + bytes + after, |before|;
    LengthReadsBack(c, before, body + after);
    assert before + ShortOf(|c.pool|) + (body + after) == input;
    LengthKeptIff(|c.pool|);
    if |c.pool| < 0x8000 {
      assert input[at..at + |bytes|] == bytes;
      SubSlice(input, at, bytes, 2, |body|);
      assert bytes[2..2 + |body|] == body;
      EntryAt(c.values, ids, 0);
      NoBytesYet(c.values, c.args, ids);
      RestReadsBack(c.values, c.args, ids, 0, input, at + 2, NoRows(|c.pool|));
      var r := ReadPool(input, at);
      FilledIsRead(c, r.rows);
      RowsSpelledOut(c, r.rows);
    } else if S16(|c.pool|) >= 0 {
      RowsAsMany(input, at + 2, 1, NoRows(S16(|c.pool|)));
    }
  }

  /** The length is read as the sixteen bits it is written in, signed. */
  lemma LengthReadsBack(c: ConstPool.ClassData, before: seq<byte>, after: seq<byte>)
    ensures var n := S16(|c.pool|);
            ReadPool(before + ShortOf(|c.pool|) + after, |before|)
            == if n < 0 then Error else ReadFrom(before + ShortOf(|c.pool|) + after, |before| + 2, 1, NoRows(n))
  {
    hide GetShort, ReadFrom, ShortOf, S16;
    var input, at := before + ShortOf(|c.pool|) + after, |before|;
    assert input[at..at + 2] == ShortOf(|c.pool|);
    ShortRoundTrip(input, at, |c.pool|);
  }

  lemma LengthKeptIff(n: nat)
    ensures S16(n) == n <==> n < 0x8000
  {
  }

  lemma {:induction false} RowsAsMany(input: seq<byte>, at: nat, i: nat, rows: seq<Row>)
    ensures var r := ReadFrom(input, at, i, rows); r.Pool? ==> |r.rows| == |rows|
    decreases |rows| - i
  {
    hide Parse;
    if i < |rows| {
      var p := Parse(input, at);
      if p.Parsed? {
        RowsAsMany(input, p.next, if TakesTwo(p.tag) then i + 2 else i + 1, rows[i := Row(p.tag, p.entry)]);
      }
    }
  }

  // ----- pools too long

  /** A class of `n` int constants. */
  ghost predicate OnlyInts(c: ConstPool.ClassData, n: nat)
    reads c
  {
    && c.Valid() && |c.values| == n && c.Numbered(Ranked(c.ranks, 3))
    && forall id | 0 <= id < n :: c.values[id] == Num(false, 0) && c.ranks[id] == 0
  }

  lemma IntPool(c: ConstPool.ClassData, n: nat)
    requires OnlyInts(c, n) && n > 0
    ensures |c.pool| == n + 1
  {
    hide Slots, OfRank, Ranked, IndexOf;
    AllRanked(c.ranks, 3);
    SlotForEach(c.values, Ranked(c.ranks, 3));
  }

  lemma {:induction false} AllRanked(ranks: seq<Rank>, rank: nat)
    requires rank > 0 && forall id | 0 <= id < |ranks| :: ranks[id] == 0
    ensures |Ranked(ranks, rank)| == |ranks|
  {
    hide OfRank, Ranked, Inside, Distinct;
    RankDone(ranks, rank - 1);
    CountOfRank(ranks, rank - 1, |ranks|);
    if rank == 1 {
      NoneRanked(ranks);
    } else {
      AllRanked(ranks, rank - 1);
    }
  }

  lemma {:induction false} CountOfRank(ranks: seq<Rank>, rank: nat, n: nat)
    requires n <= |ranks| && forall id | 0 <= id < |ranks| :: ranks[id] == 0
    ensures |OfRank(ranks, rank, n)| == if rank == 0 then n else 0
  {
    hide Inside, Distinct;
    if n > 0 {
      CountOfRank(ranks, rank, n - 1);
    }
  }

  lemma {:induction false} SlotForEach(values: seq<Const>, ids: seq<nat>)
    requires Inside(ids, |values|) && forall id | 0 <= id < |values| :: !values[id].Wide?
    ensures |Slots(values, ids)| == |ids|
  {
    if ids != [] {
      SlotForEach(values, ids[..|ids| - 1]);
    }
  }

  /** 32767 ints make a pool of 32768 indexes, which is refused. */
  lemma PoolIsRefused(c: ConstPool.ClassData, before: seq<byte>, after: seq<byte>)
    requires OnlyInts(c, 32767)
    ensures ReadPool(before + ShortOf(|c.pool|) + after, |before|) == Error
  {
    hide *;
    IntPool(c, 32767);
    LengthReadsBack(c, before, after);
    SignedLengths();
  }

  /** 65536 ints make a pool of 65537 indexes, which is taken for one without constants. */
  lemma PoolIsTakenForEmpty(c: ConstPool.ClassData, before: seq<byte>, after: seq<byte>)
    requires OnlyInts(c, 65536)
    ensures ReadPool(before + ShortOf(|c.pool|) + after, |before|) == Pool([Row(0, NoEntry)], |before| + 2)
  {
    hide *;
    IntPool(c, 65536);
    LengthReadsBack(c, before, after);
    SignedLengths();
    OneRow(before + ShortOf(|c.pool|) + after, |before| + 2);
  }

  lemma SignedLengths()
    ensures S16(32768) < 0 && S16(65537) == 1
  {
  }

  lemma OneRow(input: seq<byte>, at: nat)
    ensures ReadFrom(input, at, 1, NoRows(1)) == Pool([Row(0, NoEntry)], at)
  {
    assert NoRows(1) == [Row(0, NoEntry)];
  }

  lemma FilledIsRead(c: ConstPool.ClassData, rows: seq<Row>)
    requires c.Valid() && c.Numbered(Ranked(c.ranks, 3))
    requires AllInside(c.values, c.args, Ranked(c.ranks, 3))
    requires Filled(c.values, c.args, Ranked(c.ranks, 3), 0, NoRows(|c.pool|), rows)
    ensures ReadsAs(c, rows)
  {
    hide Slots, PoolOf, IndexOf, RowOf, Ranked;
    var ids := Ranked(c.ranks, 3);
    forall id | 0 <= id < |c.values|
      ensures 0 <= c.args[id] < |rows| && rows[c.args[id]] == RowOf(c.values, c.args, id)
    {
      assert id in ids by { RankedAll(c.ranks, id); }
      var k :| 0 <= k < |ids| && ids[k] == id;
    }
    forall i | 0 <= i < |rows| && (c.pool[i] == Dummy || c.pool[i] == Gap)
      ensures rows[i] == Row(0, NoEntry)
    {
      if rows[i] != NoRows(|c.pool|)[i] {
        var j :| 0 <= j < |ids| && i == IndexOf(c.values, ids, j);
        EntryAt(c.values, ids, j);
      }
    }
  }

  lemma RankedAll(ranks: seq<Rank>, id: nat)
    requires id < |ranks|
    ensures id in Ranked(ranks, 3)
  {
  }

  /** The rows, kind by kind. */
  lemma RowsSpelledOut(c: ConstPool.ClassData, rows: seq<Row>)
    requires c.Valid() && c.Numbered(Ranked(c.ranks, 3)) && |c.pool| < 0x8000 && ReadsAs(c, rows)
    ensures forall id | 0 <= id < |c.values| ::
              && 1 <= c.args[id] < |rows|
              && match c.values[id]
                 case Utf8(text) => rows[c.args[id]] == Row(1, Text(text))
                 case Num(isFloat, n) => rows[c.args[id]] == Row(if isFloat then 4 else 3, Number(S32(n)))
                 case Wide(isDouble, hi, lo) =>
                   rows[c.args[id]] == Row(if isDouble then 6 else 5, WideNumber(S32(hi), S32(lo)))
                 case Ref(isString, cell) => rows[c.args[id]] == Row(if isString then 8 else 7, CPX(c.args[cell]))
                 case Pair(tag, left, right) => rows[c.args[id]] == Row(tag, CPX2(c.args[left], c.args[right]))
  {
    hide Slots, PoolOf, IndexOf, Ranked, OfRank, S16, S32;
    forall id | 0 <= id < |c.values|
      ensures 1 <= c.args[id] && rows[c.args[id]] == RowOf(c.values, c.args, id)
    {
      IndexInPool(c, id);
    }
    forall id | 0 <= id < |c.values|
      ensures c.values[id].Ref? ==> EntryOf(c.values[id], c.args) == CPX(c.args[c.values[id].cell])
      ensures c.values[id].Pair? ==>
                EntryOf(c.values[id], c.args) == CPX2(c.args[c.values[id].left], c.args[c.values[id].right])
    {
      ReferencesKept(c, id);
    }
  }

  /** Below that length the references survive the sixteen bits they are written in. */
  lemma ReferencesKept(c: ConstPool.ClassData, id: nat)
    requires c.Valid() && c.Numbered(Ranked(c.ranks, 3)) && |c.pool| < 0x8000 && id < |c.values|
    ensures c.values[id].Ref? ==> EntryOf(c.values[id], c.args) == CPX(c.args[c.values[id].cell])
    ensures c.values[id].Pair? ==>
              EntryOf(c.values[id], c.args) == CPX2(c.args[c.values[id].left], c.args[c.values[id].right])
  {
    hide S16, Slots, PoolOf, IndexOf, Ranked, OfRank;
    var v := c.values[id];
    if v.Ref? {
      IndexInPool(c, v.cell);
    } else if v.Pair? {
      IndexInPool(c, v.left);
      IndexInPool(c, v.right);
    }
  }

  lemma IndexInPool(c: ConstPool.ClassData, id: nat)
    requires c.Valid() && c.Numbered(Ranked(c.ranks, 3)) && |c.pool| < 0x8000 && id < |c.values|
    ensures 1 <= c.args[id] < |c.pool| && S16(c.args[id]) == c.args[id]
  {
    hide Slots, PoolOf, IndexOf, Ranked;
    var ids := Ranked(c.ranks, 3);
    RankedAll(c.ranks, id);
    var k :| 0 <= k < |ids| && ids[k] == id;
    EntryAt(c.values, ids, k);
    EntryAt(c.values, ids, 0);
    IndexGrows(c.values, ids, 0, k);
  }
}
