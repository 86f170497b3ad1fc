/** Java's int, short and byte values and the big-endian streams that carry them. */
module JavaInts {
  import opened Bits

  /** The low 8, 16 or 32 bits of an integer, read as a two's complement number. */
  function S8(x: int): int {
    var y := x % 0x100;
    if y < 0x80 then y else y - 0x100
  }

  function S16(x: int): int {
    var y := x % 0x1_0000;
    if y < 0x8000 then y else y - 0x1_0000
  }

  function S32(x: int): int {
    var y := x % 0x1_0000_0000;
    if y < 0x8000_0000 then y else y - 0x1_0000_0000
  }

  type int32 = x: int | -0x8000_0000 <= x < 0x8000_0000

  predicate Fits16(x: int) {
    -0x8000 <= x < 0x8000
  }

  /** What writeByte, writeShort and writeInt append. */
  function ByteOf(x: int): seq<byte> {
    [x % 256]
  }

  function ShortOf(x: int): (s: seq<byte>)
    ensures |s| == 2
  {
    [x / 0x100 % 256, x % 256]
  }

  function IntOf(x: int): (s: seq<byte>)
    ensures |s| == 4
  {
    [x / 0x100_0000 % 256, x / 0x1_0000 % 256, x / 0x100 % 256, x % 256]
  }

  /** The reads of the disassembler; `code` stands for Java's signed byte array. */
  function GetUbyte(code: seq<byte>, pc: nat): int
    requires pc < |code|
  {
    code[pc]
  }

  function GetShort(code: seq<byte>, pc: nat): int
    requires pc + 1 < |code|
  {
    S8(code[pc]) * 0x100 + code[pc + 1]
  }

  function GetInt(code: seq<byte>, pc: nat): int
    requires pc + 3 < |code|
  {
    S32(GetShort(code, pc) * 0x1_0000 + GetShort(code, pc + 2) % 0x1_0000)
  }

  /** Reading back what was written keeps the low-order bits. */
  lemma ShortRoundTrip(code: seq<byte>, pc: nat, x: int)
    requires pc + 2 <= |code| && code[pc..pc + 2] == ShortOf(x)
    ensures GetShort(code, pc) == S16(x)
  {
    assert code[pc] == code[pc..pc + 2][0] && code[pc + 1] == code[pc..pc + 2][1];
    ShortValue(x);
  }

  lemma ShortValue(x: int)
    ensures S8(x / 0x100 % 256) * 0x100 + x % 256 == S16(x)
  {
    var h := x / 0x100;
    assert x == 0x100 * h + x % 256;
    var q, r := h / 256, h % 256;
    assert x == 0x1_0000 * q + 0x100 * r + x % 256;
    assert x % 0x1_0000 == 0x100 * r + x % 256;
  }

  /** An int is its two halves. */
  lemma IntHalves(x: int)
    ensures IntOf(x) == ShortOf(x / 0x1_0000) + ShortOf(x)
  {
    var h, r := x / 0x100_0000, x % 0x100_0000;
    assert x / 0x1_0000 == h * 0x100 + r / 0x1_0000;
  }

  lemma S32FromHalves(x: int)
    ensures S32(S16(x / 0x1_0000) * 0x1_0000 + S16(x) % 0x1_0000) == S32(x)
  {
    var hi := x / 0x1_0000;
    var k := (S16(hi) - hi) / 0x1_0000;
    assert S16(hi) == hi + 0x1_0000 * k;
    assert S16(x) % 0x1_0000 == x % 0x1_0000;
    S32Period(x, k);
  }

  lemma S32Period(x: int, k: int)
    ensures S32(x + 0x1_0000_0000 * k) == S32(x)
  {
  }

  lemma IntRoundTrip(code: seq<byte>, pc: nat, x: int)
    requires pc + 4 <= |code| && code[pc..pc + 4] == IntOf(x)
    ensures GetInt(code, pc) == S32(x)
  {
    hide S16, S32, S8, ShortOf, IntOf;
    IntHalves(x);
    assert code[pc..pc + 2] == code[pc..pc + 4][..2] == ShortOf(x / 0x1_0000);
    assert code[pc + 2..pc + 4] == code[pc..pc + 4][2..] == ShortOf(x);
    ShortRoundTrip(code, pc, x / 0x1_0000);
    ShortRoundTrip(code, pc + 2, x);
    S32FromHalves(x);
  }

  lemma S16Low(x: int)
    ensures S16(x) % 0x1_0000 == x % 0x1_0000
  {
  }

  lemma S16Identity(x: int)
    ensures Fits16(x) <==> S16(x) == x
  {
  }
}
