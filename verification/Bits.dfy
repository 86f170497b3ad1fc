/** Unsigned machine words and the mask-and-shift operations of the C and Java
    sources, defined on non-negative integers bit by bit, with the lemmas that
    turn a masked or shifted word into a quotient and a remainder. */
module Bits {

  type byte = x: int | 0 <= x < 256
  type uint32 = x: int | 0 <= x < 0x1_0000_0000

  /** The bytes of a word, most significant first, as both programs lay it out. */
  type Word = w: seq<byte> | |w| == 4 witness [0, 0, 0, 0]

  function Pow2(n: nat): (p: nat)
    ensures p >= 1
  {
    if n == 0 then 1 else 2 * Pow2(n - 1)
  }

  function And(x: nat, y: nat): (r: nat)
    ensures r <= x && r <= y
  {
    if x == 0 || y == 0 then 0
    else (x % 2) * (y % 2) + 2 * And(x / 2, y / 2)
  }

  function Or(x: nat, y: nat): nat {
    if x == 0 then y
    else if y == 0 then x
    else (if x % 2 + y % 2 > 0 then 1 else 0) + 2 * Or(x / 2, y / 2)
  }

  function Wrap32(x: int): uint32 {
    x % 0x1_0000_0000
  }

  function Shl(x: uint32, n: nat): uint32
    decreases n
  {
    if n == 0 then x else Shl(Wrap32(2 * x), n - 1)
  }

  function Shr(x: nat, n: nat): nat {
    if n == 0 then x else Shr(x / 2, n - 1)
  }

  /** Reading a quotient and a remainder off a product form. */
  lemma DivModUnique(x: int, m: int, q: int, r: int)
    requires 0 < m && 0 <= r < m && x == q * m + r
    ensures x / m == q && x % m == r
  {
    var q', r' := x / m, x % m;
    assert x == q' * m + r';
    assert (q - q') * m == r' - r;
    SmallMultiple(q - q', m);
  }

  /** The only multiple of `m` strictly between `-m` and `m` is zero. */
  lemma SmallMultiple(d: int, m: int)
    requires 0 < m && -m < d * m < m
    ensures d == 0
  {
  }

  lemma Pow2Add(a: nat, b: nat)
    ensures Pow2(a + b) == Pow2(a) * Pow2(b)
  {
    if a > 0 {
      Pow2Add(a - 1, b);
      assert Pow2(a + b) == 2 * (Pow2(a - 1) * Pow2(b)) == Pow2(a) * Pow2(b);
    }
  }

  lemma Pow2Le(a: nat, b: nat)
    requires a <= b
    ensures Pow2(a) <= Pow2(b)
  {
    if a < b {
      Pow2Le(a, b - 1);
    }
  }

  lemma Pow2Values()
    ensures Pow2(0) == 1 && Pow2(2) == 4 && Pow2(3) == 8 && Pow2(4) == 16 && Pow2(5) == 32 && Pow2(8) == 256
            && Pow2(16) == 0x1_0000
    ensures Pow2(30) == 0x4000_0000 && Pow2(31) == 0x8000_0000 && Pow2(32) == 0x1_0000_0000
  {
    assert Pow2(4) == 16;
    Pow2Add(4, 4);
    Pow2Add(8, 8);
    Pow2Add(16, 16);
    assert Pow2(32) == 4 * Pow2(30);
  }

  /** Halving a dividend halves through an even divisor. */
  lemma HalveMod(x: nat, p: nat, m: nat)
    requires p > 0 && m == 2 * p
    ensures x % m == x % 2 + 2 * ((x / 2) % p)
    ensures x / m == (x / 2) / p
  {
    var h := x / 2;
    var q, r := h / p, h % p;
    assert h == q * p + r;
    DoubleFactor(q, p);
    DivModUnique(x, m, q, x % 2 + 2 * r);
  }

  /** Shifting right divides by a power of two, rounding down. */
  lemma {:induction false} ShrIsDivision(x: nat, n: nat)
    ensures Shr(x, n) == x / Pow2(n)
  {
    if n > 0 {
      var p, m := Pow2(n - 1), Pow2(n);
      assert m == 2 * p;
      ShrIsDivision(x / 2, n - 1);
      hide Pow2;
      HalveMod(x, p, m);
    }
  }

  /** Shifting left multiplies by a power of two while no bit is lost. */
  lemma {:induction false} ShlIsProduct(x: uint32, n: nat)
    requires x * Pow2(n) < 0x1_0000_0000
    ensures Shl(x, n) == x * Pow2(n)
    decreases n
  {
    hide Pow2, Shl;
    ShlIsProductOf(x, n, x * Pow2(n));
  }

  lemma {:induction false} ShlIsProductOf(x: uint32, n: nat, y: nat)
    requires x * Pow2(n) == y < 0x1_0000_0000
    ensures Shl(x, n) == y
    decreases n
  {
    if n > 0 {
      var p := Pow2(n - 1);
      assert Pow2(n) == 2 * p && Shl(x, n) == Shl(Wrap32(2 * x), n - 1);
      hide Pow2, Shl;
      DoubleFactor(x, p);
      MulAtLeast(x, p);
      assert Wrap32(2 * x) == 2 * x;
      ShlIsProductOf(2 * x, n - 1, y);
    }
  }

  lemma MulAtLeast(x: nat, p: nat)
    requires p >= 1
    ensures x * p >= x
  {
  }

  lemma {:induction false} AndOddMask(x: nat, p: nat, mask: nat)
    requires p >= 1 && mask == 2 * p - 1
    ensures And(x, mask) == x % 2 + 2 * And(x / 2, p - 1)
  {
  }

  lemma {:induction false} AndLowMask(x: nat, n: nat)
    ensures And(x, Pow2(n) - 1) == x % Pow2(n)
  {
    hide Pow2, And;
    Pow2Next(n);
    if n == 0 {
      AndNothing(x);
    } else {
      var p, m := Pow2(n - 1), Pow2(n);
      AndLowMask(x / 2, n - 1);
      AndOddMask(x, p, m - 1);
      HalveMod(x, p, m);
    }
  }

  lemma Pow2Next(n: nat)
    ensures if n == 0 then Pow2(n) == 1 else Pow2(n) == 2 * Pow2(n - 1)
  {
  }

  lemma AndNothing(x: nat)
    ensures And(x, 0) == 0 == x % 1
  {
  }

  lemma {:induction false} AndEvenMask(x: nat, m: nat)
    ensures And(x, 2 * m) == 2 * And(x / 2, m)
  {
    if x > 0 && m > 0 {
      assert (2 * m) % 2 == 0 && (2 * m) / 2 == m;
    }
  }

  lemma DoubleFactor(a: int, p: int)
    ensures a * (2 * p) == 2 * (a * p) == (2 * a) * p
  {
  }

  /** Masking with `n` ones shifted left by `r` keeps exactly that bit field. */
  lemma {:induction false} AndFieldMask(x: nat, n: nat, r: nat)
    ensures And(x, (Pow2(n) - 1) * Pow2(r)) == (x / Pow2(r) % Pow2(n)) * Pow2(r)
  {
    if r == 0 {
      AndLowMask(x, n);
    } else {
      var ones, p, q := Pow2(n) - 1, Pow2(r - 1), Pow2(r);
      assert q == 2 * p;
      hide Pow2, And;
      AndFieldMask(x / 2, n, r - 1);
      HalveMod(x, p, q);
      var field := x / q % Pow2(n);
      AndEvenMask(x, ones * p);
      DoubleFactor(ones, p);
      DoubleFactor(field, p);
    }
  }

  lemma {:induction false} OrEven(h: nat, y: nat)
    ensures Or(2 * h, y) == y % 2 + 2 * Or(h, y / 2)
  {
    if h > 0 {
      assert (2 * h) % 2 == 0 && (2 * h) / 2 == h;
    }
  }

  /** Or-ing a shifted word with a value that fits below the shift adds them. */
  lemma {:induction false} OrDisjoint(x: nat, y: nat, k: nat)
    requires y < Pow2(k)
    ensures Or(x * Pow2(k), y) == x * Pow2(k) + y
  {
    if k > 0 {
      OrDisjoint(x, y / 2, k - 1);
      var p := Pow2(k - 1);
      assert Pow2(k) == 2 * p;
      hide Pow2;
      DoubleFactor(x, p);
      OrEven(x * p, y);
    }
  }

  /** Clearing the low two bits of a word rounds down to a word boundary. */
  lemma WordAlign(a: uint32)
    ensures And(a, 0xFFFF_FFFC) == a - a % 4
  {
    hide Pow2, And;
    Pow2Values();
    AndFieldMask(a, 30, 2);
    WholeWords(a);
  }

  lemma WholeWords(a: uint32)
    ensures a / 4 % 0x4000_0000 * 4 == a - a % 4
  {
    assert a / 4 < 0x4000_0000;
  }

  /** The part of an offset that lies within a word, added to the part that does not. */
  lemma OffsetSum(a: nat)
    ensures (a - a % 4) % 16 + a % 4 == a % 16
  {
    var q, r := a / 16, a % 16;
    assert a == q * 16 + r && a % 4 == r % 4;
    DivModUnique(a - r % 4, 16, q, r - r % 4);
  }
}
