/** Splitting a 32-bit address into tag, index and offset fields, and rejoining
    them. A geometry is given by the leftmost and rightmost bit of the index
    field, which the cache initialisers choose. */
module AddressFields {
  import opened Bits

  /** Both caches keep at least 3 offset bits, and index bits up to bit 13. */
  predicate Geometry(l: nat, r: nat) {
    3 <= r < l <= 13
  }

  function GetFieldValue(value: uint32, left: nat, right: nat): nat
    requires right <= left < 32 && left - right < 31
  {
    var range := left - right + 1;
    var mask := Shl(Wrap32(Shl(1, range) - 1), right);
    Shr(And(value, mask), right)
  }

  function MakeAddr(tag: uint32, index: uint32, tagShift: nat, shift: nat): nat {
    Or(Shl(tag, tagShift), Shl(index, shift))
  }

  /** The fields of `a` under the geometry `(l, r)`. */
  function Index(l: nat, r: nat, a: uint32): nat
    requires Geometry(l, r)
  {
    GetFieldValue(a, l, r)
  }

  function Tag(l: nat, a: uint32): nat
    requires 3 < l <= 13
  {
    GetFieldValue(a, 31, l + 1)
  }

  /** First address of the line that `a` lies in, computed as the sources do on a write-back or a fill. */
  function LineBase(l: nat, r: nat, tag: uint32, index: uint32): nat
    requires Geometry(l, r)
  {
    MakeAddr(tag, index, l + 1, r)
  }

  function Entries(l: nat, r: nat): nat
    requires Geometry(l, r)
  {
    Pow2(l - r + 1)
  }

  lemma MulMonotone(a: nat, b: nat, c: nat)
    requires a <= b
    ensures a * c <= b * c
  {
  }

  lemma MulPositive(a: int, b: int)
    requires a > 0 && b > 0
    ensures a * b > 0
  {
  }

  /** `m` blocks of size `2^r` end before `2^(n+r)` when `m` is below `2^n`. */
  lemma BlockBelow(m: nat, n: nat, r: nat)
    requires m < Pow2(n)
    ensures m * Pow2(r) + Pow2(r) <= Pow2(n + r)
  {
    hide Pow2;
    Pow2Add(n, r);
    MulMonotone(m + 1, Pow2(n), Pow2(r));
  }

  lemma Ones(range: nat)
    requires range < 32
    ensures Wrap32(Shl(1, range) - 1) == Pow2(range) - 1 < 0x1_0000_0000
  {
    hide Shl, Pow2;
    Pow2Values();
    Pow2Le(range, 31);
    ShlIsProduct(1, range);
  }

  /** The mask the C code builds out of two shifts. */
  lemma MaskValue(range: nat, right: nat)
    requires 0 < range < 32 && range + right <= 32
    ensures Shl(Wrap32(Shl(1, range) - 1), right) == (Pow2(range) - 1) * Pow2(right)
  {
    hide Pow2;
    Ones(range);
    BlockBelow(Pow2(range) - 1, range, right);
    Pow2Le(range + right, 32);
    assert Pow2(32) == 0x1_0000_0000 by {
      Pow2Values();
    }
    ShlIsProduct(Pow2(range) - 1, right);
  }

  /** The masked shift of the C code is a quotient followed by a remainder. */
  lemma FieldIsDivMod(a: uint32, left: nat, right: nat)
    requires right <= left < 32 && left - right < 31
    ensures GetFieldValue(a, left, right) == a / Pow2(right) % Pow2(left - right + 1)
  {
    hide Pow2;
    var range, p := left - right + 1, Pow2(right);
    MaskValue(range, right);
    AndFieldMask(a, range, right);
    var field := a / p % Pow2(range);
    ShrIsDivision(field * p, right);
    DivModUnique(field * p, p, field, 0);
  }

  /** Dividing by a product is dividing twice; the remainders nest the same way. */
  lemma DivDiv(a: nat, p: nat, m: nat)
    requires p > 0 && m > 0
    ensures p * m > 0 && a / (p * m) == a / p / m
    ensures a % (p * m) == (a / p % m) * p + a % p
  {
    var h, o := a / p, a % p;
    var q, s := h / m, h % m;
    MulPositive(p, m);
    calc {
      a;
      h * p + o;
      { assert h == q * m + s; }
      (q * m + s) * p + o;
      { Distribute(q, m, s, p); }
      q * (p * m) + s * p + o;
    }
    MulMonotone(s + 1, m, p);
    BlockFits(s, p, o, m);
    DivModUnique(a, p * m, q, s * p + o);
  }

  lemma BlockFits(s: nat, p: nat, o: nat, m: nat)
    requires (s + 1) * p <= m * p && o < p
    ensures s * p + o < p * m
  {
    assert (s + 1) * p == s * p + p;
  }

  lemma Distribute(q: int, m: int, s: int, p: int)
    ensures (q * m + s) * p == q * (p * m) + s * p
  {
    assert (q * m) * p == q * (p * m);
  }

  lemma QuotientBelow(a: nat, p: nat, m: nat)
    requires p > 0 && a < m * p
    ensures a / p < m && a / p % m == a / p
  {
    var q := a / p;
    assert a == q * p + a % p;
    if q >= m {
      MulMonotone(m, q, p);
      assert false;
    }
    DivModUnique(q, m, 0, q);
  }

  /** An address is its three fields put together, and its fields stay in range. */
  lemma SplitAddress(l: nat, r: nat, a: uint32)
    requires Geometry(l, r)
    ensures Index(l, r, a) < Entries(l, r)
    ensures Tag(l, a) < Pow2(31 - l)
    ensures a == Tag(l, a) * Pow2(l + 1) + Index(l, r, a) * Pow2(r) + a % Pow2(r)
  {
    hide Pow2;
    FieldIsDivMod(a, l, r);
    FieldIsDivMod(a, 31, l + 1);
    Pow2Add(r, l - r + 1);
    Pow2Add(31 - l, l + 1);
    Pow2Values();
    SplitNumber(a, Pow2(r), Pow2(l - r + 1), Pow2(31 - l), Pow2(l + 1));
  }

  lemma SplitNumber(a: nat, q: nat, m: nat, n: nat, p: nat)
    requires q > 0 && m > 0 && n > 0 && p == q * m && a < n * p
    ensures p > 0 && a == (a / p % n) * p + (a / q % m) * q + a % q
  {
    DivDiv(a, q, m);
    QuotientBelow(a, p, n);
    assert a == (a / p) * p + a % p;
  }

  /** Two in-range splittings of the same number are the same splitting. */
  lemma FieldsAgree(p: nat, q: nat, t: nat, i: nat, o: nat, t': nat, i': nat, o': nat)
    requires o < q && o' < q && i * q + q <= p && i' * q + q <= p
    requires t * p + i * q + o == t' * p + i' * q + o'
    ensures t == t' && i == i' && o == o'
  {
    var low, low' := i * q + o, i' * q + o';
    DivModUnique(t * p + low, p, t, low);
    DivModUnique(t' * p + low', p, t', low');
    DivModUnique(low, q, i, o);
    DivModUnique(low', q, i', o');
  }

  /** Joining fields in range adds them up without loss. */
  lemma LineBaseSum(l: nat, r: nat, tag: nat, index: nat)
    requires Geometry(l, r) && tag < Pow2(31 - l) && index < Entries(l, r)
    ensures tag < 0x1_0000_0000 && index < 0x1_0000_0000
    ensures LineBase(l, r, tag, index) == tag * Pow2(l + 1) + index * Pow2(r)
    ensures index * Pow2(r) + Pow2(r) <= Pow2(l + 1)
    ensures LineBase(l, r, tag, index) + Pow2(r) <= 0x1_0000_0000
  {
    hide Pow2, Shl, Or;
    Pow2Values();
    Pow2Le(31 - l, 32);
    Pow2Le(l + 1, 32);
    BlockBelow(tag, 31 - l, l + 1);
    BlockBelow(index, l - r + 1, r);
    Pow2Le(l - r + 1, l + 1);
    ShlIsProduct(tag, l + 1);
    ShlIsProduct(index, r);
    OrDisjoint(tag, index * Pow2(r), l + 1);
  }

  /** Fields in range can be read back from the address they are joined into. */
  lemma JoinAddress(l: nat, r: nat, tag: nat, index: nat, off: nat)
    requires Geometry(l, r)
    requires tag < Pow2(31 - l) && index < Entries(l, r) && off < Pow2(r)
    ensures tag < 0x1_0000_0000 && index < 0x1_0000_0000
    ensures 0 <= LineBase(l, r, tag, index) + off < 0x1_0000_0000
    ensures Index(l, r, LineBase(l, r, tag, index) + off) == index
    ensures Tag(l, LineBase(l, r, tag, index) + off) == tag
    ensures (LineBase(l, r, tag, index) + off) % Pow2(r) == off
  {
    hide Pow2;
    LineBaseSum(l, r, tag, index);
    var a := LineBase(l, r, tag, index) + off;
    SplitAddress(l, r, a);
    LineBaseSum(l, r, tag, Index(l, r, a));
    FieldsAgree(Pow2(l + 1), Pow2(r), tag, index, off, Tag(l, a), Index(l, r, a), a % Pow2(r));
  }

  /** Membership in a line is agreement of index and tag. */
  lemma LineMember(l: nat, r: nat, tag: nat, index: nat, b: uint32)
    requires Geometry(l, r) && tag < Pow2(31 - l) && index < Entries(l, r)
    ensures tag < 0x1_0000_0000 && index < 0x1_0000_0000
    ensures var base := LineBase(l, r, tag, index);
            (Index(l, r, b) == index && Tag(l, b) == tag) <==> base <= b < base + Pow2(r)
    ensures Index(l, r, b) == index && Tag(l, b) == tag ==> b == LineBase(l, r, tag, index) + b % Pow2(r)
  {
    hide Pow2;
    LineBaseSum(l, r, tag, index);
    var base := LineBase(l, r, tag, index);
    if base <= b < base + Pow2(r) {
      JoinAddress(l, r, tag, index, b - base);
    }
    SplitAddress(l, r, b);
  }

  lemma LineMembers(l: nat, r: nat, tag: nat, index: nat)
    requires Geometry(l, r) && tag < Pow2(31 - l) && index < Entries(l, r)
    ensures tag < 0x1_0000_0000 && index < 0x1_0000_0000
    ensures var base := LineBase(l, r, tag, index);
            && base % Pow2(r) == 0
            && base <= base + Pow2(r) <= 0x1_0000_0000
            && forall b: uint32 :: (Index(l, r, b) == index && Tag(l, b) == tag) <==> base <= b < base + Pow2(r)
  {
    hide Pow2;
    JoinAddress(l, r, tag, index, 0);
    LineBaseSum(l, r, tag, index);
    forall b: uint32
      ensures (Index(l, r, b) == index && Tag(l, b) == tag)
          <==> LineBase(l, r, tag, index) <= b < LineBase(l, r, tag, index) + Pow2(r)
    {
      LineMember(l, r, tag, index, b);
    }
  }

  /** The tag of a line fits the bit-field that stores it: 23 bits when the index
      ends at bit 8 or above (data cache), 22 bits at bit 9 or above (instruction cache). */
  lemma TagFits(l: nat, a: uint32)
    requires 8 <= l <= 13
    ensures Tag(l, a) < Pow2(23)
    ensures l >= 9 ==> Tag(l, a) < Pow2(22)
  {
    hide Pow2, Tag;
    SplitAddress(l, 4, a);
    Pow2Le(31 - l, 23);
    if l >= 9 {
      Pow2Le(31 - l, 22);
    }
  }
}
