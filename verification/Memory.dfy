/** The common memory behind the caches: 2^32 bytes, read and written one aligned
    word at a time. Any word may refuse reads or writes; a refused access changes
    nothing and is reported to the caller. */
module CommonMemory {
  import opened Bits

  predicate Aligned(addr: int) {
    0 <= addr && addr % 4 == 0 && addr + 4 <= 0x1_0000_0000
  }

  /** `m` with the bytes `data` stored from address `addr` on. */
  function Store(m: seq<byte>, addr: nat, data: seq<byte>): (m': seq<byte>)
    requires addr + |data| <= |m|
    ensures |m'| == |m|
    ensures forall a :: 0 <= a < |m| ==> m'[a] == if addr <= a < addr + |data| then data[a - addr] else m[a]
  {
    m[..addr] + data + m[addr + |data|..]
  }

  /** No word of the `size` bytes from `base` on refuses the access. */
  predicate LineAccepted(faults: set<int>, base: int, size: int) {
    forall a | base <= a < base + size && (a - base) % 4 == 0 :: a !in faults
  }

  lemma LineAcceptedNext(faults: set<int>, base: int, size: nat)
    requires LineAccepted(faults, base, size) && base + size !in faults && size % 4 == 0
    ensures LineAccepted(faults, base, size + 4)
  {
    forall a | base <= a < base + size + 4 && (a - base) % 4 == 0
      ensures a !in faults
    {
      assert a < base + size || a == base + size;
    }
  }

  lemma NoneRefused(faults: set<int>, base: int)
    ensures LineAccepted(faults, base, 0)
  {
  }

  /** The first word that refuses, of those from `base` on, is `done` bytes further. */
  predicate StopsAt(faults: set<int>, base: int, done: nat) {
    done % 4 == 0 && LineAccepted(faults, base, done) && base + done in faults
  }

  /** So there is but one place at which the transfer of a line can stop. */
  lemma StopsOnce(faults: set<int>, base: int, size: nat, d: nat, e: nat)
    requires StopsAt(faults, base, d) && StopsAt(faults, base, e)
    ensures d == e
    ensures d < size ==> !LineAccepted(faults, base, size)
  {
    assert (base + d - base) % 4 == 0 && (base + e - base) % 4 == 0;
  }

  /** Consecutive stores make one longer store. */
  lemma StoreAppend(m: seq<byte>, addr: nat, x: seq<byte>, y: seq<byte>)
    requires addr + |x| + |y| <= |m|
    ensures Store(Store(m, addr, x), addr + |x|, y) == Store(m, addr, x + y)
  {
  }

  lemma WordAppended(m: seq<byte>, base: nat, i: nat)
    requires base + i + 4 <= |m|
    ensures m[base..base + i] + m[base + i..base + i + 4] == m[base..base + i + 4]
  {
  }

  lemma StoreNothing(line: seq<byte>)
    ensures Store(line, 0, []) == line
  {
  }

  lemma StoreAll(line: seq<byte>, data: seq<byte>)
    requires |data| == |line|
    ensures Store(line, 0, data) == data
  {
  }

  class Memory {
    var bytes: seq<byte>
    var readFaults: set<int>
    var writeFaults: set<int>

    ghost predicate Valid()
      reads this
    {
      |bytes| == 0x1_0000_0000
    }

    method Read(addr: int) returns (ok: bool, data: Word)
      requires Valid() && Aligned(addr)
      ensures ok <==> addr !in readFaults
      ensures ok ==> data == bytes[addr..addr + 4]
    {
      ok := addr !in readFaults;
      data := bytes[addr..addr + 4];
    }

    method Write(addr: int, data: Word) returns (ok: bool)
      requires Valid() && Aligned(addr)
      modifies this`bytes
      ensures Valid()
      ensures ok <==> addr !in writeFaults
      ensures bytes == if ok then Store(old(bytes), addr, data) else old(bytes)
    {
      ok := addr !in writeFaults;
      if ok {
        bytes := Store(bytes, addr, data);
      }
    }

    /** Write a line to memory word by word; a refused word stops the copy after `done` bytes. */
    method WriteLine(base: int, line: seq<byte>) returns (ok: bool, ghost done: nat)
      requires Valid() && |line| % 4 == 0 && base % 4 == 0 && 0 <= base && base + |line| <= 0x1_0000_0000
      modifies this`bytes
      ensures Valid() && done <= |line| && done % 4 == 0
      ensures bytes == Store(old(bytes), base, line[..done])
      ensures ok <==> LineAccepted(writeFaults, base, |line|)
      ensures ok ==> done == |line|
      ensures !ok ==> StopsAt(writeFaults, base, done)
    {
      hide Store, LineAccepted;
      NoneRefused(writeFaults, base);
      var i, addr := 0, base;
      assert bytes == Store(bytes, base, line[..0]);
      while i < |line|
        invariant i <= |line| && i % 4 == 0 && addr == base + i
        invariant Valid() && bytes == Store(old(bytes), base, line[..i])
        invariant LineAccepted(writeFaults, base, i)
      {
        var written := Write(addr, line[i..i + 4]);
        if !written {
          StopsOnce(writeFaults, base, |line|, i, i);
          return false, i;
        }
        StoreAppend(old(bytes), base, line[..i], line[i..i + 4]);
        WordAppended(line, 0, i);
        LineAcceptedNext(writeFaults, base, i);
        i, addr := i + 4, addr + 4;
      }
      return true, i;
    }
  }
}
