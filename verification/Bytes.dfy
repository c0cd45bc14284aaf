/** 32-bit words and their big-endian layout in memory (the CPU is big-endian). */
module Bytes {
  import opened Machine

  /** The number that `n` bytes at `a` spell, most significant byte first. */
  function BigEndian(m: seq<byte>, a: nat, n: nat): (v: nat)
    requires a + n <= |m| && n <= 4
    ensures v < [1, 0x100, 0x1_0000, 0x100_0000, TWO_TO_THE_32][n]
  {
    if n == 0 then 0 else BigEndian(m, a, n - 1) * 256 + m[a + n - 1]
  }

  function LoadWord(m: seq<byte>, a: nat): (w: uint32)
    requires a + 4 <= |m|
  {
    BigEndian(m, a, 4)
  }

  /** The first byte of a word in memory is its most significant one. */
  lemma WordIsBigEndian(m: seq<byte>, a: nat)
    requires a + 4 <= |m|
    ensures LoadWord(m, a) ==
            m[a] as int * 0x100_0000 + m[a + 1] as int * 0x1_0000 + m[a + 2] as int * 0x100 + m[a + 3]
  {
    assert BigEndian(m, a, 0) == 0 && BigEndian(m, a, 1) == m[a];
    assert BigEndian(m, a, 2) == m[a] as int * 0x100 + m[a + 1];
    assert BigEndian(m, a, 3) == BigEndian(m, a, 2) * 0x100 + m[a + 2];
  }

  /** The bytes of a word, most significant first. */
  function WordBytes(w: uint32): (b: seq<byte>)
    ensures |b| == 4
  {
    [w / 0x100_0000, w / 0x1_0000 % 256, w / 0x100 % 256, w % 256]
  }

  lemma WordDigits(w: uint32)
    ensures w / 0x100_0000 * 256 + w / 0x1_0000 % 256 == w / 0x1_0000
    ensures w / 0x1_0000 * 256 + w / 0x100 % 256 == w / 0x100
    ensures w / 0x100 * 256 + w % 256 == w
  {
    assert w / 0x1_0000 / 256 == w / 0x100_0000;
    assert w / 0x100 / 256 == w / 0x1_0000;
  }

  lemma LoadedIsStored(m: seq<byte>, a: nat, w: uint32)
    requires a + 4 <= |m| && m[a..a + 4] == WordBytes(w)
    ensures LoadWord(m, a) == w
  {
    var b := m[a..a + 4];
    WordDigits(w);
    assert m[a] == b[0] && m[a + 1] == b[1] && m[a + 2] == b[2] && m[a + 3] == b[3];
    assert BigEndian(m, a, 0) == 0;
    assert BigEndian(m, a, 1) == b[0];
    assert BigEndian(m, a, 2) == w / 0x1_0000;
    assert BigEndian(m, a, 3) == w / 0x100;
    assert BigEndian(m, a, 4) == w / 0x100 * 256 + b[3];
  }

  lemma {:induction false} SameBytesSameNumber(m0: seq<byte>, m: seq<byte>, a: nat, n: nat)
    requires a + n <= |m| && a + n <= |m0| && n <= 4 && forall x :: a <= x < a + n ==> m[x] == m0[x]
    ensures BigEndian(m, a, n) == BigEndian(m0, a, n)
  {
    if n == 0 {
    } else {
      SameBytesSameNumber(m0, m, a, n - 1);
    }
  }

  /** Stores a word; no other byte changes. */
  method StoreWord(mem: array<byte>, a: nat, w: uint32)
    requires a + 4 <= mem.Length
    modifies mem
    ensures LoadWord(mem[..], a) == w
    ensures forall x :: 0 <= x < mem.Length && !(a <= x < a + 4) ==> mem[x] == old(mem[x])
  {
    var b := WordBytes(w);
    mem[a], mem[a + 1], mem[a + 2], mem[a + 3] := b[0], b[1], b[2], b[3];
    assert mem[..][a..a + 4] == b;
    LoadedIsStored(mem[..], a, w);
  }
}
