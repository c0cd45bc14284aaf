/** lwip_standard_chksum against the one's-complement sum of RFC 1071. */
module Checksum {
  import opened Machine

  // ---------------------------------------------------------------- RFC 1071, section 1

  /** One's-complement addition: a carry out of the top goes back in at the bottom. */
  function OnesAdd(a: uint16, b: uint16): uint16 {
    if a + b >= 0x1_0000 then a + b - 0xFFFF else a + b
  }

  /** The one's-complement sum of the 16-bit words of `s` from byte `i` on, a last odd byte being padded with zero. */
  function OnesSumFrom(s: seq<byte>, i: nat): uint16
    decreases |s| - i
  {
    if i >= |s| then 0
    else if i + 1 == |s| then OnesAdd(s[i] as int * 0x100, 0)
    else OnesAdd(s[i] as int * 0x100 + s[i + 1], OnesSumFrom(s, i + 2))
  }

  function OnesSum(s: seq<byte>): uint16 {
    OnesSumFrom(s, 0)
  }

  // ---------------------------------------------------------------- the ordinary sum behind it

  function WordSum(s: seq<byte>, i: nat): nat
    decreases |s| - i
  {
    if i >= |s| then 0
    else if i + 1 == |s| then s[i] as int * 0x100
    else s[i] as int * 0x100 + s[i + 1] + WordSum(s, i + 2)
  }

  /** The representative in 0..65535 of a sum, zero standing only for an all-zero sum. */
  function Canonical(n: nat): uint16 {
    if n == 0 then 0 else (n - 1) % 0xFFFF + 1
  }

  lemma CanonicalIs(n: nat, c: uint16, k: nat)
    requires n == c + 0xFFFF * k && (c == 0 <==> n == 0)
    ensures Canonical(n) == c
  {
    if n > 0 {
      assert (n - 1) == (c - 1) + 0xFFFF * k;
    }
  }

  lemma CanonicalMultiple(n: nat) returns (k: nat)
    ensures n == Canonical(n) + 0xFFFF * k && (Canonical(n) == 0 <==> n == 0)
  {
    k := if n == 0 then 0 else (n - 1) / 0xFFFF;
  }

  lemma CanonicalAdds(a: nat, b: nat)
    ensures Canonical(a + b) == OnesAdd(Canonical(a), Canonical(b))
  {
    var k := CanonicalMultiple(a);
    var l := CanonicalMultiple(b);
    var r := OnesAdd(Canonical(a), Canonical(b));
    CanonicalIs(a + b, r, if Canonical(a) + Canonical(b) >= 0x1_0000 then k + l + 1 else k + l);
  }

  lemma {:induction false} OnesSumIsCanonical(s: seq<byte>, i: nat)
    ensures OnesSumFrom(s, i) == Canonical(WordSum(s, i))
    decreases |s| - i
  {
    if i + 1 == |s| {
      CanonicalIs(s[i] as int * 0x100, s[i] as int * 0x100, 0);
    } else if i + 1 < |s| {
      OnesSumIsCanonical(s, i + 2);
      CanonicalIs(s[i] as int * 0x100 + s[i + 1], s[i] as int * 0x100 + s[i + 1], 0);
      CanonicalAdds(s[i] as int * 0x100 + s[i + 1], WordSum(s, i + 2));
    }
  }

  // ---------------------------------------------------------------- folding and swapping

  /** FOLD_U32T */
  function Fold(u: uint32): uint32 {
    u / 0x1_0000 + u % 0x1_0000
  }

  /** Two folds bring every 32-bit sum to its representative. */
  lemma TwoFoldsSuffice(u: uint32)
    ensures Fold(Fold(u)) == Canonical(u)
  {
    var hi, lo := u / 0x1_0000, u % 0x1_0000;
    var v := hi + lo;
    var c := v / 0x1_0000;
    assert Fold(v) + 0xFFFF * c == v;
    assert u == v + 0xFFFF * hi;
    CanonicalIs(u, Fold(v), hi + c);
  }

  /** SWAP_BYTES_IN_WORD */
  function SwapBytes(w: uint32): uint16 {
    w % 0x100 * 0x100 + w / 0x100 % 0x100
  }

  /** Swapping the bytes of a word multiplies it by 256 modulo 65535. */
  lemma SwapMultiplies(w: uint16)
    ensures SwapBytes(w) + 0xFFFF * (w / 0x100) == 0x100 * w && (SwapBytes(w) == 0 <==> w == 0)
  {
  }

  lemma SwapCanonical(n: nat)
    ensures SwapBytes(Canonical(n)) == Canonical(0x100 * n)
  {
    var k := CanonicalMultiple(n);
    var c := Canonical(n);
    SwapMultiplies(c);
    CanonicalIs(0x100 * n, SwapBytes(c), 0x100 * k + c / 0x100);
  }

  // ---------------------------------------------------------------- the two alignments

  /** What the accumulator holds before folding: at an odd address the first byte is a low byte. */
  function RawSum(s: seq<byte>, odd: bool): nat {
    if odd && s != [] then s[0] + WordSum(s, 1) else WordSum(s, 0)
  }

  /** Summing one byte off multiplies back to the aligned sum modulo 65535. */
  lemma {:induction false} OffByOne(s: seq<byte>, i: nat) returns (k: nat)
    requires i < |s|
    ensures 0x100 * (s[i] + WordSum(s, i + 1)) == WordSum(s, i) + 0xFFFF * k
    ensures s[i] + WordSum(s, i + 1) == 0 <==> WordSum(s, i) == 0
    decreases |s| - i
  {
    if i + 1 == |s| {
      k := 0;
    } else if i + 2 == |s| {
      k := s[i + 1];
    } else {
      var l := OffByOne(s, i + 2);
      k := s[i + 1] + l;
    }
  }

  /** The swap at the end makes the alignments agree, zero and 0xFFFF included. */
  lemma SwappedOddSum(s: seq<byte>)
    requires s != []
    ensures SwapBytes(Canonical(RawSum(s, true))) == OnesSum(s)
  {
    var k := OffByOne(s, 0);
    SwapCanonical(RawSum(s, true));
    OnesSumIsCanonical(s, 0);
    var l := CanonicalMultiple(WordSum(s, 0));
    CanonicalIs(0x100 * RawSum(s, true), Canonical(WordSum(s, 0)), k + l);
  }

  // ---------------------------------------------------------------- the accumulator

  const LONGEST: nat := 131074

  lemma {:induction false} WordSumBound(s: seq<byte>, i: nat)
    requires i <= |s|
    ensures WordSum(s, i) <= (|s| - i) / 2 * 0xFFFF + (|s| - i) % 2 * 0xFF00
    decreases |s| - i
  {
    if i + 1 >= |s| {
    } else {
      WordSumBound(s, i + 2);
    }
  }

  /** Up to 131074 bytes the 32-bit accumulator holds the true sum, whatever the bytes and the alignment. */
  lemma AccumulatorFits(s: seq<byte>, odd: bool)
    requires |s| <= LONGEST
    ensures RawSum(s, odd) < TWO_TO_THE_32
  {
    WordSumBound(s, 0);
    if s != [] { WordSumBound(s, 1); }
  }

  lemma {:induction false} WordSumOfOnes(s: seq<byte>, i: nat)
    requires i <= |s| && forall j :: 0 <= j < |s| ==> s[j] == 0xFF
    ensures WordSum(s, i) == (|s| - i) / 2 * 0xFFFF + (|s| - i) % 2 * 0xFF00
    decreases |s| - i
  {
    if i + 1 >= |s| {
    } else {
      WordSumOfOnes(s, i + 2);
    }
  }

  /** The bound is exact: one byte more and a buffer of 0xFF bytes overflows it at either alignment. */
  lemma AccumulatorOverflows(s: seq<byte>, odd: bool)
    requires |s| == LONGEST + 1 && forall i :: 0 <= i < |s| ==> s[i] == 0xFF
    ensures RawSum(s, odd) >= TWO_TO_THE_32
  {
    WordSumOfOnes(s, 0);
    WordSumOfOnes(s, 1);
  }

  /** 32-bit unsigned addition. */
  function Add32(a: uint32, b: uint32): uint32 {
    if a + b < TWO_TO_THE_32 then a + b else a + b - TWO_TO_THE_32
  }

  /** Folding, and swapping after an odd start, turn the raw sum into the RFC's. */
  lemma FinishIsOnesSum(s: seq<byte>, odd: bool, raw: uint32)
    requires raw == RawSum(s, odd)
    ensures OnesSum(s) == if odd then SwapBytes(Fold(Fold(raw))) else Fold(Fold(raw))
  {
    TwoFoldsSuffice(raw);
    if !odd {
      OnesSumIsCanonical(s, 0);
    } else if s != [] {
      SwappedOddSum(s);
    }
  }

  /** The accumulation of lwip_standard_chksum, up to and including the end bytes. */
  method Accumulate(s: seq<byte>, odd: bool) returns (sum: uint32)
    requires |s| <= LONGEST
    ensures sum == RawSum(s, odd)
  {
    AccumulatorFits(s, odd);
    var pb, len := 0, |s|;
    var t0, t1: byte := 0, 0;                // the bytes of t, high and low
    sum := 0;
    if odd && len > 0 {
      t1 := s[pb];
      pb, len := pb + 1, len - 1;
    }
    while len > 1
      invariant 0 <= len && pb + len == |s|
      invariant sum + t1 + WordSum(s, pb) == RawSum(s, odd)
    {
      sum := Add32(sum, s[pb] as int * 0x100 + s[pb + 1]);
      pb, len := pb + 2, len - 2;
    }
    if len > 0 {
      t0 := s[pb];
    }
    sum := Add32(sum, t0 as int * 0x100 + t1);
  }

  /** lwip_standard_chksum; `odd` is the parity of the buffer's address. */
  method StandardChecksum(s: seq<byte>, odd: bool) returns (r: uint16)
    requires |s| <= LONGEST
    ensures r == OnesSum(s)
  {
    var sum := Accumulate(s, odd);
    FinishIsOnesSum(s, odd, sum);
    sum := Fold(sum);
    sum := Fold(sum);
    if odd {
      sum := SwapBytes(sum);
    }
    r := sum % 0x1_0000;
  }

  // ---------------------------------------------------------------- what the checksum is for

  lemma {:induction false} WordSumAppend(s: seq<byte>, i: nat, hi: byte, lo: byte)
    requires i <= |s| && (|s| - i) % 2 == 0
    ensures WordSum(s + [hi, lo], i) == WordSum(s, i) + hi as int * 0x100 + lo
    decreases |s| - i
  {
    if i == |s| {
    } else {
      WordSumAppend(s, i + 2, hi, lo);
    }
  }

  /** A message of whole words verifies: with the complement of its sum appended, high byte first, it sums to 0xFFFF. */
  lemma ComplementVerifies(s: seq<byte>)
    requires |s| % 2 == 0
    ensures var c := 0xFFFF - OnesSum(s);
            OnesSum(s + [c / 0x100, c % 0x100]) == 0xFFFF
  {
    var c := 0xFFFF - OnesSum(s);
    WordSumAppend(s, 0, c / 0x100, c % 0x100);
    OnesSumIsCanonical(s, 0);
    OnesSumIsCanonical(s + [c / 0x100, c % 0x100], 0);
    var k := CanonicalMultiple(WordSum(s, 0));
    CanonicalIs(WordSum(s, 0) + c, 0xFFFF, k);
  }

  lemma {:induction false} ZeroAppended(s: seq<byte>, i: nat)
    requires i <= |s| && (|s| - i) % 2 == 1
    ensures WordSum(s + [0], i) == WordSum(s, i)
    decreases |s| - i
  {
    if i + 1 == |s| {
    } else {
      ZeroAppended(s, i + 2);
    }
  }

  /** A lone last byte is the high half of a word: a zero byte behind it changes nothing. */
  lemma TrailingZero(s: seq<byte>)
    requires |s| % 2 == 1
    ensures OnesSum(s + [0]) == OnesSum(s)
  {
    ZeroAppended(s, 0);
    OnesSumIsCanonical(s, 0);
    OnesSumIsCanonical(s + [0], 0);
  }
}
