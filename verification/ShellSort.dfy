/** qsort: Shell sort over `nel` elements of `width` bytes, in place. */
module ShellSort {
  import opened Machine

  type Element = seq<byte>

  type Compare = (Element, Element) -> int

  ghost predicate Comparable(cmp: Compare, a: Element, b: Element) {
    cmp(a, b) <= 0 || cmp(b, a) <= 0
  }

  ghost predicate Transitive(cmp: Compare, a: Element, b: Element, c: Element) {
    cmp(a, b) <= 0 && cmp(b, c) <= 0 ==> cmp(a, c) <= 0
  }

  /** The comparator's `<= 0` is a total preorder. */
  ghost predicate TotalPreorder(cmp: Compare) {
    (forall a, b :: Comparable(cmp, a, b)) && (forall a, b, c :: Transitive(cmp, a, b, c))
  }

  // ---------------------------------------------------------------- elements

  ghost predicate PairOrdered(s: seq<Element>, h: nat, k: nat, cmp: Compare)
    requires k + h < |s|
  {
    cmp(s[k], s[k + h]) <= 0
  }

  /** Every two elements `h` apart are in order. */
  ghost predicate GapOrdered(s: seq<Element>, h: nat, cmp: Compare) {
    forall k: nat :: k + h < |s| ==> PairOrdered(s, h, k, cmp)
  }

  ghost predicate Sorted(s: seq<Element>, cmp: Compare) {
    forall i, j :: 0 <= i <= j < |s| ==> cmp(s[i], s[j]) <= 0
  }

  lemma {:induction false} GapSteps(s: seq<Element>, h: nat, cmp: Compare, i: nat, n: nat)
    requires TotalPreorder(cmp) && GapOrdered(s, h, cmp) && i + n * h < |s|
    ensures cmp(s[i], s[i + n * h]) <= 0
  {
    if n == 0 {
      assert Comparable(cmp, s[i], s[i]);
    } else {
      assert (n - 1) * h + h == n * h;
      GapSteps(s, h, cmp, i, n - 1);
      assert PairOrdered(s, h, i + (n - 1) * h, cmp);
      assert Transitive(cmp, s[i], s[i + (n - 1) * h], s[i + n * h]);
    }
  }

  lemma OneOrderedIsSorted(s: seq<Element>, cmp: Compare)
    requires TotalPreorder(cmp) && GapOrdered(s, 1, cmp)
    ensures Sorted(s, cmp)
  {
    forall i, j | 0 <= i <= j < |s| ensures cmp(s[i], s[j]) <= 0 {
      GapSteps(s, 1, cmp, i, j - i);
    }
  }

  // ---------------------------------------------------------------- later gaps keep earlier orders

  /** How many of the elements at `r`, `r + h`, `r + 2h`, ... are at most `t`. */
  ghost function CountAtMost(s: seq<Element>, r: nat, h: nat, t: Element, cmp: Compare): nat
    requires h > 0
    decreases |s| - r
  {
    if r >= |s| then 0 else (if cmp(s[r], t) <= 0 then 1 else 0) + CountAtMost(s, r + h, h, t, cmp)
  }

  /** The two sequences hold the same elements, up to the comparator, on each of the `h` tracks. */
  ghost predicate SameTracks(s: seq<Element>, s': seq<Element>, h: nat, cmp: Compare)
    requires h > 0
  {
    |s| == |s'| && forall r: nat, t :: r < h ==> CountAtMost(s', r, h, t, cmp) == CountAtMost(s, r, h, t, cmp)
  }

  lemma {:induction false} CountSplit(s: seq<Element>, r: nat, h: nat, n: nat, t: Element, cmp: Compare)
    requires h > 0
    ensures CountAtMost(s, r + n * h, h, t, cmp) <= CountAtMost(s, r, h, t, cmp)
    ensures CountAtMost(s, r, h, t, cmp) <= n + CountAtMost(s, r + n * h, h, t, cmp)
    decreases n
  {
    if n == 0 {
    } else {
      assert (r + h) + (n - 1) * h == r + n * h;
      CountSplit(s, r + h, h, n - 1, t, cmp);
      if r >= |s| {
        assert n * h >= h;
      }
    }
  }

  /** On an ordered track nothing from an element above `t` on is at most `t`. */
  lemma {:induction false} NoneAbove(s: seq<Element>, i: nat, h: nat, t: Element, cmp: Compare)
    requires TotalPreorder(cmp) && h > 0 && GapOrdered(s, h, cmp) && (i < |s| ==> cmp(s[i], t) > 0)
    ensures CountAtMost(s, i, h, t, cmp) == 0
    decreases |s| - i
  {
    if i >= |s| {
    } else {
      assert i + h < |s| ==> PairOrdered(s, h, i, cmp) && Transitive(cmp, s[i], s[i + h], t);
      NoneAbove(s, i + h, h, t, cmp);
    }
  }

  /** On an ordered track everything up to an element at most `t` is at most `t`. */
  lemma {:induction false} AllBelow(s: seq<Element>, r: nat, h: nat, n: nat, t: Element, cmp: Compare)
    requires TotalPreorder(cmp) && h > 0 && GapOrdered(s, h, cmp) && r + n * h < |s| && cmp(s[r + n * h], t) <= 0
    ensures CountAtMost(s, r, h, t, cmp) >= n + 1
    decreases n
  {
    GapSteps(s, h, cmp, r, n);
    assert Transitive(cmp, s[r], s[r + n * h], t);
    if n == 0 {
    } else {
      assert (r + h) + (n - 1) * h == r + n * h;
      AllBelow(s, r + h, h, n - 1, t, cmp);
    }
  }

  /** In a `g`-ordered sequence a track has at least as many small elements as the track `g` further on. */
  lemma {:induction false} ShiftedCount(s: seq<Element>, j: nat, g: nat, h: nat, t: Element, cmp: Compare)
    requires TotalPreorder(cmp) && h > 0 && GapOrdered(s, g, cmp)
    ensures CountAtMost(s, j + g, h, t, cmp) <= CountAtMost(s, j, h, t, cmp)
    decreases |s| - j
  {
    if j + g >= |s| {
    } else {
      assert PairOrdered(s, g, j, cmp) && Transitive(cmp, s[j], s[j + g], t);
      ShiftedCount(s, j + h, g, h, t, cmp);
    }
  }

  lemma {:induction false} TrackOf(i: nat, h: nat) returns (r: nat, n: nat)
    requires h > 0
    ensures r < h && i == r + n * h
    decreases i
  {
    if i < h {
      r, n := i, 0;
    } else {
      r, n := TrackOf(i - h, h);
      assert (n + 1) * h == n * h + h;
      n := n + 1;
    }
  }

  /** A track with more than `p` small elements has a small one at its place `p`. */
  lemma SmallAt(s: seq<Element>, a: nat, p: nat, i: nat, h: nat, t: Element, cmp: Compare)
    requires TotalPreorder(cmp) && h > 0 && GapOrdered(s, h, cmp) && i == a + p * h < |s|
    requires CountAtMost(s, a, h, t, cmp) >= p + 1
    ensures cmp(s[i], t) <= 0
  {
    CountSplit(s, a, h, p, t, cmp);
    if cmp(s[i], t) > 0 {
      NoneAbove(s, i, h, t, cmp);
    }
  }

  /** If place `q` of track `b` is small after the pass, so are more than `q - d` elements of track `a`. */
  lemma SmallTravels(s: seq<Element>, s': seq<Element>, g: nat, h: nat, a: nat, b: nat, d: nat, q: nat,
                     t: Element, cmp: Compare)
    requires TotalPreorder(cmp) && h > 0 && GapOrdered(s, g, cmp)
    requires SameTracks(s, s', h, cmp) && GapOrdered(s', h, cmp)
    requires a < h && b < h && a + g == b + d * h
    requires b + q * h < |s'| && cmp(s'[b + q * h], t) <= 0
    ensures CountAtMost(s', a, h, t, cmp) + d >= q + 1
  {
    AllBelow(s', b, h, q, t, cmp);                          // q + 1 <= count of track b
    CountSplit(s, b, h, d, t, cmp);                         // count of track b <= d + count from a + g
    ShiftedCount(s, a, g, h, t, cmp);                       // count from a + g <= count of track a
  }

  /** Gale and Karp: ordering the tracks of gap `h` keeps every order the sequence already had. */
  lemma GapOrderSurvives(s: seq<Element>, s': seq<Element>, g: nat, h: nat, cmp: Compare)
    requires TotalPreorder(cmp) && h > 0 && GapOrdered(s, g, cmp)
    requires SameTracks(s, s', h, cmp) && GapOrdered(s', h, cmp)
    ensures GapOrdered(s', g, cmp)
  {
    forall i: nat | i + g < |s'| ensures PairOrdered(s', g, i, cmp) {
      var a, p := TrackOf(i, h);
      var b, d := TrackOf(a + g, h);
      var t := s'[i + g];
      assert (p + d) * h == p * h + d * h;
      assert Comparable(cmp, t, t);
      SmallTravels(s, s', g, h, a, b, d, p + d, t, cmp);
      SmallAt(s', a, p, i, h, t, cmp);
    }
  }

  // ---------------------------------------------------------------- exchanging elements

  ghost function Exchanged(s: seq<Element>, j: nat, k: nat): seq<Element>
    requires j < |s| && k < |s|
  {
    s[j := s[k]][k := s[j]]
  }

  lemma {:induction false} CountFrom(s: seq<Element>, s': seq<Element>, r: nat, h: nat, t: Element, cmp: Compare)
    requires h > 0 && |s| == |s'| && forall x :: r <= x < |s| ==> s'[x] == s[x]
    ensures CountAtMost(s', r, h, t, cmp) == CountAtMost(s, r, h, t, cmp)
    decreases |s| - r
  {
    if r >= |s| {
    } else {
      CountFrom(s, s', r + h, h, t, cmp);
    }
  }

  lemma {:induction false} ExchangeKeepsCount(s: seq<Element>, j: nat, r: nat, h: nat, t: Element, cmp: Compare)
    requires h > 0 && j + h < |s| && r != j + h
    ensures CountAtMost(Exchanged(s, j, j + h), r, h, t, cmp) == CountAtMost(s, r, h, t, cmp)
    decreases |s| - r
  {
    var s' := Exchanged(s, j, j + h);
    if r == j {
      CountFrom(s, s', j + h + h, h, t, cmp);
    } else if r < |s| {
      ExchangeKeepsCount(s, j, r + h, h, t, cmp);
    }
  }

  lemma ExchangeKeepsTracks(s0: seq<Element>, s: seq<Element>, j: nat, h: nat, cmp: Compare)
    requires h > 0 && j + h < |s| && SameTracks(s0, s, h, cmp)
    ensures SameTracks(s0, Exchanged(s, j, j + h), h, cmp)
    ensures multiset(Exchanged(s, j, j + h)) == multiset(s)
  {
    forall r: nat, t | r < h
      ensures CountAtMost(Exchanged(s, j, j + h), r, h, t, cmp) == CountAtMost(s0, r, h, t, cmp)
    {
      ExchangeKeepsCount(s, j, r, h, t, cmp);
    }
  }

  // ---------------------------------------------------------------- the array

  /** Where element `i` begins: `i * width`. */
  ghost function Offset(i: nat, width: nat): nat {
    if i == 0 then 0 else Offset(i - 1, width) + width
  }

  lemma {:induction false} OffsetIsProduct(i: nat, width: nat)
    ensures Offset(i, width) == i * width
  {
    if i == 0 {
    } else {
      OffsetIsProduct(i - 1, width);
      assert (i - 1) * width + width == i * width;
    }
  }

  /** BASE(i) */
  function Base(i: nat, width: nat): (p: nat)
    ensures p == Offset(i, width)
  {
    OffsetIsProduct(i, width);
    i * width
  }

  lemma {:induction false} OffsetsApart(i: nat, j: nat, width: nat)
    requires i < j
    ensures Offset(i, width) + width <= Offset(j, width)
  {
    if i >= j - 1 {
    } else {
      OffsetsApart(i, j - 1, width);
    }
  }

  ghost predicate ElementIs(m: seq<byte>, width: nat, i: nat, e: Element) {
    Offset(i, width) + width <= |m| && e == m[Offset(i, width)..Offset(i, width) + width]
  }

  /** The `nel` elements that the first bytes of `m` spell. */
  ghost function Elements(m: seq<byte>, nel: nat, width: nat): (s: seq<Element>)
    requires Offset(nel, width) <= |m|
    ensures |s| == nel
    ensures forall i {:trigger ElementIs(m, width, i, s[i])} :: 0 <= i < nel ==> ElementIs(m, width, i, s[i])
  {
    if nel == 0 then [] else Elements(m, nel - 1, width) + [m[Offset(nel - 1, width)..Offset(nel, width)]]
  }

  predicate ByteExchanged(m0: seq<byte>, m: seq<byte>, p: nat, q: nat, width: nat, x: nat)
    requires p + width <= q && q + width <= |m0| == |m| && x < |m|
  {
    m[x] == if p <= x < p + width then m0[x - p + q] else if q <= x < q + width then m0[x - q + p] else m0[x]
  }

  /** Memory `m` is `m0` with the `width` bytes at `p` and at `q` exchanged. */
  ghost predicate BytesExchanged(m0: seq<byte>, m: seq<byte>, p: nat, q: nat, width: nat)
    requires p + width <= q && q + width <= |m0|
  {
    |m| == |m0| && forall x :: 0 <= x < |m| ==> ByteExchanged(m0, m, p, q, width, x)
  }

  lemma SliceAfter(m0: seq<byte>, m: seq<byte>, p: nat, q: nat, width: nat, a: nat)
    requires p + width <= q && q + width <= |m0| && a + width <= |m0| && BytesExchanged(m0, m, p, q, width)
    requires a == p || a == q || a + width <= p || (p + width <= a && a + width <= q) || q + width <= a
    ensures m[a..a + width] == var b := if a == p then q else if a == q then p else a; m0[b..b + width]
  {
    var b := if a == p then q else if a == q then p else a;
    var l, r := m[a..a + width], m0[b..b + width];
    forall x | 0 <= x < width ensures l[x] == r[x] {
      assert ByteExchanged(m0, m, p, q, width, a + x);
    }
  }

  lemma ElementAfter(m0: seq<byte>, m: seq<byte>, nel: nat, width: nat, j: nat, k: nat, i: nat)
    requires j < k < nel && i < nel && width > 0 && Offset(nel, width) <= |m0|
    requires Offset(j, width) + width <= Offset(k, width) && Offset(k, width) + width <= |m0|
    requires BytesExchanged(m0, m, Offset(j, width), Offset(k, width), width)
    ensures var l := if i == j then k else if i == k then j else i;
            Offset(i, width) + width <= |m| && Offset(l, width) + width <= |m0| &&
            m[Offset(i, width)..Offset(i, width) + width] == m0[Offset(l, width)..Offset(l, width) + width]
  {
    OffsetsApart(i, nel, width);
    if i < j { OffsetsApart(i, j, width); }
    if i > j { OffsetsApart(j, i, width); }
    if i < k { OffsetsApart(i, k, width); }
    if i > k { OffsetsApart(k, i, width); }
    SliceAfter(m0, m, Offset(j, width), Offset(k, width), width, Offset(i, width));
  }

  lemma ExchangedView(m0: seq<byte>, m: seq<byte>, nel: nat, width: nat, j: nat, k: nat)
    requires j < k < nel && width > 0 && Offset(nel, width) <= |m0|
    requires Offset(j, width) + width <= Offset(k, width) && Offset(k, width) + width <= |m0|
    requires BytesExchanged(m0, m, Offset(j, width), Offset(k, width), width)
    ensures Elements(m, nel, width) == Exchanged(Elements(m0, nel, width), j, k)
  {
    var s0 := Elements(m0, nel, width);
    var r := Exchanged(s0, j, k);
    forall i | 0 <= i < nel ensures ElementIs(m, width, i, r[i]) {
      var l := if i == j then k else if i == k then j else i;
      assert r[i] == s0[l] && ElementIs(m0, width, l, s0[l]);
      ElementAfter(m0, m, nel, width, j, k, i);
    }
    ElementsAre(m, nel, width, r);
  }

  lemma ElementsAre(m: seq<byte>, nel: nat, width: nat, s: seq<Element>)
    requires Offset(nel, width) <= |m| && |s| == nel && forall i :: 0 <= i < nel ==> ElementIs(m, width, i, s[i])
    ensures Elements(m, nel, width) == s
  {
    var r := Elements(m, nel, width);
    forall i | 0 <= i < nel ensures r[i] == s[i] {
      assert ElementIs(m, width, i, r[i]) && ElementIs(m, width, i, s[i]);
    }
  }

  /** With elements of no bytes there is nothing to tell apart. */
  lemma EmptyElements(m0: seq<byte>, m: seq<byte>, nel: nat, j: nat, k: nat)
    requires j < nel && k < nel && Offset(nel, 0) <= |m0| && Offset(nel, 0) <= |m|
    ensures Elements(m, nel, 0) == Exchanged(Elements(m0, nel, 0), j, k)
  {
    var s0, s := Elements(m0, nel, 0), Elements(m, nel, 0);
    forall i | 0 <= i < nel ensures s[i] == [] && s0[i] == [] {
      assert ElementIs(m0, 0, i, s0[i]) && ElementIs(m, 0, i, s[i]);
    }
  }

  /** The exchange loop of qsort: `width` bytes, one at a time. */
  method Exchange(base: array<byte>, p0: nat, q0: nat, width: nat)
    requires p0 + width <= q0 && q0 + width <= base.Length
    modifies base
    ensures BytesExchanged(old(base[..]), base[..], p0, q0, width)
  {
    var k, p, q := 0, p0, q0;
    ghost var m0 := base[..];
    while k < width
      invariant 0 <= k <= width && p == p0 + k && q == q0 + k
      invariant BytesExchanged(m0, base[..], p0, q0, k)
    {
      ghost var m := base[..];
      assert ByteExchanged(m0, m, p0, q0, k, p) && ByteExchanged(m0, m, p0, q0, k, q);
      var c := base[q];
      base[q] := base[p];
      base[p] := c;
      ghost var m', k' := base[..], k + 1;
      forall x | 0 <= x < |m'| ensures ByteExchanged(m0, m', p0, q0, k', x) {
        assert ByteExchanged(m0, m, p0, q0, k, x);
      }
      p, q, k := p + 1, q + 1, k + 1;
    }
  }

  // ---------------------------------------------------------------- one gapped insertion pass

  /** The pairs `h` apart below `n` are in order. */
  ghost predicate PrefixOrdered(s: seq<Element>, h: nat, n: nat, cmp: Compare) {
    forall k: nat :: k + h < n && k + h < |s| ==> PairOrdered(s, h, k, cmp)
  }

  /** Everything below `n` is in order but the pair at `j`, whose lower element fits below the one after the pair. */
  ghost predicate OrderedButPair(s: seq<Element>, h: nat, n: nat, j: int, cmp: Compare)
    requires n <= |s|
  {
    (forall k: nat :: k + h < n && k != j ==> PairOrdered(s, h, k, cmp)) &&
    (0 <= j && j + h + h < n ==> cmp(s[j], s[j + h + h]) <= 0)
  }

  lemma PairStartsAbove(s: seq<Element>, h: nat, n: nat, cmp: Compare)
    requires 0 < h <= n < |s| && PrefixOrdered(s, h, n, cmp)
    ensures OrderedButPair(s, h, n + 1, n - h, cmp)
  {
  }

  lemma PairMovesDown(s: seq<Element>, h: nat, n: nat, j: nat, cmp: Compare)
    requires TotalPreorder(cmp) && h > 0 && j + h < n <= |s|
    requires OrderedButPair(s, h, n, j, cmp) && !PairOrdered(s, h, j, cmp)
    ensures OrderedButPair(Exchanged(s, j, j + h), h, n, j - h, cmp)
  {
    var s' := Exchanged(s, j, j + h);
    assert Comparable(cmp, s[j], s[j + h]);
    forall k: nat | k + h < n && k != j - h ensures PairOrdered(s', h, k, cmp) {
      assert k != j ==> PairOrdered(s, h, k, cmp);
    }
    if j >= h {
      assert PairOrdered(s, h, j - h, cmp);
    }
  }

  lemma PairInPlace(s: seq<Element>, h: nat, n: nat, j: int, cmp: Compare)
    requires n <= |s| && OrderedButPair(s, h, n, j, cmp) && (j < 0 || (j + h < |s| && PairOrdered(s, h, j, cmp)))
    ensures PrefixOrdered(s, h, n, cmp)
  {
  }

  /** What a pass over the elements `s0` has kept when they are `s`. */
  ghost predicate Rearranged(s0: seq<Element>, s: seq<Element>, gap: nat, cmp: Compare)
    requires gap > 0
  {
    SameTracks(s0, s, gap, cmp) && multiset(s) == multiset(s0)
  }

  /** The bytes the comparator sees at `p`, where element `i` begins. */
  method ReadElement(base: array<byte>, p: nat, width: nat, ghost nel: nat, ghost i: nat) returns (x: Element)
    requires Offset(nel, width) <= base.Length && i < nel && p == Offset(i, width) && p + width <= base.Length
    ensures x == Elements(base[..], nel, width)[i]
  {
    x := base[p..p + width];
    ghost var m := base[..];
    assert x == m[p..p + width];
    assert ElementIs(m, width, i, Elements(m, nel, width)[i]);
  }

  /** In the middle of the `j` loop: memory holds rearranged elements, in order below `n` but for the pair at `j`. */
  ghost predicate Sifting(s0: seq<Element>, m: seq<byte>, nel: nat, width: nat, gap: nat, n: nat, j: int, cmp: Compare)
    requires Offset(nel, width) <= |m| && gap > 0 && n <= nel
  {
    OrderedButPair(Elements(m, nel, width), gap, n, j, cmp) && Rearranged(s0, Elements(m, nel, width), gap, cmp)
  }

  /** After the `j` loop: memory holds rearranged elements, in order below `n`. */
  ghost predicate Sifted(s0: seq<Element>, m: seq<byte>, nel: nat, width: nat, gap: nat, n: nat, cmp: Compare)
    requires Offset(nel, width) <= |m| && gap > 0
  {
    PrefixOrdered(Elements(m, nel, width), gap, n, cmp) && Rearranged(s0, Elements(m, nel, width), gap, cmp)
  }

  lemma SiftingEnds(s0: seq<Element>, m: seq<byte>, nel: nat, width: nat, gap: nat, n: nat, j: int, cmp: Compare)
    requires Offset(nel, width) <= |m| && gap > 0 && n <= nel && j < 0 && Sifting(s0, m, nel, width, gap, n, j, cmp)
    ensures Sifted(s0, m, nel, width, gap, n, cmp)
  {
    PairInPlace(Elements(m, nel, width), gap, n, j, cmp);
  }

  /** The body of the `j` loop: done, or one exchange further down. */
  method SiftOnce(base: array<byte>, nel: nat, width: nat, gap: nat, n: nat, j: nat, cmp: Compare,
                  ghost s0: seq<Element>)
    returns (done: bool)
    requires TotalPreorder(cmp) && Offset(nel, width) <= base.Length && 0 < gap && j + gap < n <= nel
    requires Sifting(s0, base[..], nel, width, gap, n, j, cmp)
    modifies base
    ensures if done then Sifted(s0, base[..], nel, width, gap, n, cmp)
            else Sifting(s0, base[..], nel, width, gap, n, j - gap, cmp)
    ensures base[Offset(nel, width)..] == old(base[Offset(nel, width)..])
  {
    ghost var s := Elements(base[..], nel, width);
    var p, q := Base(j, width), Base(j + gap, width);
    OffsetsApart(j, j + gap, width);
    OffsetsApart(j + gap, nel, width);
    var x := ReadElement(base, p, width, nel, j);
    var y := ReadElement(base, q, width, nel, j + gap);
    done := cmp(x, y) <= 0;
    assert PairOrdered(s, gap, j, cmp) <==> done;
    if done {
      PairInPlace(s, gap, n, j, cmp);
    } else {
      PairMovesDown(s, gap, n, j, cmp);
      ExchangeKeepsTracks(s0, s, j, gap, cmp);
      SiftStep(base, nel, width, j, gap, p, q);
    }
  }

  /** The `j` loop: element `i` moves down its track to its place. */
  method Sift(base: array<byte>, nel: nat, width: nat, gap: nat, i: nat, cmp: Compare, ghost s0: seq<Element>)
    requires TotalPreorder(cmp) && Offset(nel, width) <= base.Length && 0 < gap <= i < nel
    requires PrefixOrdered(Elements(base[..], nel, width), gap, i, cmp)
    requires Rearranged(s0, Elements(base[..], nel, width), gap, cmp)
    modifies base
    ensures PrefixOrdered(Elements(base[..], nel, width), gap, i + 1, cmp)
    ensures Rearranged(s0, Elements(base[..], nel, width), gap, cmp)
    ensures base[Offset(nel, width)..] == old(base[Offset(nel, width)..])
  {
    PairStartsAbove(Elements(base[..], nel, width), gap, i, cmp);
    SiftDown(base, nel, width, gap, i, cmp, s0);
    assert Sifted(s0, base[..], nel, width, gap, i + 1, cmp);
  }

  method SiftDown(base: array<byte>, nel: nat, width: nat, gap: nat, i: nat, cmp: Compare, ghost s0: seq<Element>)
    requires TotalPreorder(cmp) && Offset(nel, width) <= base.Length && 0 < gap <= i < nel
    requires Sifting(s0, base[..], nel, width, gap, i + 1, i - gap, cmp)
    modifies base
    ensures Sifted(s0, base[..], nel, width, gap, i + 1, cmp)
    ensures base[..][Offset(nel, width)..] == old(base[..])[Offset(nel, width)..]
  {
    ghost var m0, o := base[..], Offset(nel, width);
    var j: int := i - gap;
    while j >= 0
      invariant j <= i - gap
      invariant Sifting(s0, base[..], nel, width, gap, i + 1, j, cmp)
      invariant base[..][o..] == m0[o..]
      decreases j + gap
    {
      var done := SiftOnce(base, nel, width, gap, i + 1, j, cmp, s0);
      if done {
        return;
      }
      j := j - gap;
    }
    SiftingEnds(s0, base[..], nel, width, gap, i + 1, j, cmp);
  }

  /** One exchange seen as elements: whole elements change place, nothing else moves. */
  method SiftStep(base: array<byte>, nel: nat, width: nat, j: nat, gap: nat, p: nat, q: nat)
    requires gap > 0 && j + gap < nel && Offset(nel, width) <= base.Length
    requires p == Offset(j, width) && q == Offset(j + gap, width)
    modifies base
    ensures Elements(base[..], nel, width) == Exchanged(Elements(old(base[..]), nel, width), j, j + gap)
    ensures base[Offset(nel, width)..] == old(base[Offset(nel, width)..])
  {
    OffsetsApart(j, j + gap, width);
    OffsetsApart(j + gap, nel, width);
    ghost var m0 := base[..];
    Exchange(base, p, q, width);
    ghost var m, o := base[..], Offset(nel, width);
    forall x | o <= x < |m| ensures m[x] == m0[x] {
      assert ByteExchanged(m0, m, p, q, width, x);
    }
    assert m[o..] == m0[o..];
    if width == 0 {
      EmptyElements(m0, base[..], nel, j, j + gap);
    } else {
      ExchangedView(m0, base[..], nel, width, j, j + gap);
    }
  }

  /** One pass: afterwards the elements are ordered at this gap, and still at every gap they were ordered at. */
  method GapPass(base: array<byte>, nel: nat, width: nat, gap: nat, cmp: Compare)
    requires TotalPreorder(cmp) && Offset(nel, width) <= base.Length && 0 < gap
    modifies base
    ensures GapOrdered(Elements(base[..], nel, width), gap, cmp)
    ensures forall g: nat :: GapOrdered(Elements(old(base[..]), nel, width), g, cmp) ==>
              GapOrdered(Elements(base[..], nel, width), g, cmp)
    ensures multiset(Elements(base[..], nel, width)) == multiset(Elements(old(base[..]), nel, width))
    ensures base[Offset(nel, width)..] == old(base[Offset(nel, width)..])
  {
    ghost var s0 := Elements(base[..], nel, width);
    ghost var rest := base[Offset(nel, width)..];
    var i := gap;
    while i < nel
      invariant gap <= i
      invariant PrefixOrdered(Elements(base[..], nel, width), gap, i, cmp)
      invariant Rearranged(s0, Elements(base[..], nel, width), gap, cmp)
      invariant base[Offset(nel, width)..] == rest
    {
      Sift(base, nel, width, gap, i, cmp, s0);
      i := i + 1;
    }
    ghost var s := Elements(base[..], nel, width);
    forall g: nat | GapOrdered(s0, g, cmp) ensures GapOrdered(s, g, cmp) {
      GapOrderSurvives(s0, s, g, gap, cmp);
    }
  }

  /** The gaps that `nel` elements are passed over with: halves of halves down to 1. */
  ghost predicate IsGap(nel: nat, g: nat)
    decreases nel
  {
    nel >= 2 && (g == nel / 2 || IsGap(nel / 2, g))
  }

  /** qsort: passes of halving gaps; a negative count is treated like none. */
  method Qsort(base: array<byte>, nel: int, width: nat, cmp: Compare)
    requires TotalPreorder(cmp) && (nel > 0 ==> Offset(nel, width) <= base.Length)
    modifies base
    ensures nel <= 0 ==> base[..] == old(base[..])
    ensures nel > 0 ==>
              Sorted(Elements(base[..], nel, width), cmp) &&
              multiset(Elements(base[..], nel, width)) == multiset(Elements(old(base[..]), nel, width)) &&
              base[Offset(nel, width)..] == old(base[Offset(nel, width)..])
  {
    if nel <= 0 {
      return;
    }
    ghost var s0, rest := Elements(base[..], nel, width), base[Offset(nel, width)..];
    ghost var least := nel;
    var gap := nel / 2;
    while gap > 0
      invariant gap == least / 2 && 0 < least <= nel
      invariant forall g: nat :: IsGap(nel, g) ==> IsGap(least, g) || GapOrdered(Elements(base[..], nel, width), g, cmp)
      invariant multiset(Elements(base[..], nel, width)) == multiset(s0)
      invariant base[Offset(nel, width)..] == rest
    {
      GapPass(base, nel, width, gap, cmp);
      least := gap;
      gap := gap / 2;
    }
    OneIsGap(nel);
    OneOrderedIsSorted(Elements(base[..], nel, width), cmp);
  }

  lemma {:induction false} OneIsGap(nel: nat)
    ensures nel >= 2 ==> IsGap(nel, 1)
    decreases nel
  {
    if nel < 4 {
    } else {
      OneIsGap(nel / 2);
    }
  }
}
