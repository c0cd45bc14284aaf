/** set_code_hwp: code sections compiled to chained address comparators. */
module CodeWatch {

  import opened Machine

  datatype Section = Section(s: uint32, e: uint32)

  datatype Condition = LT | GE

  /** EXR1K_WMR_CW_MATCH starts a conjunction, EXR1K_WMR_CW_AND_PCHAIN continues the one before it. */
  datatype Chain = MATCH | AND_PCHAIN

  datatype CompareTo = LD_ADR | ST_ADR

  datatype Watch = Watch(to: CompareTo, cond: Condition, value: uint32, chain: Chain)

  // ---------------------------------------------------------------- what comparators mean

  predicate Compares(w: Watch, addr: uint32) {
    if w.cond == LT then addr < w.value else addr >= w.value
  }

  /** Comparator `i` together with everything it is chained to. */
  predicate Chained(ws: seq<Watch>, i: nat, addr: uint32)
    requires i < |ws|
  {
    Compares(ws[i], addr) && (ws[i].chain == AND_PCHAIN && i > 0 ==> Chained(ws, i - 1, addr))
  }

  predicate EndsChain(ws: seq<Watch>, i: nat)
    requires i < |ws|
  {
    i + 1 == |ws| || ws[i + 1].chain == MATCH
  }

  /** Some complete conjunction holds of the address. */
  ghost predicate Hit(ws: seq<Watch>, addr: uint32) {
    exists i :: 0 <= i < |ws| && EndsChain(ws, i) && Chained(ws, i, addr)
  }

  lemma {:induction false} ChainedPrefix(ws: seq<Watch>, g: seq<Watch>, i: nat, addr: uint32)
    requires i < |ws|
    ensures Chained(ws + g, i, addr) == Chained(ws, i, addr)
  {
    if i == 0 {
    } else {
      ChainedPrefix(ws, g, i - 1, addr);
    }
  }

  lemma {:induction false} ChainedSuffix(ws: seq<Watch>, g: seq<Watch>, i: nat, addr: uint32)
    requires i < |g| && g[0].chain == MATCH
    ensures Chained(ws + g, |ws| + i, addr) == Chained(g, i, addr)
  {
    if i == 0 {
    } else {
      ChainedSuffix(ws, g, i - 1, addr);
    }
  }

  /** A group that starts with MATCH adds its conjunctions to those before it. */
  lemma HitAppend(ws: seq<Watch>, g: seq<Watch>, addr: uint32)
    requires g != [] && g[0].chain == MATCH
    ensures Hit(ws + g, addr) <==> Hit(ws, addr) || Hit(g, addr)
  {
    var r := ws + g;
    if Hit(r, addr) {
      var i :| 0 <= i < |r| && EndsChain(r, i) && Chained(r, i, addr);
      if i < |ws| {
        ChainedPrefix(ws, g, i, addr);
        assert EndsChain(ws, i);
      } else {
        var j := i - |ws|;
        ChainedSuffix(ws, g, j, addr);
        assert EndsChain(g, j);
      }
    }
    if Hit(ws, addr) {
      var i :| 0 <= i < |ws| && EndsChain(ws, i) && Chained(ws, i, addr);
      ChainedPrefix(ws, g, i, addr);
      assert EndsChain(r, i);
    }
    if Hit(g, addr) {
      var i :| 0 <= i < |g| && EndsChain(g, i) && Chained(g, i, addr);
      ChainedSuffix(ws, g, i, addr);
      assert EndsChain(r, |ws| + i);
    }
  }

  lemma HitOne(w: Watch, addr: uint32)
    requires w.chain == MATCH
    ensures Hit([w], addr) <==> Compares(w, addr)
  {
    assert EndsChain([w], 0) && Chained([w], 0, addr) == Compares(w, addr);
  }

  lemma HitPair(v: Watch, w: Watch, addr: uint32)
    requires v.chain == MATCH && w.chain == AND_PCHAIN
    ensures Hit([v, w], addr) <==> Compares(v, addr) && Compares(w, addr)
  {
    var g := [v, w];
    assert !EndsChain(g, 0) && EndsChain(g, 1);
    assert Chained(g, 1, addr) == (Compares(w, addr) && Chained(g, 0, addr));
  }

  // ---------------------------------------------------------------- the emitted comparators

  /** Below the first section, and in the gaps up to section `n - 1`. */
  function InsnTo(ss: seq<Section>, n: nat): seq<Watch>
    requires 0 < n <= |ss|
  {
    if n == 1 then [Watch(LD_ADR, LT, ss[0].s, MATCH)]
    else InsnTo(ss, n - 1) + [Watch(LD_ADR, GE, ss[n - 2].e, MATCH), Watch(LD_ADR, LT, ss[n - 1].s, AND_PCHAIN)]
  }

  function InsnWatches(ss: seq<Section>): seq<Watch>
    requires ss != []
  {
    InsnTo(ss, |ss|) + [Watch(LD_ADR, GE, ss[|ss| - 1].e, MATCH)]
  }

  function DataTo(ss: seq<Section>, n: nat): seq<Watch>
    requires n <= |ss|
  {
    if n == 0 then []
    else DataTo(ss, n - 1) + [Watch(ST_ADR, GE, ss[n - 1].s, MATCH), Watch(ST_ADR, LT, ss[n - 1].e, AND_PCHAIN)]
  }

  predicate Inside(sec: Section, addr: uint32) {
    sec.s <= addr < sec.e
  }

  ghost predicate InSome(ss: seq<Section>, addr: uint32) {
    exists sec :: sec in ss && Inside(sec, addr)
  }

  predicate Disjoint(a: Section, b: Section) {
    a.e <= b.s || b.e <= a.s
  }

  ghost predicate PairwiseDisjoint(ss: seq<Section>) {
    forall i, j :: 0 <= i < j < |ss| ==> Disjoint(ss[i], ss[j])
  }

  ghost predicate AllProper(ss: seq<Section>) {
    forall i :: 0 <= i < |ss| ==> ss[i].s < ss[i].e
  }

  ghost predicate StartsOrdered(ss: seq<Section>) {
    forall i, j :: 0 <= i < j < |ss| ==> ss[i].s <= ss[j].s
  }

  /** Disjoint sections in order of their starts follow one another. */
  lemma InSequence(ss: seq<Section>, i: nat, j: nat)
    requires PairwiseDisjoint(ss) && AllProper(ss) && StartsOrdered(ss) && i < j < |ss|
    ensures ss[i].e <= ss[j].s
  {
    assert Disjoint(ss[i], ss[j]);
  }

  /** Up to section `n` the instruction comparators hit exactly below it and outside every section before it. */
  lemma {:induction false} InsnToMeans(ss: seq<Section>, n: nat, addr: uint32)
    requires PairwiseDisjoint(ss) && AllProper(ss) && StartsOrdered(ss) && 0 < n <= |ss|
    ensures Hit(InsnTo(ss, n), addr) <==> addr < ss[n - 1].s && forall k :: 0 <= k < n ==> !Inside(ss[k], addr)
  {
    if n == 1 {
      HitOne(Watch(LD_ADR, LT, ss[0].s, MATCH), addr);
    } else {
      var v, w := Watch(LD_ADR, GE, ss[n - 2].e, MATCH), Watch(LD_ADR, LT, ss[n - 1].s, AND_PCHAIN);
      InsnToMeans(ss, n - 1, addr);
      HitPair(v, w, addr);
      HitAppend(InsnTo(ss, n - 1), [v, w], addr);
      assert ss[n - 2].s < ss[n - 2].e;
      InSequence(ss, n - 2, n - 1);
      forall k | 0 <= k < n - 2 ensures ss[k].e <= ss[n - 2].s { InSequence(ss, k, n - 2); }
    }
  }

  /** The instruction comparators hit exactly the addresses outside every section. */
  lemma InsnHitsOutside(ss: seq<Section>, addr: uint32)
    requires ss != [] && PairwiseDisjoint(ss) && AllProper(ss) && StartsOrdered(ss)
    ensures Hit(InsnWatches(ss), addr) <==> !InSome(ss, addr)
  {
    var n := |ss|;
    var w := Watch(LD_ADR, GE, ss[n - 1].e, MATCH);
    InsnToMeans(ss, n, addr);
    HitOne(w, addr);
    HitAppend(InsnTo(ss, n), [w], addr);
    assert ss[n - 1].s < ss[n - 1].e;
    forall k | 0 <= k < n - 1 ensures ss[k].e <= ss[n - 1].s { InSequence(ss, k, n - 1); }
    assert InSome(ss, addr) <==> exists k :: 0 <= k < n && Inside(ss[k], addr);
  }

  /** The data comparators hit exactly the addresses inside some section, in whatever order the sections come. */
  lemma {:induction false} DataHitsInside(ss: seq<Section>, n: nat, addr: uint32)
    requires n <= |ss|
    ensures Hit(DataTo(ss, n), addr) <==> exists k :: 0 <= k < n && Inside(ss[k], addr)
  {
    if n == 0 {
    } else {
      var v, w := Watch(ST_ADR, GE, ss[n - 1].s, MATCH), Watch(ST_ADR, LT, ss[n - 1].e, AND_PCHAIN);
      DataHitsInside(ss, n - 1, addr);
      HitPair(v, w, addr);
      HitAppend(DataTo(ss, n - 1), [v, w], addr);
      assert Inside(ss[n - 1], addr) <==> Hit([v, w], addr);
    }
  }

  // ---------------------------------------------------------------- set_code_hwp

  /** The sections the source keeps: their 32-bit length is not zero. */
  function Kept(all: seq<Section>): seq<Section> {
    if all == [] then []
    else Kept(all[..|all| - 1]) + if all[|all| - 1].e != all[|all| - 1].s then [all[|all| - 1]] else []
  }

  /** What the caller promises: no section is inside out, non-empty ones do not overlap, and there is one. */
  ghost predicate GoodSections(all: seq<Section>) {
    (forall i :: 0 <= i < |all| ==> all[i].s <= all[i].e) &&
    (forall i, j :: 0 <= i < j < |all| && all[i].s != all[i].e && all[j].s != all[j].e ==> Disjoint(all[i], all[j])) &&
    (exists i :: 0 <= i < |all| && all[i].s != all[i].e)
  }

  /** Kept is, as often as it occurs, each section whose end differs from its start, inside out or not. */
  lemma {:induction false} KeptAsOften(all: seq<Section>, sec: Section)
    ensures multiset(Kept(all))[sec] == if sec.s != sec.e then multiset(all)[sec] else 0
  {
    if all == [] {
    } else {
      var front, last := all[..|all| - 1], all[|all| - 1];
      KeptAsOften(front, sec);
      assert all == front + [last];
    }
  }

  lemma {:induction false} KeptMembers(all: seq<Section>)
    ensures forall sec :: sec in Kept(all) <==> sec in all && sec.s != sec.e
  {
    if all == [] {
    } else {
      KeptMembers(all[..|all| - 1]);
      assert all == all[..|all| - 1] + [all[|all| - 1]];
    }
  }

  lemma {:induction false} KeptApart(all: seq<Section>)
    requires forall i, j :: 0 <= i < j < |all| && all[i].s != all[i].e && all[j].s != all[j].e ==>
                              Disjoint(all[i], all[j])
    ensures PairwiseDisjoint(Kept(all))
  {
    if all == [] {
    } else {
      var front, last := all[..|all| - 1], all[|all| - 1];
      KeptApart(front);
      KeptMembers(front);
      forall sec | sec in Kept(front) && last.s != last.e ensures Disjoint(sec, last) {
        var i :| 0 <= i < |front| && front[i] == sec;
        assert all[i] == sec;
      }
      KeptDisjoint(Kept(front), last);
    }
  }

  lemma KeptSections(all: seq<Section>)
    requires forall i :: 0 <= i < |all| ==> all[i].s <= all[i].e
    requires forall i, j :: 0 <= i < j < |all| && all[i].s != all[i].e && all[j].s != all[j].e ==>
                              Disjoint(all[i], all[j])
    ensures PairwiseDisjoint(Kept(all)) && AllProper(Kept(all))
    ensures forall sec :: sec in Kept(all) <==> sec in all && sec.s != sec.e
    ensures forall addr :: InSome(Kept(all), addr) <==> InSome(all, addr)
  {
    KeptApart(all);
    KeptMembers(all);
    var ss := Kept(all);
    forall i | 0 <= i < |ss| ensures ss[i].s < ss[i].e {
      assert ss[i] in all;
    }
    forall addr ensures InSome(ss, addr) <==> InSome(all, addr) {
      if InSome(all, addr) {
        var sec :| sec in all && Inside(sec, addr);
        assert sec in ss;
      }
    }
  }

  lemma KeptDisjoint(ss: seq<Section>, last: Section)
    requires PairwiseDisjoint(ss) && forall sec :: sec in ss && last.s != last.e ==> Disjoint(sec, last)
    ensures last.s != last.e ==> PairwiseDisjoint(ss + [last])
  {
    if last.s != last.e {
      var r := ss + [last];
      forall i, j | 0 <= i < j < |r| ensures Disjoint(r[i], r[j]) {
        assert j == |ss| ==> ss[i] in ss;
      }
    }
  }

  ghost predicate Sound(ss: seq<Section>) {
    PairwiseDisjoint(ss) && AllProper(ss)
  }

  /** The first `i` sections are in place. */
  ghost predicate InPlace(ss: seq<Section>, i: nat) {
    forall k, l :: 0 <= k < i && k < l < |ss| ==> ss[k].s <= ss[l].s
  }

  /** Section `i` starts no later than those after it, up to `j`. */
  ghost predicate LeastOf(ss: seq<Section>, i: nat, j: nat)
    requires i < |ss|
  {
    forall l :: i < l < j && l < |ss| ==> ss[i].s <= ss[l].s
  }

  function Swapped(ss: seq<Section>, i: nat, j: nat): seq<Section>
    requires i < |ss| && j < |ss|
  {
    ss[i := ss[j]][j := ss[i]]
  }

  lemma SwapKeepsSound(ss: seq<Section>, i: nat, j: nat)
    requires i < j < |ss| && Sound(ss)
    ensures Sound(Swapped(ss, i, j))
  {
    var r := Swapped(ss, i, j);
    forall k, l | 0 <= k < l < |r| ensures Disjoint(r[k], r[l]) {
      var k', l' := if k == i then j else if k == j then i else k, if l == i then j else if l == j then i else l;
      assert r[k] == ss[k'] && r[l] == ss[l'];
      assert if k' < l' then Disjoint(ss[k'], ss[l']) else Disjoint(ss[l'], ss[k']);
    }
  }

  lemma SwapKeepsMembers(ss: seq<Section>, i: nat, j: nat)
    requires i < j < |ss|
    ensures multiset(Swapped(ss, i, j)) == multiset(ss)
  {
  }

  lemma SwapKeepsOrder(ss: seq<Section>, i: nat, j: nat)
    requires i < j < |ss| && InPlace(ss, i) && LeastOf(ss, i, j) && ss[j].s < ss[i].s
    ensures InPlace(Swapped(ss, i, j), i) && LeastOf(Swapped(ss, i, j), i, j + 1)
  {
  }

  /** The body of the exchange: starts, then ends, so that pairs stay together. */
  method SwapSections(info: array<Section>, i: nat, j: nat, n: nat)
    requires i < j < n <= info.Length
    modifies info
    ensures info[..n] == Swapped(old(info[..n]), i, j)
  {
    var ad := info[i].s;
    info[i] := info[i].(s := info[j].s);
    info[j] := info[j].(s := ad);
    ad := info[i].e;
    info[i] := info[i].(e := info[j].e);
    info[j] := info[j].(e := ad);
  }

  /** The sections `now` are those of `was`, proper and disjoint if those were. */
  ghost predicate Rearranged(was: seq<Section>, now: seq<Section>) {
    multiset(now) == multiset(was) && (Sound(was) ==> Sound(now))
  }

  /** One round of the sort: the least start among the sections from `i` on comes to `i`. */
  method PlaceLeast(info: array<Section>, i: nat, n: nat)
    requires i < n <= info.Length && InPlace(info[..n], i)
    modifies info
    ensures Rearranged(old(info[..n]), info[..n]) && InPlace(info[..n], i + 1)
  {
    var j := i + 1;
    ghost var was, ss := info[..n], info[..n];
    while j < n
      invariant i < j <= n && ss == info[..n]
      invariant Rearranged(was, ss) && InPlace(ss, i) && LeastOf(ss, i, j)
    {
      if info[j].s < info[i].s {
        if Sound(ss) { SwapKeepsSound(ss, i, j); }
        SwapKeepsMembers(ss, i, j);
        SwapKeepsOrder(ss, i, j);
        SwapSections(info, i, j, n);
        ss := Swapped(ss, i, j);
      }
      j := j + 1;
    }
  }

  /** The exchange sort, on any sections. */
  method SortSections(info: array<Section>, n: nat)
    requires n <= info.Length
    modifies info
    ensures StartsOrdered(info[..n]) && multiset(info[..n]) == multiset(old(info[..n]))
    ensures old(Sound(info[..n])) ==> Sound(info[..n])
  {
    ghost var was := info[..n];
    var i := 0;
    while i < n
      invariant 0 <= i <= n && InPlace(info[..n], i) && Rearranged(was, info[..n])
    {
      PlaceLeast(info, i, n);
      i := i + 1;
    }
  }

  /** The copy of the section table that leaves out empty sections. */
  method Collect(all: seq<Section>, info: array<Section>) returns (n: nat)
    requires info.Length == |all|
    modifies info
    ensures n <= |all| && info[..n] == Kept(all)
  {
    n := 0;
    var i := 0;
    while i < |all|
      invariant 0 <= n <= i <= |all| && info[..n] == Kept(all[..i])
    {
      var vmaS, vmaE := all[i].s, all[i].e;
      var len := (vmaE - vmaS) % TWO_TO_THE_32;
      ghost var kept := info[..n];
      assert all[..i + 1][..i] == all[..i];
      if len > 0 {
        info[n] := Section(vmaS, vmaE);
        n := n + 1;
        assert info[..n] == kept + [all[i]];
      }
      i := i + 1;
    }
    assert all[..|all|] == all;
  }

  /** set_code_hwp; the writes of set_hwp become the entries of the two comparator lists, in register order. */
  method SetCodeHwp(all: seq<Section>) returns (insn: seq<Watch>, data: seq<Watch>)
    requires GoodSections(all)
    ensures forall addr: uint32 :: Hit(insn, addr) <==> !exists sec :: sec in all && sec.s <= addr < sec.e
    ensures forall addr: uint32 :: Hit(data, addr) <==> exists sec :: sec in all && sec.s <= addr < sec.e
    ensures (forall w :: w in insn ==> w.to == LD_ADR) && (forall w :: w in data ==> w.to == ST_ADR)
    ensures |insn| == |data| <= 2 * |all|
  {
    SomeKept(all);
    var sInfo := new Section[|all|](i => Section(0, 0));
    var n := Collect(all, sInfo);
    SortSections(sInfo, n);
    insn, data := Emit(sInfo, n);
    ghost var ss := sInfo[..n];
    ComparedAddresses(ss, n);
    SortedMeaning(all, ss);
  }

  /** What the comparators of the sorted sections `ss` say about addresses. */
  lemma SortedMeaning(all: seq<Section>, ss: seq<Section>)
    requires GoodSections(all) && ss != [] && Sound(ss) && StartsOrdered(ss) && multiset(ss) == multiset(Kept(all))
    ensures forall addr: uint32 :: Hit(InsnWatches(ss), addr) <==> !exists sec :: sec in all && sec.s <= addr < sec.e
    ensures forall addr: uint32 :: Hit(DataTo(ss, |ss|), addr) <==> exists sec :: sec in all && sec.s <= addr < sec.e
  {
    forall addr: uint32
      ensures Hit(InsnWatches(ss), addr) <==> !exists sec :: sec in all && sec.s <= addr < sec.e
      ensures Hit(DataTo(ss, |ss|), addr) <==> exists sec :: sec in all && sec.s <= addr < sec.e
    {
      KeptSections(all);
      InsnHitsOutside(ss, addr);
      DataHitsInside(ss, |ss|, addr);
      SameMembers(Kept(all), ss, addr);
      InSomeIs(all, addr);
    }
  }

  lemma InSomeIs(all: seq<Section>, addr: uint32)
    ensures InSome(all, addr) <==> exists sec :: sec in all && sec.s <= addr < sec.e
  {
    if sec :| sec in all && sec.s <= addr < sec.e {
      assert Inside(sec, addr);
    }
  }

  /** Instruction comparators watch loads of the program counter, data comparators stores. */
  lemma {:induction false} ComparedAddresses(ss: seq<Section>, n: nat)
    requires 0 < n <= |ss|
    ensures forall w :: w in InsnTo(ss, n) ==> w.to == LD_ADR
    ensures forall w :: w in DataTo(ss, n) ==> w.to == ST_ADR
  {
    if n == 1 {
    } else {
      ComparedAddresses(ss, n - 1);
    }
  }

  lemma SomeKept(all: seq<Section>)
    requires GoodSections(all)
    ensures Kept(all) != [] && Sound(Kept(all))
  {
    KeptSections(all);
    var i :| 0 <= i < |all| && all[i].s != all[i].e;
    assert all[i] in all;
  }

  /** The two emission loops. */
  method Emit(info: array<Section>, n: nat) returns (insn: seq<Watch>, data: seq<Watch>)
    requires 0 < n <= info.Length
    ensures insn == InsnWatches(info[..n]) && data == DataTo(info[..n], n)
    ensures |insn| == |data| == 2 * n
  {
    ghost var ss := info[..n];
    insn := [Watch(LD_ADR, LT, info[0].s, MATCH)];
    var i := 1;
    while i < n
      invariant 1 <= i <= n && insn == InsnTo(ss, i) && |insn| == 2 * i - 1
    {
      insn := insn + [Watch(LD_ADR, GE, info[i - 1].e, MATCH), Watch(LD_ADR, LT, info[i].s, AND_PCHAIN)];
      i := i + 1;
    }
    insn := insn + [Watch(LD_ADR, GE, info[i - 1].e, MATCH)];
    data := [];
    i := 0;
    while i < n
      invariant 0 <= i <= n && data == DataTo(ss, i) && |data| == 2 * i
    {
      data := data + [Watch(ST_ADR, GE, info[i].s, MATCH), Watch(ST_ADR, LT, info[i].e, AND_PCHAIN)];
      i := i + 1;
    }
  }

  lemma SameMembers(a: seq<Section>, b: seq<Section>, addr: uint32)
    requires multiset(a) == multiset(b)
    ensures InSome(a, addr) <==> InSome(b, addr)
    ensures InSome(b, addr) <==> exists k :: 0 <= k < |b| && Inside(b[k], addr)
  {
    forall sec ensures sec in a <==> sec in b {
      assert sec in a <==> sec in multiset(a);
      assert sec in b <==> sec in multiset(b);
    }
  }
}
