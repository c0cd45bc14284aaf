/** igmp_mac_filter_set: the software list of joined groups and the hardware filter it mirrors. */
module MacFilter {

  const IGMP_LIST_LENS: nat := 32
  const ADDRESS_SPACE: nat := 0x100_0000

  /** An entry of igmp_list. */
  datatype Entry = Entry(used: bool, igmpadr: nat)

  datatype Op = Join(addr: nat) | Leave(addr: nat)

  /** The low 24 bits, all that the list and the filter keep of a group address. */
  function Low24(addr: nat): nat {
    addr % ADDRESS_SPACE
  }

  // ---------------------------------------------------------------- the meaning of the list

  /** The addresses of the used entries among the first `n`, with multiplicity. */
  function BagTo(list: seq<Entry>, n: nat): multiset<nat>
    requires n <= |list|
  {
    if n == 0 then multiset{} else BagTo(list, n - 1) + Part(list[n - 1])
  }

  function Part(e: Entry): multiset<nat> {
    if e.used then multiset{e.igmpadr} else multiset{}
  }

  function Bag(list: seq<Entry>): multiset<nat> {
    BagTo(list, |list|)
  }

  /** What a join or a leave does to the addresses: a join is refused when the list is full, a leave drops one copy if
      there is one. */
  function BagAfter(bag: multiset<nat>, op: Op): multiset<nat> {
    match op
    case Join(addr) => if |bag| < IGMP_LIST_LENS then bag + multiset{Low24(addr)} else bag
    case Leave(addr) => bag - multiset{Low24(addr)}
  }

  function BagAfterAll(ops: seq<Op>): multiset<nat> {
    if ops == [] then multiset{} else BagAfter(BagAfterAll(ops[..|ops| - 1]), ops[|ops| - 1])
  }

  lemma BagAfterOneMore(ops: seq<Op>, op: Op)
    ensures BagAfterAll(ops + [op]) == BagAfter(BagAfterAll(ops), op)
  {
    assert (ops + [op])[..|ops|] == ops;
  }

  /** Joins that found room, as far as they concern address `a`. */
  function Accepted(ops: seq<Op>, a: nat): nat {
    if ops == [] then 0
    else
      var before, op := ops[..|ops| - 1], ops[|ops| - 1];
      Accepted(before, a) +
      if op.Join? && op.addr % 0x100_0000 == a && |BagAfterAll(before)| < 32 then 1 else 0
  }

  /** Leaves that found an entry, as far as they concern address `a`. */
  function Matched(ops: seq<Op>, a: nat): nat {
    if ops == [] then 0
    else
      var before, op := ops[..|ops| - 1], ops[|ops| - 1];
      Matched(before, a) + if op.Leave? && op.addr % 0x100_0000 == a && a in BagAfterAll(before) then 1 else 0
  }

  /** The list holds each address as often as accepted joins exceed matched leaves, and never more than 32 in all. */
  lemma {:induction false} ListIsAcceptedLessMatched(ops: seq<Op>, a: nat)
    ensures BagAfterAll(ops)[a] + Matched(ops, a) == Accepted(ops, a)
    ensures |BagAfterAll(ops)| <= 32
  {
    if ops == [] {
    } else {
      ListIsAcceptedLessMatched(ops[..|ops| - 1], a);
    }
  }

  /** Two addresses belong to the same entry exactly when they agree in their low 24 bits: a join adds one copy of these
      bits if there is room, and a leave drops a copy of another address's bits exactly when they are the same. */
  lemma SameGroup(bag: multiset<nat>, a: nat, b: nat)
    ensures BagAfter(bag, Join(a))[b % 0x100_0000] ==
            bag[b % 0x100_0000] + if |bag| < 32 && a % 0x100_0000 == b % 0x100_0000 then 1 else 0
    ensures BagAfter(bag, Leave(b))[a % 0x100_0000] ==
            bag[a % 0x100_0000] - if a % 0x100_0000 in bag && a % 0x100_0000 == b % 0x100_0000 then 1 else 0
  {
  }

  /** One join, then one leave: the list is empty again exactly when both are for the same low 24 bits. */
  lemma JoinThenLeave(a: nat, b: nat)
    ensures BagAfterAll([Join(a)]) == multiset{a % 0x100_0000}
    ensures BagAfterAll([Join(a), Leave(b)]) ==
            if a % 0x100_0000 == b % 0x100_0000 then multiset{} else multiset{a % 0x100_0000}
  {
    BagAfterOneMore([], Join(a));
    BagAfterOneMore([Join(a)], Leave(b));
    assert [] + [Join(a)] == [Join(a)];
    assert [Join(a)] + [Leave(b)] == [Join(a), Leave(b)];
  }

  lemma {:induction false} BagMember(list: seq<Entry>, n: nat, a: nat)
    requires n <= |list|
    ensures a in BagTo(list, n) <==> exists i :: 0 <= i < n && list[i] == Entry(true, a)
  {
    if n == 0 {
    } else {
      BagMember(list, n - 1, a);
      assert a in BagTo(list, n) <==> a in BagTo(list, n - 1) || a in Part(list[n - 1]);
      assert a in Part(list[n - 1]) <==> list[n - 1] == Entry(true, a);
    }
  }

  lemma {:induction false} BagSame(list: seq<Entry>, list': seq<Entry>, n: nat)
    requires n <= |list| && n <= |list'| && forall i :: 0 <= i < n ==> list[i] == list'[i]
    ensures BagTo(list, n) == BagTo(list', n)
  {
    if n == 0 {
    } else {
      BagSame(list, list', n - 1);
    }
  }

  /** Changing one entry changes the bag by that entry. */
  lemma {:induction false} BagUpdate(list: seq<Entry>, k: nat, e: Entry, n: nat)
    requires k < n <= |list|
    ensures BagTo(list[k := e], n) + Part(list[k]) == BagTo(list, n) + Part(e)
  {
    var list', p := list[k := e], Part(list[n - 1]);
    if k == n - 1 {
      BagSame(list, list', n - 1);
      Swap(BagTo(list, n - 1), p, Part(e));
    } else {
      BagUpdate(list, k, e, n - 1);
      Shuffle(BagTo(list', n - 1), BagTo(list, n - 1), Part(list[k]), Part(e), p);
    }
  }

  lemma Shuffle(b: multiset<nat>, a: multiset<nat>, c: multiset<nat>, d: multiset<nat>, p: multiset<nat>)
    requires b + c == a + d
    ensures (b + p) + c == (a + p) + d
  {
    assert (b + p) + c == (b + c) + p;
    assert (a + p) + d == (a + d) + p;
  }

  lemma Swap(a: multiset<nat>, p: multiset<nat>, q: multiset<nat>)
    ensures (a + q) + p == (a + p) + q
  {
  }

  predicate AllUsed(list: seq<Entry>, n: nat)
    requires n <= |list|
  {
    forall i :: 0 <= i < n ==> list[i].used
  }

  function UsedTo(list: seq<Entry>, n: nat): nat
    requires n <= |list|
  {
    if n == 0 then 0 else UsedTo(list, n - 1) + if list[n - 1].used then 1 else 0
  }

  lemma {:induction false} BagCountsUsed(list: seq<Entry>, n: nat)
    requires n <= |list|
    ensures |BagTo(list, n)| == UsedTo(list, n)
  {
    if n == 0 {
    } else {
      BagCountsUsed(list, n - 1);
    }
  }

  lemma {:induction false} UsedToCounts(list: seq<Entry>, n: nat)
    requires n <= |list|
    ensures UsedTo(list, n) <= n
    ensures UsedTo(list, n) == n <==> AllUsed(list, n)
  {
    if n == 0 {
    } else {
      UsedToCounts(list, n - 1);
    }
  }

  lemma BagSize(list: seq<Entry>, n: nat)
    requires n <= |list|
    ensures |BagTo(list, n)| <= n
    ensures |BagTo(list, n)| == n <==> AllUsed(list, n)
  {
    BagCountsUsed(list, n);
    UsedToCounts(list, n);
  }

  /** Filling an unused entry is an accepted join; emptying a used one a matched leave. */
  lemma FillEntry(list: seq<Entry>, k: nat, addr: nat)
    requires |list| == IGMP_LIST_LENS && k < |list| && !list[k].used
    ensures Bag(list[k := Entry(true, Low24(addr))]) == BagAfter(Bag(list), Join(addr))
    ensures BagAfter(Bag(list), Join(addr)) == Bag(list) + multiset{Low24(addr)}
  {
    BagSize(list, |list|);
    BagUpdate(list, k, Entry(true, Low24(addr)), |list|);
    assert Bag(list) + multiset{} == Bag(list);
  }

  lemma EmptyEntry(list: seq<Entry>, k: nat, addr: nat)
    requires |list| == IGMP_LIST_LENS && k < |list| && list[k] == Entry(true, Low24(addr))
    ensures Bag(list[k := Entry(false, 0)]) == BagAfter(Bag(list), Leave(addr))
    ensures Low24(addr) in Bag(list)
  {
    BagUpdate(list, k, Entry(false, 0), |list|);
    var b, b' := Bag(list), Bag(list[k := Entry(false, 0)]);
    assert b' + multiset{Low24(addr)} == b + multiset{} == b;
    assert b - multiset{Low24(addr)} == b';
  }

  lemma FullList(list: seq<Entry>, addr: nat)
    requires |list| == IGMP_LIST_LENS && AllUsed(list, IGMP_LIST_LENS)
    ensures BagAfter(Bag(list), Join(addr)) == Bag(list) != multiset{}
  {
    BagSize(list, |list|);
  }

  lemma NoEntry(list: seq<Entry>, addr: nat)
    requires forall i :: 0 <= i < |list| ==> list[i] != Entry(true, Low24(addr))
    ensures BagAfter(Bag(list), Leave(addr)) == Bag(list)
  {
    BagMember(list, |list|, Low24(addr));
  }

  // ---------------------------------------------------------------- the driver

  /** The hardware lets through exactly the addresses of the bag, and is on exactly when there are any. */
  ghost predicate Mirrors(hardware: set<nat>, enabled: bool, bag: multiset<nat>) {
    (forall a :: a in hardware <==> a in bag) && (enabled <==> bag != multiset{})
  }

  lemma FilledMirrors(hardware: set<nat>, enabled: bool, list: seq<Entry>, k: nat, addr: nat, list': seq<Entry>)
    requires |list| == IGMP_LIST_LENS && k < |list| && !list[k].used && list' == list[k := Entry(true, Low24(addr))]
    requires Mirrors(hardware, enabled, Bag(list))
    ensures Mirrors(hardware + {Low24(addr)}, true, Bag(list')) && Bag(list') == BagAfter(Bag(list), Join(addr))
  {
    FillEntry(list, k, addr);
    MirrorsJoined(hardware, enabled, Bag(list), Low24(addr));
  }

  lemma FullMirrors(hardware: set<nat>, enabled: bool, list: seq<Entry>, addr: nat)
    requires |list| == IGMP_LIST_LENS && AllUsed(list, IGMP_LIST_LENS)
    requires Mirrors(hardware, enabled, Bag(list))
    ensures Mirrors(hardware, true, Bag(list)) && Bag(list) == BagAfter(Bag(list), Join(addr))
  {
    FullList(list, addr);
  }

  lemma MirrorsJoined(hardware: set<nat>, enabled: bool, bag: multiset<nat>, a: nat)
    requires Mirrors(hardware, enabled, bag)
    ensures Mirrors(hardware + {a}, true, bag + multiset{a})
  {
    assert a in bag + multiset{a};
  }

  /** Inserting entry `i` in the hardware if it is used carries the agreement from the first `i` entries to one more. */
  lemma MirrorsNext(hardware: set<nat>, enabled: bool, list: seq<Entry>, i: nat)
    requires i < |list| && Mirrors(hardware, enabled, BagTo(list, i))
    ensures if list[i].used then Mirrors(hardware + {list[i].igmpadr}, true, BagTo(list, i + 1))
            else Mirrors(hardware, enabled, BagTo(list, i + 1))
  {
    if list[i].used {
      MirrorsJoined(hardware, enabled, BagTo(list, i), list[i].igmpadr);
    } else {
      assert BagTo(list, i + 1) == BagTo(list, i);
    }
  }

  class Filter {
    const igmpList: array<Entry>
    var hardware: set<nat>               // what EthMulFiltInsert put in since the last EthMulFiltClear
    var enabled: bool
    ghost var ops: seq<Op>               // the joins and leaves so far

    /** The hardware mirrors the list, and the list is what the joins and leaves so far make of it. */
    ghost predicate Valid()
      reads this, igmpList
    {
      igmpList.Length == IGMP_LIST_LENS && Mirrors(hardware, enabled, Bag(igmpList[..])) &&
      Bag(igmpList[..]) == BagAfterAll(ops)
    }

    /** The list after network_ethif_init, in front of a filter that is empty and off. */
    constructor ()
      ensures Valid() && fresh(igmpList) && Bag(igmpList[..]) == multiset{} && ops == []
    {
      igmpList := new Entry[IGMP_LIST_LENS](i => Entry(false, 0));
      hardware, enabled, ops := {}, false, [];
      new;
      EmptyBag(igmpList[..], IGMP_LIST_LENS);
    }

    /** igmp_mac_filter_set with IGMP_ADD_MAC_FILTER */
    method Add(addr: nat)
      requires Valid()
      modifies this, igmpList
      ensures Valid() && Bag(igmpList[..]) == BagAfter(old(Bag(igmpList[..])), Join(addr))
      ensures Bag(igmpList[..]) ==
              old(Bag(igmpList[..])) + if |old(Bag(igmpList[..]))| < 32 then multiset{addr % 0x100_0000} else multiset{}
      ensures ops == old(ops) + [Join(addr)]
    {
      ghost var list := igmpList[..];
      BagAfterOneMore(ops, Join(addr));
      ops := ops + [Join(addr)];
      ghost var before := enabled;
      enabled := true;
      var i := FirstUnused(list);
      if i < IGMP_LIST_LENS {
        igmpList[i] := Entry(true, Low24(addr));
        assert igmpList[..] == list[i := Entry(true, Low24(addr))];
        FilledMirrors(hardware, before, list, i, addr, igmpList[..]);
        hardware := hardware + {igmpList[i].igmpadr};
      } else {
        FullMirrors(hardware, before, list, addr);
      }
    }

    /** The loop that looks for room. */
    method FirstUnused(ghost list: seq<Entry>) returns (i: nat)
      requires igmpList.Length == IGMP_LIST_LENS && list == igmpList[..]
      ensures i <= IGMP_LIST_LENS && AllUsed(list, i) && (i < IGMP_LIST_LENS ==> !list[i].used)
    {
      i := 0;
      while i < IGMP_LIST_LENS && igmpList[i].used
        invariant 0 <= i <= IGMP_LIST_LENS
        invariant AllUsed(list, i)
      {
        i := i + 1;
      }
    }

    /** igmp_mac_filter_set with any other action */
    method Delete(addr: nat)
      requires Valid()
      modifies this, igmpList
      ensures Valid() && Bag(igmpList[..]) == BagAfter(old(Bag(igmpList[..])), Leave(addr))
      ensures Bag(igmpList[..]) == old(Bag(igmpList[..])) - multiset{addr % 0x100_0000}
      ensures ops == old(ops) + [Leave(addr)]
    {
      ghost var list := igmpList[..];
      BagAfterOneMore(ops, Leave(addr));
      ops := ops + [Leave(addr)];
      var i := FirstMatch(Low24(addr));
      if i < IGMP_LIST_LENS {
        EmptyEntry(list, i, addr);
        assert enabled;
        igmpList[i] := Entry(false, 0);
        assert igmpList[..] == list[i := Entry(false, 0)];
        Reload();
      } else {
        NoEntry(list, addr);
      }
    }

    /** The loop that looks for the address. */
    method FirstMatch(a: nat) returns (i: nat)
      requires igmpList.Length == IGMP_LIST_LENS
      ensures i <= IGMP_LIST_LENS && (i < IGMP_LIST_LENS ==> igmpList[i] == Entry(true, a))
      ensures forall k :: 0 <= k < i ==> igmpList[k] != Entry(true, a)
    {
      i := 0;
      while i < IGMP_LIST_LENS && !(igmpList[i].used && igmpList[i].igmpadr == a)
        invariant 0 <= i <= IGMP_LIST_LENS
        invariant forall k :: 0 <= k < i ==> igmpList[k] != Entry(true, a)
      {
        i := i + 1;
      }
    }

    /** Clearing the filter and inserting what is left; with nothing left the filter goes off. */
    method Reload()
      requires igmpList.Length == IGMP_LIST_LENS && enabled
      modifies this`hardware, this`enabled
      ensures Mirrors(hardware, enabled, Bag(igmpList[..]))
    {
      ghost var list := igmpList[..];
      hardware := {};
      var check := 1;
      var i := 0;
      while i < IGMP_LIST_LENS
        invariant 0 <= i <= IGMP_LIST_LENS && enabled
        invariant check == 1 || check == 2
        invariant Mirrors(hardware, check == 2, BagTo(list, i))
      {
        MirrorsNext(hardware, check == 2, list, i);
        if igmpList[i].used {
          hardware := hardware + {igmpList[i].igmpadr};
          check := 2;
        }
        i := i + 1;
      }
      if check == 1 {
        enabled := false;
      }
    }
  }

  /** After any joins and leaves the filter lists each address as often as accepted joins exceed matched leaves. */
  lemma ListedAfterRun(f: Filter, a: nat)
    requires f.Valid()
    ensures Bag(f.igmpList[..])[a] + Matched(f.ops, a) == Accepted(f.ops, a)
    ensures a in f.hardware <==> Accepted(f.ops, a) > Matched(f.ops, a)
    ensures f.enabled <==> f.hardware != {}
  {
    ListIsAcceptedLessMatched(f.ops, a);
    if f.enabled {
      var b :| b in Bag(f.igmpList[..]);
      assert b in f.hardware;
    }
  }

  lemma {:induction false} EmptyBag(list: seq<Entry>, n: nat)
    requires n <= |list| && forall i :: 0 <= i < n ==> !list[i].used
    ensures BagTo(list, n) == multiset{}
  {
    if n == 0 {
    } else {
      EmptyBag(list, n - 1);
    }
  }
}
