/** What every allocator operation keeps, and what the operations do to each other. */
module HeapProofs {
  import opened Machine
  import opened HeapSpec

  // ---------------------------------------------------------------- tiles

  lemma {:induction false} TilesApart(ts: seq<Tile>, total: nat, i: nat, j: nat)
    requires Tiling(ts, total) && i < j < |ts|
    ensures ts[i].off + ts[i].size <= ts[j].off && ts[j].off + ts[j].size <= total
    decreases |ts| - i, j
  {
    if i + 1 < j {
      TilesApart(ts, total, i, j - 1);
      assert Abut(ts, j - 1);
    } else {
      assert Abut(ts, i);
    }
    if j < |ts| - 1 {
      TilesApart(ts, total, j, |ts| - 1);
    }
  }

  lemma AllApart(ts: seq<Tile>, total: nat)
    requires Tiling(ts, total)
    ensures forall i, j :: 0 <= i < j < |ts| ==> ts[i].off + ts[i].size <= ts[j].off
    ensures forall i :: 0 <= i < |ts| ==> ts[i].off + ts[i].size <= total
  {
    forall i, j | 0 <= i < j < |ts| ensures ts[i].off + ts[i].size <= ts[j].off {
      TilesApart(ts, total, i, j);
    }
    forall i | 0 <= i < |ts| ensures ts[i].off + ts[i].size <= total {
      if i < |ts| - 1 { TilesApart(ts, total, i, |ts| - 1); }
    }
  }

  lemma UniqueTile(s: State, total: nat, i: nat, j: nat)
    requires WellFormed(s, total) && i < |s.tiles| && j < |s.tiles| && s.tiles[i].off == s.tiles[j].off
    ensures i == j
  {
    AllApart(s.tiles, total);
    assert TileOk(s.tiles[i]) && TileOk(s.tiles[j]);
  }

  predicate Covers(t: Tile, x: nat) {
    t.off <= x < t.off + t.size
  }

  /** Every byte of the heap array lies in exactly one block. */
  lemma {:induction false} EveryByteInOneTile(s: State, total: nat, x: nat)
    requires WellFormed(s, total) && x < total
    ensures exists i :: 0 <= i < |s.tiles| && Covers(s.tiles[i], x) &&
                        forall j :: 0 <= j < |s.tiles| && Covers(s.tiles[j], x) ==> j == i
  {
    AllApart(s.tiles, total);
    var i := 0;
    assert Covers(s.tiles[i], x) <==> x < s.tiles[i].off + s.tiles[i].size;
    while !Covers(s.tiles[i], x)
      invariant 0 <= i < |s.tiles| && s.tiles[i].off <= x
      decreases |s.tiles| - i
    {
      assert i < |s.tiles| - 1 ==> Abut(s.tiles, i);
      i := i + 1;
    }
  }

  lemma SpliceMembers(ts: seq<Tile>, i: nat, with: seq<Tile>)
    requires i < |ts| && forall j :: 0 <= j < |ts| && j != i ==> ts[j] != ts[i]
    ensures forall t :: t in Splice(ts, i, with) <==> t in with || (t in ts && t != ts[i])
  {
    var r := Splice(ts, i, with);
    forall t ensures t in r <==> t in with || (t in ts && t != ts[i]) {
      assert ts == ts[..i] + [ts[i]] + ts[i + 1..];
    }
  }

  lemma {:induction false} LiveSumSplit(a: seq<Tile>, b: seq<Tile>, n: nat)
    requires n <= |b|
    ensures LiveSumTo(a + b, |a| + n) == LiveSum(a) + LiveSumTo(b, n)
    ensures n == |b| ==> LiveSum(a + b) == LiveSum(a) + LiveSum(b)
  {
    if n == 0 {
      LiveSumPrefix(a, b, |a|);
    } else {
      LiveSumSplit(a, b, n - 1);
    }
  }

  lemma {:induction false} LiveSumPrefix(a: seq<Tile>, b: seq<Tile>, n: nat)
    requires n <= |a|
    ensures LiveSumTo(a + b, n) == LiveSumTo(a, n)
  {
    if n == 0 {
    } else {
      LiveSumPrefix(a, b, n - 1);
    }
  }

  lemma LiveSumSplice(ts: seq<Tile>, i: nat, with: seq<Tile>)
    requires i < |ts|
    ensures LiveSum(Splice(ts, i, with)) == LiveSum(ts) - LiveSum([ts[i]]) + LiveSum(with)
  {
    assert ts == ts[..i] + [ts[i]] + ts[i + 1..];
    LiveSumSplit(ts[..i] + [ts[i]], ts[i + 1..], |ts[i + 1..]|);
    LiveSumSplit(ts[..i], [ts[i]], |[ts[i]]|);
    LiveSumSplit(ts[..i] + with, ts[i + 1..], |ts[i + 1..]|);
    LiveSumSplit(ts[..i], with, |with|);
  }

  // ---------------------------------------------------------------- free list

  lemma {:induction false} SumSplit(a: seq<Block>, b: seq<Block>, n: nat)
    requires n <= |b|
    ensures SumTo(a + b, |a| + n) == Sum(a) + SumTo(b, n)
    ensures n == |b| ==> Sum(a + b) == Sum(a) + Sum(b)
  {
    if n == 0 {
      SumPrefix(a, b, |a|);
    } else {
      SumSplit(a, b, n - 1);
    }
  }

  lemma {:induction false} SumPrefix(a: seq<Block>, b: seq<Block>, n: nat)
    requires n <= |a|
    ensures SumTo(a + b, n) == SumTo(a, n)
  {
    if n == 0 {
    } else {
      SumPrefix(a, b, n - 1);
    }
  }

  lemma SumInsert(free: seq<Block>, b: Block)
    ensures Sum(Insert(free, b)) == Sum(free) + b.size
  {
    var k := FirstFit(free, b.size);
    assert free == free[..k] + free[k..];
    SumSplit(free[..k], free[k..], |free[k..]|);
    SumSplit(free[..k] + [b], free[k..], |free[k..]|);
    SumSplit(free[..k], [b], |[b]|);
    assert SumTo([b], 1) == SumTo([b], 0) + b.size;
  }

  lemma SumRemove(free: seq<Block>, k: nat)
    requires k < |free|
    ensures Sum(Remove(free, k)) == Sum(free) - free[k].size
  {
    assert free == free[..k] + ([free[k]] + free[k + 1..]);
    SumSplit(free[..k], [free[k]] + free[k + 1..], |[free[k]] + free[k + 1..]|);
    SumSplit([free[k]], free[k + 1..], |free[k + 1..]|);
    assert SumTo([free[k]], 1) == SumTo([free[k]], 0) + free[k].size;
    SumSplit(free[..k], free[k + 1..], |free[k + 1..]|);
  }

  lemma InsertMembers(free: seq<Block>, b: Block)
    ensures forall c :: c in Insert(free, b) <==> c == b || c in free
  {
    var k := FirstFit(free, b.size);
    assert free == free[..k] + free[k..];
  }

  lemma InsertKeepsOrder(free: seq<Block>, b: Block)
    requires SizeOrdered(free) && b !in free
    ensures SizeOrdered(Insert(free, b))
  {
    var k := FirstFit(free, b.size);
    var r := Insert(free, b);
    forall i, j | 0 <= i < j < |r| ensures InOrder(r, i, j) {
      var i', j' := if i < k then i else i - 1, if j < k then j else j - 1;
      assert i != k ==> r[i] == free[i'];
      assert j != k ==> r[j] == free[j'];
      assert j != k && k < j' ==> InOrder(free, k, j');
      assert i != k && j != k ==> InOrder(free, i', j');
    }
  }

  lemma RemoveMembers(free: seq<Block>, k: nat)
    requires SizeOrdered(free) && k < |free|
    ensures forall c :: c in Remove(free, k) <==> c != free[k] && c in free
  {
    assert free == free[..k] + ([free[k]] + free[k + 1..]);
    forall i | 0 <= i < |free| && i != k ensures free[i] != free[k] {
      assert if i < k then InOrder(free, i, k) else InOrder(free, k, i);
    }
  }

  lemma RemoveKeepsOrder(free: seq<Block>, k: nat)
    requires SizeOrdered(free) && k < |free|
    ensures SizeOrdered(Remove(free, k))
  {
    var r := Remove(free, k);
    forall i, j | 0 <= i < j < |r| ensures InOrder(r, i, j) {
      assert InOrder(free, if i < k then i else i + 1, if j < k then j else j + 1);
    }
  }

  // ---------------------------------------------------------------- every operation keeps the state well formed

  lemma InitialWellFormed(total: nat)
    requires GoodTotal(total)
    ensures WellFormed(Initial(total), total)
    ensures Initial(total).remaining == total && forall p :: !LivePointer(Initial(total), p)
  {
    var s := Initial(total);
    assert SumTo(s.free, 1) == SumTo(s.free, 0) + total && LiveSumTo(s.tiles, 1) == LiveSumTo(s.tiles, 0);
  }

  /** The listed block is the free tile at its offset. */
  lemma ListedTile(s: State, total: nat, k: nat)
    requires WellFormed(s, total) && k < |s.free|
    ensures HasTile(s.tiles, s.free[k].off)
    ensures s.tiles[TileAt(s.tiles, s.free[k].off)] == Tile(s.free[k].off, s.free[k].size, Free)
  {
    var b := s.free[k];
    assert ListedIffFree(s, b);
    var i :| 0 <= i < |s.tiles| && s.tiles[i] == Tile(b.off, b.size, Free);
    UniqueTile(s, total, i, TileAt(s.tiles, b.off));
  }

  lemma DistinctTiles(s: State, total: nat)
    requires WellFormed(s, total)
    ensures forall i, j :: 0 <= i < |s.tiles| && 0 <= j < |s.tiles| && i != j ==> s.tiles[i].off != s.tiles[j].off
  {
    AllApart(s.tiles, total);
    assert forall i :: 0 <= i < |s.tiles| ==> TileOk(s.tiles[i]);
  }

  ghost predicate Fills(with: seq<Tile>, t: Tile) {
    (|with| == 1 || (|with| == 2 && with[0].off + with[0].size == with[1].off)) &&
    with[0].off == t.off && with[|with| - 1].off + with[|with| - 1].size == t.off + t.size
  }

  lemma SpliceTiling(ts: seq<Tile>, total: nat, i: nat, with: seq<Tile>)
    requires Tiling(ts, total) && i < |ts| && Fills(with, ts[i])
    ensures Tiling(Splice(ts, i, with), total)
  {
    var r := Splice(ts, i, with);
    var d := |with| - 1;
    forall j | 0 <= j < |r| - 1 ensures Abut(r, j) {
      if j < i {
        assert Abut(ts, j);
      } else if j >= i + d {
        assert Abut(ts, j - d);
      }
    }
  }

  ghost predicate InNewList(s: State, i: nat, with: seq<Tile>, free': seq<Block>, b: Block)
    requires i < |s.tiles|
  {
    b in free' <==> Tile(b.off, b.size, Free) in with || (b in s.free && Tile(b.off, b.size, Free) != s.tiles[i])
  }

  /** Replacing tile `i` by tiles that fill it, and the list by one with the matching nodes, keeps the state well
      formed. */
  lemma SpliceWellFormed(s: State, total: nat, i: nat, with: seq<Tile>, free': seq<Block>, s': State)
    requires WellFormed(s, total) && i < |s.tiles| && Fills(with, s.tiles[i])
    requires forall i :: 0 <= i < |with| ==> TileOk(with[i])
    requires SizeOrdered(free')
    requires forall b: Block :: InNewList(s, i, with, free', b)
    requires Sum(free') + LiveSum(with) == s.remaining + LiveSum([s.tiles[i]])
    requires s' == State(Splice(s.tiles, i, with), free', Sum(free'))
    ensures WellFormed(s', total)
  {
    DistinctTiles(s, total);
    SpliceTiling(s.tiles, total, i, with);
    SpliceMembers(s.tiles, i, with);
    LiveSumSplice(s.tiles, i, with);
    forall b: Block ensures ListedIffFree(s', b) {
      assert InNewList(s, i, with, free', b) && ListedIffFree(s, b);
    }
    forall j | 0 <= j < |s'.tiles| ensures TileOk(s'.tiles[j]) {
      var j' := if j < i then j else j - |with| + 1;
      assert j < i || j >= i + |with| ==> s'.tiles[j] == s.tiles[j'] && TileOk(s.tiles[j']);
    }
  }

  /** A block cut from a tile is not yet a tile, nor on the list. */
  lemma CutIsNew(s: State, total: nat, i: nat, b: Block)
    requires WellFormed(s, total) && i < |s.tiles|
    requires s.tiles[i].off < b.off < s.tiles[i].off + s.tiles[i].size
    ensures b !in s.free && Tile(b.off, b.size, Free) !in s.tiles
  {
    AllApart(s.tiles, total);
    forall j | 0 <= j < |s.tiles| ensures s.tiles[j].off != b.off {
      assert TileOk(s.tiles[j]);
    }
    assert ListedIffFree(s, b);
  }

  lemma LiveSumPair(t: Tile, m: Tile)
    ensures LiveSum([t]) == LiveSize(t)
    ensures LiveSum([t, m]) == LiveSize(t) + LiveSize(m)
  {
    assert LiveSumTo([t], 1) == LiveSumTo([t], 0) + LiveSize(t);
    assert LiveSumTo([t, m], 2) == LiveSumTo([t, m], 1) + LiveSize(m);
    assert LiveSumTo([t, m], 1) == LiveSumTo([t, m], 0) + LiveSize(t);
  }

  lemma CutList(s: State, total: nat, k: nat, i: nat, t: Tile, n: Block)
    requires WellFormed(s, total) && k < |s.free| && i < |s.tiles| && t.use.Live?
    requires s.tiles[i] == Tile(s.free[k].off, s.free[k].size, Free)
    requires s.tiles[i].off < n.off < s.tiles[i].off + s.tiles[i].size
    ensures var free' := Insert(Remove(s.free, k), n);
            SizeOrdered(free') && forall c: Block :: InNewList(s, i, [t, Tile(n.off, n.size, Free)], free', c)
  {
    RemoveKeepsOrder(s.free, k);
    RemoveMembers(s.free, k);
    CutIsNew(s, total, i, n);
    InsertKeepsOrder(Remove(s.free, k), n);
    InsertMembers(Remove(s.free, k), n);
  }

  lemma CutSums(s: State, k: nat, t: Tile, n: Block, u: Tile)
    requires k < |s.free| && t.use.Live? && t.size + n.size == s.free[k].size && u.use.Free?
    ensures Sum(Insert(Remove(s.free, k), n)) == Sum(s.free) - t.size
    ensures LiveSum([t, Tile(n.off, n.size, Free)]) == t.size && LiveSum([u]) == 0
  {
    SumRemove(s.free, k);
    SumInsert(Remove(s.free, k), n);
    LiveSumPair(t, Tile(n.off, n.size, Free));
    LiveSumPair(u, u);
  }

  /** A tile cut at an aligned size that holds its request leaves two well-formed tiles. */
  lemma CutPartsOk(whole: Tile, t: Tile, m: Tile)
    requires TileOk(whole) && t.use.Live? && t.use.asked > 0 && m.use.Free?
    requires t.off == whole.off && t.size % ALIGNMENT == 0 && t.size >= t.use.asked + STRUCT_SIZE
    requires m.off == whole.off + t.size && m.size == whole.size - t.size && m.size > MINIMUM_BLOCK_SIZE
    ensures TileOk(t) && TileOk(m)
  {
  }

  lemma TakeCut(s: State, total: nat, k: nat, i: nat, wanted: uint32, padded: nat)
    requires WellFormed(s, total) && k < |s.free| && i < |s.tiles|
    requires s.tiles[i] == Tile(s.free[k].off, s.free[k].size, Free)
    requires wanted > 0 && padded >= wanted + STRUCT_SIZE && padded % ALIGNMENT == 0
    requires s.free[k].size - padded > MINIMUM_BLOCK_SIZE
    ensures WellFormed(Cut(s, k, i, wanted, padded), total)
  {
    var b := s.free[k];
    var n := Block(b.off + padded, b.size - padded);
    var t, m := Tile(b.off, padded, Live(wanted)), Tile(n.off, n.size, Free);
    CutPartsOk(s.tiles[i], t, m);
    CutList(s, total, k, i, t, n);
    CutSums(s, k, t, n, s.tiles[i]);
    SpliceWellFormed(s, total, i, [t, m], Insert(Remove(s.free, k), n), Cut(s, k, i, wanted, padded));
  }

  lemma TakeWhole(s: State, total: nat, k: nat, i: nat, wanted: uint32)
    requires WellFormed(s, total) && k < |s.free| && i < |s.tiles|
    requires s.tiles[i] == Tile(s.free[k].off, s.free[k].size, Free)
    requires wanted > 0 && s.free[k].size >= wanted + STRUCT_SIZE
    ensures WellFormed(Whole(s, k, i, wanted), total)
  {
    var t := Tile(s.free[k].off, s.free[k].size, Live(wanted));
    assert TileOk(s.tiles[i]);
    RemoveKeepsOrder(s.free, k);
    RemoveMembers(s.free, k);
    SumRemove(s.free, k);
    LiveSumPair(t, t);
    LiveSumPair(s.tiles[i], t);
    SpliceWellFormed(s, total, i, [t], Remove(s.free, k), Whole(s, k, i, wanted));
  }

  lemma MallocPaddedWellFormed(s: State, total: nat, wanted: uint32, padded: nat)
    requires WellFormed(s, total) && (padded > 0 ==> wanted > 0)
    requires padded > 0 ==> padded >= wanted + STRUCT_SIZE && padded % ALIGNMENT == 0
    ensures WellFormed(MallocPadded(s, total, wanted, padded).0, total)
  {
    var k := FirstFit(s.free, padded);
    var s' := MallocPadded(s, total, wanted, padded).0;
    if 0 < padded < total && k < |s.free| {
      ListedTile(s, total, k);
      var i := TileAt(s.tiles, s.free[k].off);
      if s.free[k].size - padded > MINIMUM_BLOCK_SIZE {
        assert s' == Cut(s, k, i, wanted, padded);
        TakeCut(s, total, k, i, wanted, padded);
      } else {
        assert s' == Whole(s, k, i, wanted);
        TakeWhole(s, total, k, i, wanted);
      }
    }
  }

  /** Malloc keeps the tiling, the list and the count. */
  lemma MallocWellFormed(s: State, total: nat, wanted: uint32)
    requires WellFormed(s, total) && Handled(wanted)
    ensures WellFormed(Malloc(s, total, wanted).0, total)
  {
    if wanted > 0 { PaddedIsLeast(wanted); }
    MallocPaddedWellFormed(s, total, wanted, Padded(wanted));
  }

  lemma LiveTile(s: State, total: nat, p: nat)
    requires WellFormed(s, total) && LivePointer(s, p)
    ensures HasTile(s.tiles, p - STRUCT_SIZE)
    ensures s.tiles[TileAt(s.tiles, p - STRUCT_SIZE)].use.Live?
  {
    var t :| t in s.tiles && HeadsLive(t, p);
    var i :| 0 <= i < |s.tiles| && s.tiles[i] == t;
    UniqueTile(s, total, i, TileAt(s.tiles, p - STRUCT_SIZE));
  }

  /** Free keeps the tiling, the list and the count. */
  lemma ReleaseWellFormed(s: State, total: nat, p: nat)
    requires WellFormed(s, total) && LivePointer(s, p)
    ensures WellFormed(Release(s, p), total)
  {
    LiveTile(s, total, p);
    var i := TileAt(s.tiles, p - STRUCT_SIZE);
    var t := s.tiles[i];
    var b, u := Block(t.off, t.size), t.(use := Free);
    NotListed(s, total, i);
    assert TileOk(t);
    InsertKeepsOrder(s.free, b);
    InsertMembers(s.free, b);
    SumInsert(s.free, b);
    LiveSumPair(t, u);
    LiveSumPair(u, u);
    SpliceWellFormed(s, total, i, [u], Insert(s.free, b), Release(s, p));
  }

  lemma NotListed(s: State, total: nat, i: nat)
    requires WellFormed(s, total) && i < |s.tiles| && s.tiles[i].use.Live?
    ensures Block(s.tiles[i].off, s.tiles[i].size) !in s.free
  {
    DistinctTiles(s, total);
    var t := s.tiles[i];
    forall j | 0 <= j < |s.tiles| ensures s.tiles[j] != t.(use := Free) {
      assert j != i ==> s.tiles[j].off != t.off;
    }
    assert ListedIffFree(s, Block(t.off, t.size));
  }

  // ---------------------------------------------------------------- runs

  datatype Op = AskFor(wanted: uint32) | GiveBack(p: nat)

  ghost predicate Allowed(s: State, op: Op) {
    match op
    case AskFor(wanted) => Handled(wanted)
    case GiveBack(p) => LivePointer(s, p)
  }

  ghost function Step(s: State, total: nat, op: Op): State
    requires Allowed(s, op)
  {
    match op
    case AskFor(wanted) => Malloc(s, total, wanted).0
    case GiveBack(p) => Release(s, p)
  }

  ghost predicate Steps(s: State, total: nat, op: Op, s': State) {
    Allowed(s, op) && s' == Step(s, total, op)
  }

  /** `trace` starts at a fresh heap and each state follows from the one before by an allowed call. */
  ghost predicate Run(total: nat, ops: seq<Op>, trace: seq<State>) {
    |trace| == |ops| + 1 && trace[0] == Initial(total) &&
    forall i :: 0 <= i < |ops| ==> Steps(trace[i], total, ops[i], trace[i + 1])
  }

  /** In every state of every run of mallocs and frees the heap is tiled and the free list exact. */
  lemma {:induction false} RunWellFormed(total: nat, ops: seq<Op>, trace: seq<State>, n: nat)
    requires GoodTotal(total) && Run(total, ops, trace) && n <= |ops|
    ensures WellFormed(trace[n], total)
  {
    if n == 0 {
      InitialWellFormed(total);
    } else {
      RunWellFormed(total, ops, trace, n - 1);
      assert Steps(trace[n - 1], total, ops[n - 1], trace[n - 1 + 1]);
      match ops[n - 1]
      case AskFor(wanted) => MallocWellFormed(trace[n - 1], total, wanted);
      case GiveBack(p) => ReleaseWellFormed(trace[n - 1], total, p);
    }
  }

  // ---------------------------------------------------------------- what a call achieves

  /** Malloc fails exactly when nothing is asked, the padded size wraps to zero or reaches the heap size, or no free
      block is large enough. */
  lemma MallocFailsExactly(s: State, total: nat, wanted: uint32)
    requires WellFormed(s, total)
    ensures Malloc(s, total, wanted).1 == None <==>
      wanted == 0 || WrapsToZero(wanted) || Padded(wanted) >= total ||
      forall b :: b in s.free ==> b.size < Padded(wanted)
    ensures Malloc(s, total, wanted).1 == None ==> Malloc(s, total, wanted).0 == s
  {
    if wanted > 0 { PaddedIsLeast(wanted); }
    var k := FirstFit(s.free, Padded(wanted));
    if k < |s.free| {
      assert s.free[k] in s.free;
      ListedTile(s, total, k);
    }
  }

  ghost predicate ServedBy(t: Tile, p: nat, wanted: uint32, padded: nat) {
    t.off + 12 == p && t.use == Live(wanted) && wanted + 12 <= t.size && padded <= t.size <= padded + 24
  }

  /** What malloc returns is aligned and heads a live tile of the new state, with room for the request and bounded
      slack. */
  lemma MallocServes(s: State, total: nat, wanted: uint32)
    requires WellFormed(s, total) && Handled(wanted) && Malloc(s, total, wanted).1.Some?
    ensures var (s', r) := Malloc(s, total, wanted);
            r.value % ALIGNMENT == 0 && LivePointer(s', r.value) &&
            exists t :: t in s'.tiles && ServedBy(t, r.value, wanted, Padded(wanted))
  {
    MallocWellFormed(s, total, wanted);
    PaddedServes(s, total, wanted, Padded(wanted));
  }

  lemma PaddedServes(s: State, total: nat, wanted: uint32, padded: nat)
    requires WellFormed(s, total) && MallocPadded(s, total, wanted, padded).1.Some?
    requires WellFormed(MallocPadded(s, total, wanted, padded).0, total)
    ensures var (s', r) := MallocPadded(s, total, wanted, padded);
            r.value % ALIGNMENT == 0 && LivePointer(s', r.value) &&
            exists t :: t in s'.tiles && ServedBy(t, r.value, wanted, padded)
  {
    var (s', r) := MallocPadded(s, total, wanted, padded);
    var i := MallocGivesBestLive(s, total, wanted, padded, s', r.value);
    BestLiveServes(s', total, i, r.value, wanted, padded);
  }

  lemma BestLiveServes(s: State, total: nat, i: nat, p: nat, wanted: uint32, padded: nat)
    requires WellFormed(s, total) && BestLive(s, i, wanted, padded) && p == s.tiles[i].off + STRUCT_SIZE
    ensures p % ALIGNMENT == 0 && LivePointer(s, p)
    ensures exists t :: t in s.tiles && ServedBy(t, p, wanted, padded)
  {
    var t := s.tiles[i];
    assert TileOk(t) && t in s.tiles;
    assert ServedBy(t, p, wanted, padded);
    assert HeadsLive(t, p);
  }

  /** The block handed out is a smallest adequate one. */
  lemma MallocBestFit(s: State, total: nat, wanted: uint32)
    requires WellFormed(s, total) && Malloc(s, total, wanted).1.Some?
    ensures var (s', r) := Malloc(s, total, wanted);
            exists b :: b in s.free && b.off + STRUCT_SIZE == r.value && b.size >= Padded(wanted) &&
                        (forall c :: c in s.free && c.size >= Padded(wanted) ==> b.size <= c.size)
  {
    var k := FirstFit(s.free, Padded(wanted));
    assert s.free[k] in s.free;
    BestFit(s, total, k, Padded(wanted));
  }

  /** Listed after `b` has served a request, of which `rest` is left: the rest, and what was listed but for `b`. */
  ghost predicate ListedAfter(s: State, s': State, b: Block, rest: seq<Block>, c: Block) {
    c in s'.free <==> c in rest || (c in s.free && c != b)
  }

  /** The tiles then: the served one, the rest, and all others but for `b`. */
  ghost predicate TileAfter(s: State, s': State, b: Block, rest: seq<Block>, served: Tile, t: Tile) {
    t in s'.tiles <==>
      t == served || (t.use.Free? && Block(t.off, t.size) in rest) ||
      (t in s.tiles && t != Tile(b.off, b.size, Free))
  }

  /** From `s` to `s'` the request is served by `b`, a smallest adequate block: by its first `padded` bytes when more
      than 24 would be left, and these stay listed as a block of their own; else by all of it. Everything else stays. */
  ghost predicate ServedFrom(s: State, s': State, p: nat, wanted: uint32, padded: nat, b: Block) {
    b in s.free && b.off + 12 == p && b.size >= padded &&
    (forall c :: c in s.free && c.size >= padded ==> b.size <= c.size) &&
    var cut := b.size - padded > 24;
    var size := if cut then padded else b.size;
    var rest := if cut then [Block(b.off + padded, b.size - padded)] else [];
    s'.remaining == s.remaining - size &&
    (forall c :: ListedAfter(s, s', b, rest, c)) &&
    (forall t :: TileAfter(s, s', b, rest, Tile(b.off, size, Live(wanted)), t))
  }

  lemma CutServes(s: State, total: nat, k: nat, i: nat, wanted: uint32, padded: nat)
    requires WellFormed(s, total) && k < |s.free| && i < |s.tiles| && k == FirstFit(s.free, padded)
    requires s.tiles[i] == Tile(s.free[k].off, s.free[k].size, Free) && s.free[k].size - padded > 24
    ensures ServedFrom(s, Cut(s, k, i, wanted, padded), s.free[k].off + 12, wanted, padded, s.free[k])
  {
    var b := s.free[k];
    var n := Block(b.off + padded, b.size - padded);
    BestFit(s, total, k, padded);
    DistinctTiles(s, total);
    SpliceMembers(s.tiles, i, [Tile(b.off, padded, Live(wanted)), Tile(n.off, n.size, Free)]);
    RemoveMembers(s.free, k);
    InsertMembers(Remove(s.free, k), n);
    var s' := Cut(s, k, i, wanted, padded);
    forall c ensures ListedAfter(s, s', b, [n], c) {}
    forall t ensures TileAfter(s, s', b, [n], Tile(b.off, padded, Live(wanted)), t) {}
  }

  lemma WholeServes(s: State, total: nat, k: nat, i: nat, wanted: uint32, padded: nat)
    requires WellFormed(s, total) && k < |s.free| && i < |s.tiles| && k == FirstFit(s.free, padded)
    requires s.tiles[i] == Tile(s.free[k].off, s.free[k].size, Free) && s.free[k].size - padded <= 24
    ensures ServedFrom(s, Whole(s, k, i, wanted), s.free[k].off + 12, wanted, padded, s.free[k])
  {
    BestFit(s, total, k, padded);
    DistinctTiles(s, total);
    SpliceMembers(s.tiles, i, [Tile(s.free[k].off, s.free[k].size, Live(wanted))]);
    RemoveMembers(s.free, k);
    var b, s' := s.free[k], Whole(s, k, i, wanted);
    forall c ensures ListedAfter(s, s', b, [], c) {}
    forall t ensures TileAfter(s, s', b, [], Tile(b.off, b.size, Live(wanted)), t) {}
  }

  lemma BestFit(s: State, total: nat, k: nat, padded: nat)
    requires WellFormed(s, total) && k < |s.free| && k == FirstFit(s.free, padded)
    ensures s.free[k].size >= padded
    ensures forall c :: c in s.free && c.size >= padded ==> s.free[k].size <= c.size
  {
    forall c | c in s.free && c.size >= padded ensures s.free[k].size <= c.size {
      var j :| 0 <= j < |s.free| && s.free[j] == c;
      assert k < j ==> InOrder(s.free, k, j);
    }
  }

  /** The state after a served request is that of a cut or of a block taken whole. */
  lemma CutOrWhole(s: State, total: nat, wanted: uint32, padded: nat, s': State, p: nat) returns (k: nat, i: nat)
    requires WellFormed(s, total) && MallocPadded(s, total, wanted, padded) == (s', Some(p))
    ensures k == FirstFit(s.free, padded) < |s.free| && i < |s.tiles| && p == s.free[k].off + 12
    ensures s.tiles[i] == Tile(s.free[k].off, s.free[k].size, Free) && padded <= s.free[k].size
    ensures s' == if s.free[k].size - padded > 24 then Cut(s, k, i, wanted, padded) else Whole(s, k, i, wanted)
  {
    k := FirstFit(s.free, padded);
    ListedTile(s, total, k);
    i := TileAt(s.tiles, s.free[k].off);
  }

  lemma PaddedSplits(s: State, total: nat, wanted: uint32, padded: nat, s': State, p: nat) returns (b: Block)
    requires WellFormed(s, total) && MallocPadded(s, total, wanted, padded) == (s', Some(p))
    ensures b in s.free && b.off + 12 == p && ServedFrom(s, s', p, wanted, padded, b)
  {
    var k, i := CutOrWhole(s, total, wanted, padded, s', p);
    b := s.free[k];
    if b.size - padded > 24 {
      CutServes(s, total, k, i, wanted, padded);
    } else {
      WholeServes(s, total, k, i, wanted, padded);
    }
  }

  /** What is left of `b` behind its first `padded` bytes is listed if and only if it is more than 24 bytes. */
  ghost predicate RestListedIffLarge(s': State, padded: nat, b: Block) {
    padded <= b.size && (Block(b.off + padded, b.size - padded) in s'.free <==> b.size - padded > 24)
  }

  lemma RestOfServed(s: State, s': State, total: nat, p: nat, wanted: uint32, padded: nat, b: Block)
    requires WellFormed(s, total) && padded > 0 && ServedFrom(s, s', p, wanted, padded, b)
    ensures RestListedIffLarge(s', padded, b)
  {
    var n := Block(b.off + padded, b.size - padded);
    var rest := if b.size - padded > 24 then [n] else [];
    assert ListedAfter(s, s', b, rest, n);
    assert ListedIffFree(s, b) && ListedIffFree(s, n);
    var i :| 0 <= i < |s.tiles| && s.tiles[i] == Tile(b.off, b.size, Free);
    if n.size > 0 {
      CutIsNew(s, total, i, n);
    } else {
      forall j | 0 <= j < |s.tiles| ensures s.tiles[j].size > 0 { assert TileOk(s.tiles[j]); }
    }
  }

  /** What a served request does to tiles, list and count; what is left of the block is listed if and only if it is more
      than 24 bytes. */
  lemma MallocSplits(s: State, total: nat, wanted: uint32)
    requires WellFormed(s, total) && Handled(wanted) && Malloc(s, total, wanted).1.Some?
    ensures var (s', r) := Malloc(s, total, wanted);
            exists b :: ServedFrom(s, s', r.value, wanted, Padded(wanted), b) &&
                        RestListedIffLarge(s', Padded(wanted), b)
  {
    var (s', r) := Malloc(s, total, wanted);
    var b := PaddedSplits(s, total, wanted, Padded(wanted), s', r.value);
    RestOfServed(s, s', total, r.value, wanted, Padded(wanted), b);
  }

  /** The first request on a fresh heap gets its start and leaves the rest free if that is more than 24 bytes. */
  lemma FirstRequest(total: nat, wanted: uint32)
    requires GoodTotal(total) && 0 < wanted <= 0xFFFF_FFF0 && Padded(wanted) < total
    ensures var (s', r) := Malloc(Initial(total), total, wanted);
            r == Some(12) &&
            s'.free == if total - Padded(wanted) > 24 then [Block(Padded(wanted), total - Padded(wanted))] else []
  {
    var s, padded := Initial(total), Padded(wanted);
    PaddedIsLeast(wanted);
    InitialWellFormed(total);
    FirstOnFresh(total, padded);
    var (s', r) := Malloc(s, total, wanted);
    var k, i := CutOrWhole(s, total, wanted, padded, s', 12);
    assert Remove(s.free, 0) == [];
  }

  lemma FirstOnFresh(total: nat, padded: nat)
    requires GoodTotal(total) && padded < total
    ensures FirstFit(Initial(total).free, padded) == 0 && HasTile(Initial(total).tiles, 0)
  {
    assert Initial(total).tiles[0].off == 0 && Initial(total).free[0].size == total;
  }

  // ---------------------------------------------------------------- pointers

  lemma LiveTileOf(s: State, total: nat, p: nat) returns (t: Tile)
    requires WellFormed(s, total) && LivePointer(s, p)
    ensures t in s.tiles && HeadsLive(t, p)
    ensures forall u :: u in s.tiles && u.off == t.off ==> u == t
  {
    t :| t in s.tiles && HeadsLive(t, p);
    DistinctTiles(s, total);
  }

  /** Malloc hands out a pointer that was not live, and makes it, and no other, live. */
  lemma MallocAddsPointer(s: State, total: nat, wanted: uint32, q: nat)
    requires WellFormed(s, total) && Handled(wanted) && Malloc(s, total, wanted).1.Some?
    ensures var (s', r) := Malloc(s, total, wanted);
            !LivePointer(s, r.value) && (LivePointer(s', q) <==> LivePointer(s, q) || q == r.value)
  {
    var (s', r) := Malloc(s, total, wanted);
    PaddedAddsPointer(s, total, wanted, Padded(wanted), s', r.value, q);
  }

  lemma PaddedAddsPointer(s: State, total: nat, wanted: uint32, padded: nat, s': State, p: nat, q: nat)
    requires WellFormed(s, total) && MallocPadded(s, total, wanted, padded) == (s', Some(p))
    ensures !LivePointer(s, p) && (LivePointer(s', q) <==> LivePointer(s, q) || q == p)
  {
    var b := PaddedSplits(s, total, wanted, padded, s', p);
    ListedNotLive(s, total, p, b);
    PointersAfterServing(s, s', p, wanted, padded, b, q);
  }

  lemma ListedNotLive(s: State, total: nat, p: nat, b: Block)
    requires WellFormed(s, total) && b in s.free && b.off + 12 == p
    ensures !LivePointer(s, p)
  {
    assert ListedIffFree(s, b);
    if LivePointer(s, p) {
      var t := LiveTileOf(s, total, p);
      assert false;
    }
  }

  lemma PointersAfterServing(s: State, s': State, p: nat, wanted: uint32, padded: nat, b: Block, q: nat)
    requires ServedFrom(s, s', p, wanted, padded, b)
    ensures LivePointer(s', q) <==> LivePointer(s, q) || q == p
  {
    var cut := b.size - padded > 24;
    var rest := if cut then [Block(b.off + padded, b.size - padded)] else [];
    var served := Tile(b.off, if cut then padded else b.size, Live(wanted));
    assert TileAfter(s, s', b, rest, served, served) && HeadsLive(served, p);
    if LivePointer(s, q) {
      var t :| t in s.tiles && HeadsLive(t, q);
      assert TileAfter(s, s', b, rest, served, t);
    }
    if LivePointer(s', q) && q != p {
      var t :| t in s'.tiles && HeadsLive(t, q);
      assert TileAfter(s, s', b, rest, served, t);
    }
  }

  /** From `s` to `s'` the live tile `t` is freed: listed, counted, and otherwise all stays. */
  ghost predicate Frees(s: State, s': State, t: Tile) {
    t in s.tiles && t.use.Live? && s'.remaining == s.remaining + t.size &&
    (forall c :: c in s'.free <==> c == Block(t.off, t.size) || c in s.free) &&
    (forall u :: u in s'.tiles <==> u == Tile(t.off, t.size, Free) || (u in s.tiles && u != t))
  }

  /** Free gives back exactly the block of the pointer. */
  lemma ReleaseFrees(s: State, total: nat, p: nat) returns (t: Tile)
    requires WellFormed(s, total) && LivePointer(s, p)
    ensures t.off + 12 == p && Frees(s, Release(s, p), t)
  {
    t := LiveTileOf(s, total, p);
    var i :| 0 <= i < |s.tiles| && s.tiles[i] == t;
    ReleaseOfTile(s, total, i, p);
    DistinctTiles(s, total);
    SpliceMembers(s.tiles, i, [t.(use := Free)]);
    InsertMembers(s.free, Block(t.off, t.size));
  }

  /** Free ends the pointer it is given, and no other. */
  lemma ReleaseDropsPointer(s: State, total: nat, p: nat, q: nat)
    requires WellFormed(s, total) && LivePointer(s, p)
    ensures LivePointer(Release(s, p), q) <==> LivePointer(s, q) && q != p
  {
    var t := ReleaseFrees(s, total, p);
    DistinctTiles(s, total);
    PointersAfterFreeing(s, Release(s, p), p, t, q);
  }

  lemma PointersAfterFreeing(s: State, s': State, p: nat, t: Tile, q: nat)
    requires Frees(s, s', t) && t.off + STRUCT_SIZE == p && (forall u :: u in s.tiles && u.off == t.off ==> u == t)
    ensures LivePointer(s', q) <==> LivePointer(s, q) && q != p
  {
    if LivePointer(s, q) && q != p {
      var u :| u in s.tiles && HeadsLive(u, q);
      assert u in s'.tiles;
    }
    if LivePointer(s', q) {
      var u :| u in s'.tiles && HeadsLive(u, q);
      assert u in s.tiles && u != t;
    }
  }

  /** A request whose size arithmetic wraps, but not to zero, is not refused: any free block will do, the smallest one
      is handed out, and it is too small for header and request. */
  lemma WrappedRequest(s: State, total: nat, wanted: uint32)
    requires GoodTotal(total) && WellFormed(s, total) && !Handled(wanted)
    ensures Malloc(s, total, wanted).1 == if s.free == [] then None else Some(s.free[0].off + STRUCT_SIZE)
    ensures s.free != [] ==> s.free[0].size < wanted + STRUCT_SIZE
  {
    PaddedIsLeast(wanted);
    if s.free != [] {
      ListedTile(s, total, 0);
      var i := TileAt(s.tiles, s.free[0].off);
      AllApart(s.tiles, total);
      assert TileOk(s.tiles[i]);
      assert FirstFit(s.free, Padded(wanted)) == 0;
    }
  }

  /** In a size-ordered list an inserted block is the first one a search for its own size, or a bit less, finds. */
  lemma InsertThenFind(free: seq<Block>, b: Block, size: nat)
    requires size <= b.size && forall c :: c in free ==> c.size < size || c.size >= b.size
    ensures FirstFit(Insert(free, b), size) == FirstFit(free, b.size)
    ensures Remove(Insert(free, b), FirstFit(free, b.size)) == free
  {
    var k := FirstFit(free, b.size);
    var l := Insert(free, b);
    var m := FirstFit(l, size);
    assert forall i :: 0 <= i < k ==> l[i] == free[i] && free[i] in free;
    assert l[k] == b;
    assert m == k;
    assert free[..k] + free[k..] == free;
  }

  /** Freeing tile `i` of a state and taking the freed block whole restores the tiles. */
  lemma SpliceBack(ts: seq<Tile>, i: nat, u: Tile)
    requires i < |ts|
    ensures Splice(Splice(ts, i, [u]), i, [ts[i]]) == ts
  {
  }

  /** Tile `i` is live for this request, as tight as malloc makes it, and nothing listed would be preferred to it. */
  ghost predicate BestLive(s: State, i: nat, wanted: uint32, padded: nat) {
    i < |s.tiles| && s.tiles[i].use == Live(wanted) &&
    padded <= s.tiles[i].size <= padded + MINIMUM_BLOCK_SIZE &&
    forall c :: c in s.free ==> c.size < padded || c.size >= s.tiles[i].size
  }

  lemma MallocGivesBestLive(s: State, total: nat, wanted: uint32, padded: nat, s': State, p: nat) returns (i: nat)
    requires WellFormed(s, total) && MallocPadded(s, total, wanted, padded) == (s', Some(p))
    ensures BestLive(s', i, wanted, padded) && s'.tiles[i].off + STRUCT_SIZE == p
  {
    var k := FirstFit(s.free, padded);
    ListedTile(s, total, k);
    i := TileAt(s.tiles, s.free[k].off);
    RemoveMembers(s.free, k);
    var rest := Remove(s.free, k);
    forall c | c in rest ensures c.size < padded || c.size >= s.free[k].size {
      var j :| 0 <= j < |s.free| && s.free[j] == c;
      assert k < j ==> InOrder(s.free, k, j);
    }
    if s.free[k].size - padded > MINIMUM_BLOCK_SIZE {
      InsertMembers(rest, Block(s.free[k].off + padded, s.free[k].size - padded));
    }
  }

  /** Freeing the pointer behind live tile `i` frees that tile. */
  lemma ReleaseOfTile(s: State, total: nat, i: nat, p: nat)
    requires WellFormed(s, total) && i < |s.tiles| && s.tiles[i].use.Live? && p == s.tiles[i].off + STRUCT_SIZE
    ensures LivePointer(s, p)
    ensures var t := s.tiles[i];
            Release(s, p) == State(Splice(s.tiles, i, [t.(use := Free)]), Insert(s.free, Block(t.off, t.size)),
                                   s.remaining + t.size)
  {
    var t := s.tiles[i];
    assert t in s.tiles && HeadsLive(t, p);
    LiveHasTile(s, p);
    UniqueTile(s, total, i, TileAt(s.tiles, p - STRUCT_SIZE));
  }

  /** A released tile goes back where a search for its request stops. */
  lemma ReleaseListsFirst(s: State, total: nat, i: nat, p: nat, wanted: uint32, padded: nat)
    requires WellFormed(s, total) && BestLive(s, i, wanted, padded) && p == s.tiles[i].off + STRUCT_SIZE
    ensures LivePointer(s, p)
    ensures var b := Block(s.tiles[i].off, s.tiles[i].size);
            Release(s, p).tiles == Splice(s.tiles, i, [s.tiles[i].(use := Free)]) &&
            Release(s, p).free == Insert(s.free, b) && Release(s, p).remaining == s.remaining + b.size &&
            FirstFit(Insert(s.free, b), padded) == FirstFit(s.free, b.size) &&
            Remove(Insert(s.free, b), FirstFit(s.free, b.size)) == s.free
  {
    ReleaseOfTile(s, total, i, p);
    InsertThenFind(s.free, Block(s.tiles[i].off, s.tiles[i].size), padded);
  }

  lemma FoundTile(s: State, total: nat, i: nat, k: nat)
    requires WellFormed(s, total) && k < |s.free| && i < |s.tiles| && s.tiles[i].off == s.free[k].off
    ensures HasTile(s.tiles, s.free[k].off) && TileAt(s.tiles, s.free[k].off) == i
  {
    UniqueTile(s, total, i, TileAt(s.tiles, s.free[k].off));
  }

  /** In `s2`, which is `s` with tile `i` free and first in line, malloc takes tile `i` back. */
  lemma TakesBack(s: State, s2: State, total: nat, i: nat, k: nat, wanted: uint32, padded: nat)
    requires BestLive(s, i, wanted, padded) && 0 < padded < total && WellFormed(s2, total)
    requires s2.tiles == Splice(s.tiles, i, [s.tiles[i].(use := Free)])
    requires s2.remaining == s.remaining + s.tiles[i].size
    requires k == FirstFit(s2.free, padded) && k < |s2.free| && Remove(s2.free, k) == s.free
    requires s2.free[k] == Block(s.tiles[i].off, s.tiles[i].size)
    ensures MallocPadded(s2, total, wanted, padded) == (s, Some(s.tiles[i].off + STRUCT_SIZE))
  {
    FoundTile(s2, total, i, k);
    SpliceBack(s.tiles, i, s.tiles[i].(use := Free));
    assert Whole(s2, k, i, wanted) == s;
  }

  /** Taking again what was just released undoes the release. */
  lemma ReleaseThenMalloc(s: State, total: nat, i: nat, p: nat, wanted: uint32, padded: nat)
    requires WellFormed(s, total) && BestLive(s, i, wanted, padded) && p == s.tiles[i].off + STRUCT_SIZE
    requires 0 < padded < total
    ensures LivePointer(s, p) && MallocPadded(Release(s, p), total, wanted, padded) == (s, Some(p))
  {
    ReleaseListsFirst(s, total, i, p, wanted, padded);
    ReleaseWellFormed(s, total, p);
    var s2 := Release(s, p);
    TakesBack(s, s2, total, i, FirstFit(s2.free, padded), wanted, padded);
  }

  lemma PaddedRoundTrip(s: State, total: nat, wanted: uint32, padded: nat, s1: State, p: nat)
    requires WellFormed(s, total) && WellFormed(s1, total)
    requires MallocPadded(s, total, wanted, padded) == (s1, Some(p))
    ensures LivePointer(s1, p) && MallocPadded(Release(s1, p), total, wanted, padded) == (s1, Some(p))
  {
    assert 0 < padded < total;
    var i := MallocGivesBestLive(s, total, wanted, padded, s1, p);
    ReleaseThenMalloc(s1, total, i, p, wanted, padded);
  }

  /** Allocating, freeing and allocating the same amount again gives the same pointer and the same state. */
  lemma MallocFreeMalloc(s: State, total: nat, wanted: uint32)
    requires WellFormed(s, total) && Handled(wanted) && Malloc(s, total, wanted).1.Some?
    ensures var (s1, r) := Malloc(s, total, wanted);
            LivePointer(s1, r.value) &&
            Malloc(Release(s1, r.value), total, wanted) == (s1, r)
  {
    MallocWellFormed(s, total, wanted);
    var (s1, r) := Malloc(s, total, wanted);
    PaddedRoundTrip(s, total, wanted, Padded(wanted), s1, r.value);
  }
}
