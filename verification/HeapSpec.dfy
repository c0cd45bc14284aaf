/** The free-list allocator of heap_2 as a state transformer: block tiling, free list, counters. */
module HeapSpec {
  import opened Machine

  const ALIGNMENT: nat := 4
  const LINK_SIZE: nat := 8                       // a 32-bit link and a 32-bit size
  const STRUCT_SIZE: nat := LINK_SIZE + ALIGNMENT - LINK_SIZE % ALIGNMENT
  const MINIMUM_BLOCK_SIZE: nat := STRUCT_SIZE * 2

  datatype Use = Free | Live(asked: nat)

  /** A stretch of the heap array; `off` is the offset of its header. */
  datatype Tile = Tile(off: nat, size: nat, use: Use)

  /** A node of the free list. */
  datatype Block = Block(off: nat, size: nat)

  /** `tiles` is in address order, `free` in list order. */
  datatype State = State(tiles: seq<Tile>, free: seq<Block>, remaining: int)

  // ---------------------------------------------------------------- sizes

  /** The request grown by a header and rounded up, in 32-bit arithmetic. */
  function Padded(wanted: uint32): uint32 {
    if wanted == 0 then 0
    else
      var w := (wanted + STRUCT_SIZE) % TWO_TO_THE_32;
      if w % ALIGNMENT == 0 then w else (w + (ALIGNMENT - w % ALIGNMENT)) % TWO_TO_THE_32
  }

  /** The size arithmetic does not wrap. */
  predicate Fits(wanted: uint32) {
    wanted <= 0xFFFF_FFF0
  }

  /** The size arithmetic wraps to zero, and the request fails like a request for nothing. */
  predicate WrapsToZero(wanted: uint32) {
    0xFFFF_FFF1 <= wanted <= 0xFFFF_FFF4
  }

  /** The padded size is right, or zero. */
  predicate Handled(wanted: uint32) {
    Fits(wanted) || WrapsToZero(wanted)
  }

  /** Rounding `w` up to `r`. */
  lemma LeastAligned(w: nat, r: nat)
    requires r % ALIGNMENT == 0 && w <= r < w + ALIGNMENT
    ensures forall n: nat :: n % ALIGNMENT == 0 && n >= w ==> n >= r
  {
    forall n: nat | n % ALIGNMENT == 0 && n >= w ensures n >= r {
      var a, b := n / ALIGNMENT, r / ALIGNMENT;
      assert n == ALIGNMENT * a && r == ALIGNMENT * b;
    }
  }

  lemma WrapOnce(n: nat)
    requires n < 2 * TWO_TO_THE_32
    ensures n % TWO_TO_THE_32 == if n < TWO_TO_THE_32 then n else n - TWO_TO_THE_32
  {
  }

  lemma RoundUp(w: nat)
    ensures var r := if w % ALIGNMENT == 0 then w else w + (ALIGNMENT - w % ALIGNMENT);
            r % ALIGNMENT == 0 && w <= r < w + ALIGNMENT
  {
  }

  /** The padded size before any wrap, and what a wrap makes of it. */
  lemma PaddedCases(wanted: uint32)
    requires wanted > 0
    ensures Fits(wanted) ==>
              Padded(wanted) % ALIGNMENT == 0 &&
              wanted + STRUCT_SIZE <= Padded(wanted) < wanted + STRUCT_SIZE + ALIGNMENT
    ensures WrapsToZero(wanted) ==> Padded(wanted) == 0
    ensures !Handled(wanted) ==> 0 < Padded(wanted) <= STRUCT_SIZE
  {
    WrapOnce(wanted + STRUCT_SIZE);
    var w := (wanted + STRUCT_SIZE) % TWO_TO_THE_32;
    RoundUp(w);
    WrapOnce(if w % ALIGNMENT == 0 then w else w + (ALIGNMENT - w % ALIGNMENT));
  }

  /** The padded size is the least aligned size with room for header and request exactly when `Fits`; it is zero exactly
      for four requests above, and for all others too small even for a header and one byte. */
  lemma PaddedIsLeast(wanted: uint32)
    requires wanted > 0
    ensures wanted <= 0xFFFF_FFF0 <==> Padded(wanted) >= wanted + 12
    ensures wanted <= 0xFFFF_FFF0 ==>
      Padded(wanted) % 4 == 0 && forall n: nat :: n % 4 == 0 && n >= wanted + 12 ==> n >= Padded(wanted)
    ensures Padded(wanted) == 0 <==> 0xFFFF_FFF1 <= wanted <= 0xFFFF_FFF4
    ensures wanted > 0xFFFF_FFF4 <==> 0 < Padded(wanted) <= 12
  {
    PaddedCases(wanted);
    if Fits(wanted) {
      LeastAligned(wanted + STRUCT_SIZE, Padded(wanted));
    }
  }

  // ---------------------------------------------------------------- well-formed states

  ghost predicate TileOk(t: Tile) {
    t.off % ALIGNMENT == 0 && t.size % ALIGNMENT == 0 && t.size >= STRUCT_SIZE + ALIGNMENT &&
    (t.use.Live? ==> 0 < t.use.asked && t.use.asked + STRUCT_SIZE <= t.size)
  }

  ghost predicate Abut(ts: seq<Tile>, i: nat)
    requires i + 1 < |ts|
  {
    ts[i].off + ts[i].size == ts[i + 1].off
  }

  ghost predicate Tiling(ts: seq<Tile>, total: nat) {
    |ts| > 0 && ts[0].off == 0 &&
    (forall i :: 0 <= i < |ts| - 1 ==> Abut(ts, i)) &&
    ts[|ts| - 1].off + ts[|ts| - 1].size == total
  }

  ghost predicate InOrder(bs: seq<Block>, i: nat, j: nat)
    requires i < |bs| && j < |bs|
  {
    bs[i].size <= bs[j].size && bs[i] != bs[j]
  }

  /** Sizes do not decrease along the list, and no block is on it twice. */
  ghost predicate SizeOrdered(bs: seq<Block>) {
    forall i, j :: 0 <= i < j < |bs| ==> InOrder(bs, i, j)
  }

  /** `b` is on the list exactly when it is a free tile. */
  ghost predicate ListedIffFree(s: State, b: Block) {
    b in s.free <==> Tile(b.off, b.size, Free) in s.tiles
  }

  ghost predicate ListsFreeTiles(s: State) {
    forall b: Block :: ListedIffFree(s, b)
  }

  /** Total size of the first `n` blocks. */
  ghost function SumTo(bs: seq<Block>, n: nat): nat
    requires n <= |bs|
  {
    if n == 0 then 0 else SumTo(bs, n - 1) + bs[n - 1].size
  }

  ghost function Sum(bs: seq<Block>): nat {
    SumTo(bs, |bs|)
  }

  ghost function LiveSize(t: Tile): nat {
    if t.use.Live? then t.size else 0
  }

  /** Total size of the live ones among the first `n` tiles. */
  ghost function LiveSumTo(ts: seq<Tile>, n: nat): nat
    requires n <= |ts|
  {
    if n == 0 then 0 else LiveSumTo(ts, n - 1) + LiveSize(ts[n - 1])
  }

  ghost function LiveSum(ts: seq<Tile>): nat {
    LiveSumTo(ts, |ts|)
  }

  ghost predicate WellFormed(s: State, total: nat) {
    Tiling(s.tiles, total) && (forall i :: 0 <= i < |s.tiles| ==> TileOk(s.tiles[i])) &&
    SizeOrdered(s.free) && ListsFreeTiles(s) &&
    s.remaining == Sum(s.free) && s.remaining + LiveSum(s.tiles) == total
  }

  ghost predicate GoodTotal(total: nat) {
    total % ALIGNMENT == 0 && STRUCT_SIZE + ALIGNMENT <= total < TWO_TO_THE_32
  }

  ghost function Initial(total: nat): State {
    State([Tile(0, total, Free)], [Block(0, total)], total)
  }

  // ---------------------------------------------------------------- operations

  /** A scan of the list from its small end stops at index `k`. */
  ghost predicate StopsAt(free: seq<Block>, size: nat, k: nat) {
    k <= |free| && (forall i :: 0 <= i < k ==> free[i].size < size) && (k < |free| ==> free[k].size >= size)
  }

  lemma {:induction false} ScanStops(free: seq<Block>, size: nat)
    ensures exists k :: StopsAt(free, size, k)
  {
    var k := 0;
    while k < |free| && free[k].size < size
      invariant 0 <= k <= |free| && forall i :: 0 <= i < k ==> free[i].size < size
    {
      k := k + 1;
    }
    assert StopsAt(free, size, k);
  }

  ghost function FirstFit(free: seq<Block>, size: nat): (k: nat)
    ensures StopsAt(free, size, k)
  {
    ScanStops(free, size);
    var k :| StopsAt(free, size, k);
    k
  }

  ghost function Insert(free: seq<Block>, b: Block): seq<Block> {
    var k := FirstFit(free, b.size);
    free[..k] + [b] + free[k..]
  }

  ghost function Remove(free: seq<Block>, k: nat): seq<Block>
    requires k < |free|
  {
    free[..k] + free[k + 1..]
  }

  ghost function Splice(ts: seq<Tile>, i: nat, with: seq<Tile>): seq<Tile>
    requires i < |ts|
  {
    ts[..i] + with + ts[i + 1..]
  }

  ghost predicate HasTile(ts: seq<Tile>, off: nat) {
    exists i :: 0 <= i < |ts| && ts[i].off == off
  }

  ghost function TileAt(ts: seq<Tile>, off: nat): (i: nat)
    requires HasTile(ts, off)
    ensures i < |ts| && ts[i].off == off
  {
    var i :| 0 <= i < |ts| && ts[i].off == off;
    i
  }

  ghost predicate HeadsLive(t: Tile, p: nat) {
    t.off + STRUCT_SIZE == p && t.use.Live?
  }

  /** A pointer the allocator handed out and has not got back. */
  ghost predicate LivePointer(s: State, p: nat) {
    exists t :: t in s.tiles && HeadsLive(t, p)
  }

  /** Block `k` of the list, which is tile `i`, is cut: its first `padded` bytes serve the request. */
  ghost function Cut(s: State, k: nat, i: nat, wanted: uint32, padded: nat): State
    requires k < |s.free| && i < |s.tiles| && padded <= s.free[k].size
  {
    var b := s.free[k];
    var n := Block(b.off + padded, b.size - padded);
    State(Splice(s.tiles, i, [Tile(b.off, padded, Live(wanted)), Tile(n.off, n.size, Free)]),
          Insert(Remove(s.free, k), n),
          s.remaining - padded)
  }

  /** Block `k` of the list, which is tile `i`, serves the request whole. */
  ghost function Whole(s: State, k: nat, i: nat, wanted: uint32): State
    requires k < |s.free| && i < |s.tiles|
  {
    var b := s.free[k];
    State(Splice(s.tiles, i, [Tile(b.off, b.size, Live(wanted))]), Remove(s.free, k), s.remaining - b.size)
  }

  ghost function Malloc(s: State, total: nat, wanted: uint32): (State, Option<nat>) {
    MallocPadded(s, total, wanted, Padded(wanted))
  }

  /** The search of the list for `padded` bytes; the rest of a block is kept when it is worth keeping.
      (In a well-formed state every listed block is a tile.) */
  ghost function MallocPadded(s: State, total: nat, wanted: uint32, padded: nat): (State, Option<nat>) {
    var k := FirstFit(s.free, padded);
    if padded == 0 || padded >= total || k == |s.free| || !HasTile(s.tiles, s.free[k].off) then (s, None)
    else
      var i := TileAt(s.tiles, s.free[k].off);
      (if s.free[k].size - padded > MINIMUM_BLOCK_SIZE then Cut(s, k, i, wanted, padded) else Whole(s, k, i, wanted),
       Some(s.free[k].off + STRUCT_SIZE))
  }

  lemma LiveHasTile(s: State, p: nat)
    requires LivePointer(s, p)
    ensures p >= STRUCT_SIZE && HasTile(s.tiles, p - STRUCT_SIZE)
  {
  }

  ghost function Release(s: State, p: nat): State
    requires LivePointer(s, p)
  {
    LiveHasTile(s, p);
    var i := TileAt(s.tiles, p - STRUCT_SIZE);
    var t := s.tiles[i];
    State(Splice(s.tiles, i, [t.(use := Free)]), Insert(s.free, Block(t.off, t.size)), s.remaining + t.size)
  }
}
