/** heap_2 over its byte array: in-band headers, links as addresses, sentinels outside the array. */
module Heap {
  import opened Machine
  import opened Bytes
  import opened HeapSpec
  import opened HeapProofs

  /** The two words at the head of `b` hold the address of the next node and the size of `b`. */
  ghost predicate Header(m: seq<byte>, b: Block, next: nat) {
    b.off + LINK_SIZE <= |m| && LoadWord(m, b.off) == next && LoadWord(m, b.off + 4) == b.size
  }

  /** Byte `x` belongs to the link word of a block of `bs`. */
  ghost predicate InLink(bs: seq<Block>, x: nat) {
    exists i :: 0 <= i < |bs| && bs[i].off <= x < bs[i].off + 4
  }

  ghost predicate OnlyLinksChange(m0: seq<byte>, m: seq<byte>, bs: seq<Block>) {
    |m| == |m0| && forall x :: 0 <= x < |m| && !InLink(bs, x) ==> m[x] == m0[x]
  }

  ghost predicate HeadersApart(b: Block, c: Block) {
    b.off + LINK_SIZE <= c.off || c.off + LINK_SIZE <= b.off
  }

  ghost predicate HeaderFits(b: Block, total: nat) {
    b.off + STRUCT_SIZE <= total && b.size <= total
  }

  ghost predicate AllFit(bs: seq<Block>, total: nat) {
    forall i :: 0 <= i < |bs| ==> HeaderFits(bs[i], total)
  }

  ghost predicate AllHeadersApart(bs: seq<Block>, total: nat) {
    AllFit(bs, total) &&
    (forall i, j :: 0 <= i < j < |bs| ==> HeadersApart(bs[i], bs[j]))
  }

  /** The address of node `i` of a list; the end marker follows the last block. */
  ghost function AddressAt(base: nat, end: nat, bs: seq<Block>, i: nat): nat {
    if i < |bs| then base + bs[i].off else end
  }

  ghost predicate Linked(m: seq<byte>, base: nat, end: nat, bs: seq<Block>, i: nat)
    requires i < |bs|
  {
    Header(m, bs[i], AddressAt(base, end, bs, i + 1))
  }

  ghost predicate AllLinked(m: seq<byte>, base: nat, end: nat, bs: seq<Block>) {
    forall i :: 0 <= i < |bs| ==> Linked(m, base, end, bs, i)
  }

  ghost predicate SameExceptWord(m0: seq<byte>, m: seq<byte>, a: nat) {
    |m| == |m0| && forall x :: 0 <= x < |m| && !(a <= x < a + 4) ==> m[x] == m0[x]
  }

  lemma HeaderKept(m0: seq<byte>, m: seq<byte>, a: nat, b: Block, next: nat)
    requires Header(m0, b, next) && SameExceptWord(m0, m, a) && (a + 4 <= b.off || b.off + LINK_SIZE <= a)
    ensures Header(m, b, next)
  {
    SameBytesSameNumber(m0, m, b.off, 4);
    SameBytesSameNumber(m0, m, b.off + 4, 4);
  }

  lemma HeaderRelinked(m0: seq<byte>, m: seq<byte>, b: Block, next0: nat, next: nat)
    requires Header(m0, b, next0) && SameExceptWord(m0, m, b.off) && LoadWord(m, b.off) == next
    ensures Header(m, b, next)
  {
    SameBytesSameNumber(m0, m, b.off + 4, 4);
  }

  /** Pointing the predecessor of node `k` past it unlinks node `k`. */
  lemma LinkedWithout(m0: seq<byte>, m: seq<byte>, base: nat, end: nat, bs: seq<Block>, k: nat, total: nat)
    requires AllLinked(m0, base, end, bs) && AllHeadersApart(bs, total) && k < |bs|
    requires k == 0 ==> m == m0
    requires k > 0 ==> SameExceptWord(m0, m, bs[k - 1].off) && bs[k - 1].off + 4 <= |m| &&
                       LoadWord(m, bs[k - 1].off) == AddressAt(base, end, bs, k + 1)
    ensures AllLinked(m, base, end, Remove(bs, k))
  {
    var r := Remove(bs, k);
    forall i | 0 <= i < |r| ensures Linked(m, base, end, r, i) {
      var j := if i < k then i else i + 1;
      assert Linked(m0, base, end, bs, j) && r[i] == bs[j];
      assert i + 1 < |r| ==> r[i + 1] == bs[if i + 1 < k then i + 1 else i + 2];
      if k > 0 && j == k - 1 {
        HeaderRelinked(m0, m, bs[j], AddressAt(base, end, bs, j + 1), AddressAt(base, end, bs, k + 1));
      } else if k > 0 {
        assert if j < k - 1 then HeadersApart(bs[j], bs[k - 1]) else HeadersApart(bs[k - 1], bs[j]);
        HeaderKept(m0, m, bs[k - 1].off, bs[j], AddressAt(base, end, bs, j + 1));
      }
    }
  }

  /** Pointing the predecessor of node `k` to a new header that points to node `k` links the new one. */
  lemma LinkedWith(m0: seq<byte>, m1: seq<byte>, m: seq<byte>, base: nat, end: nat,
                   bs: seq<Block>, b: Block, k: nat, total: nat)
    requires AllLinked(m0, base, end, bs) && AllHeadersApart(bs, total) && k <= |bs| && k == FirstFit(bs, b.size)
    requires forall i :: 0 <= i < |bs| ==> HeadersApart(bs[i], b)
    requires SameExceptWord(m0, m1, b.off) && Header(m1, b, AddressAt(base, end, bs, k))
    requires k == 0 ==> m == m1
    requires k > 0 ==> SameExceptWord(m1, m, bs[k - 1].off) && bs[k - 1].off + 4 <= |m| &&
                       LoadWord(m, bs[k - 1].off) == base + b.off
    ensures AllLinked(m, base, end, Insert(bs, b))
  {
    var r := Insert(bs, b);
    forall i | 0 <= i < |r| ensures Linked(m, base, end, r, i) {
      if i == k {
        assert r[i] == b && (i + 1 < |r| ==> r[i + 1] == bs[k]);
        if k > 0 {
          assert HeadersApart(bs[k - 1], b);
          HeaderKept(m1, m, bs[k - 1].off, b, AddressAt(base, end, bs, k));
        }
      } else {
        var j := if i < k then i else i - 1;
        assert r[i] == bs[j];
        assert i + 1 < |r| ==> r[i + 1] == if i + 1 < k then bs[i + 1] else if i + 1 == k then b else bs[i];
        OtherNodeLinked(m0, m1, m, base, end, bs, b, k, j, total);
      }
    }
  }

  /** A node already on the list keeps its header, but for the predecessor of the new one, which points to it. */
  lemma OtherNodeLinked(m0: seq<byte>, m1: seq<byte>, m: seq<byte>, base: nat, end: nat,
                        bs: seq<Block>, b: Block, k: nat, j: nat, total: nat)
    requires AllLinked(m0, base, end, bs) && AllHeadersApart(bs, total) && k <= |bs| && j < |bs|
    requires HeadersApart(bs[j], b) && SameExceptWord(m0, m1, b.off)
    requires k == 0 ==> m == m1
    requires k > 0 ==> SameExceptWord(m1, m, bs[k - 1].off) && bs[k - 1].off + 4 <= |m| &&
                       LoadWord(m, bs[k - 1].off) == base + b.off
    ensures Header(m, bs[j], if j + 1 == k then base + b.off else AddressAt(base, end, bs, j + 1))
  {
    assert Linked(m0, base, end, bs, j);
    HeaderKept(m0, m1, b.off, bs[j], AddressAt(base, end, bs, j + 1));
    if j + 1 == k {
      HeaderRelinked(m1, m, bs[j], AddressAt(base, end, bs, j + 1), base + b.off);
    } else if k > 0 {
      assert if j < k - 1 then HeadersApart(bs[j], bs[k - 1]) else HeadersApart(bs[k - 1], bs[j]);
      HeaderKept(m1, m, bs[k - 1].off, bs[j], AddressAt(base, end, bs, j + 1));
    }
  }

  lemma TwoLinkWords(m0: seq<byte>, m1: seq<byte>, m: seq<byte>, bs: seq<Block>, b: Block, k: nat)
    requires k <= |bs| && SameExceptWord(m0, m1, b.off)
    requires if k == 0 then m == m1 else SameExceptWord(m1, m, bs[k - 1].off)
    ensures OnlyLinksChange(m0, m, bs + [b])
  {
    var l := bs + [b];
    forall x | 0 <= x < |m| && !InLink(l, x) ensures m[x] == m0[x] {
      assert l[|bs|] == b;
      assert k > 0 ==> l[k - 1] == bs[k - 1];
    }
  }

  ghost predicate SizeStored(m: seq<byte>, t: Tile) {
    t.off + LINK_SIZE <= |m| && LoadWord(m, t.off + 4) == t.size
  }

  ghost predicate SizesStored(m: seq<byte>, ts: seq<Tile>) {
    forall i :: 0 <= i < |ts| ==> SizeStored(m, ts[i])
  }

  /** Size word, padding and payload of a tile are the same in both memories. */
  ghost predicate Kept(m0: seq<byte>, m: seq<byte>, t: Tile) {
    |m| == |m0| && t.off + t.size <= |m| && forall x :: t.off + 4 <= x < t.off + t.size ==> m[x] == m0[x]
  }

  ghost predicate HeadersOf(bs: seq<Block>, ts: seq<Tile>) {
    forall i :: 0 <= i < |bs| ==> HasTile(ts, bs[i].off)
  }

  lemma SizeKept(m0: seq<byte>, m: seq<byte>, t: Tile)
    requires SizeStored(m0, t) && Kept(m0, m, t) && t.size >= LINK_SIZE
    ensures SizeStored(m, t)
  {
    SameBytesSameNumber(m0, m, t.off + 4, 4);
  }

  /** Writing link words of tile headers touches nothing else in any tile. */
  lemma LinksSpareTiles(s: State, total: nat, m0: seq<byte>, m: seq<byte>, bs: seq<Block>)
    requires WellFormed(s, total) && |m0| == total && HeadersOf(bs, s.tiles) && OnlyLinksChange(m0, m, bs)
    ensures forall i :: 0 <= i < |s.tiles| ==> Kept(m0, m, s.tiles[i])
  {
    AllApart(s.tiles, total);
    forall i | 0 <= i < |s.tiles| ensures Kept(m0, m, s.tiles[i]) {
      var t := s.tiles[i];
      forall x | t.off + 4 <= x < t.off + t.size ensures m[x] == m0[x] {
        forall l | 0 <= l < |bs| ensures !(bs[l].off <= x < bs[l].off + 4) {
          assert HasTile(s.tiles, bs[l].off);
          var j := TileAt(s.tiles, bs[l].off);
          assert TileOk(s.tiles[j]);
        }
      }
    }
  }

  lemma WordSparesTile(s: State, total: nat, m0: seq<byte>, m: seq<byte>, i: nat, j: nat, a: nat)
    requires WellFormed(s, total) && |m0| == total && i < |s.tiles| && j < |s.tiles| && i != j
    requires s.tiles[i].off <= a && a + 4 <= s.tiles[i].off + s.tiles[i].size && SameExceptWord(m0, m, a)
    ensures Kept(m0, m, s.tiles[j])
  {
    AllApart(s.tiles, total);
  }

  lemma LinksSpareSize(m0: seq<byte>, m: seq<byte>, bs: seq<Block>, b: Block)
    requires b.off + LINK_SIZE <= |m0| && OnlyLinksChange(m0, m, bs)
    requires forall i :: 0 <= i < |bs| ==> HeadersApart(bs[i], b)
    ensures LoadWord(m, b.off + 4) == LoadWord(m0, b.off + 4)
  {
    forall x | b.off + 4 <= x < b.off + LINK_SIZE ensures m[x] == m0[x] {
      assert forall i :: 0 <= i < |bs| ==> HeadersApart(bs[i], b);
    }
    SameBytesSameNumber(m0, m, b.off + 4, 4);
  }

  lemma AllKept(s: State, total: nat, m: seq<byte>)
    requires WellFormed(s, total) && |m| == total
    ensures forall t :: t in s.tiles ==> Kept(m, m, t)
  {
    AllApart(s.tiles, total);
  }

  lemma UnlinkingSparesSize(s: State, total: nat, k: nat, i: nat, m0: seq<byte>, m: seq<byte>)
    requires WellFormed(s, total) && |m0| == total && i < |s.tiles| && SizesStored(m0, s.tiles)
    requires k < |s.free| && s.tiles[i] == Tile(s.free[k].off, s.free[k].size, Free) && OnlyLinksChange(m0, m, s.free)
    ensures s.free[k].off + LINK_SIZE <= total && LoadWord(m, s.free[k].off + 4) == s.free[k].size
  {
    FreeHeadersApart(s, total);
    LinksSpareTiles(s, total, m0, m, s.free);
    assert SizeStored(m0, s.tiles[i]) && TileOk(s.tiles[i]) && Kept(m0, m, s.tiles[i]);
    SizeKept(m0, m, s.tiles[i]);
  }

  lemma FreshHasNoLive(total: nat, p: nat)
    ensures !LivePointer(Initial(total), p)
  {
  }

  /** Headers on the list do not overlap, and lie in the array. */
  lemma FreeHeadersApart(s: State, total: nat)
    requires WellFormed(s, total)
    ensures AllHeadersApart(s.free, total) && HeadersOf(s.free, s.tiles)
  {
    AllApart(s.tiles, total);
    forall k | 0 <= k < |s.free|
      ensures STRUCT_SIZE <= s.free[k].size && s.free[k].off + s.free[k].size <= total
      ensures HasTile(s.tiles, s.free[k].off)
    {
      ListedTile(s, total, k);
      assert TileOk(s.tiles[TileAt(s.tiles, s.free[k].off)]);
    }
    forall k, l | 0 <= k < l < |s.free| ensures HeadersApart(s.free[k], s.free[l]) {
      OtherTileApart(s, total, k, l, s.free[k]);
    }
  }

  /** A header inside the tile of listed block `k` is apart from every other listed header. */
  lemma OtherTileApart(s: State, total: nat, k: nat, l: nat, n: Block)
    requires WellFormed(s, total) && k < |s.free| && l < |s.free| && k != l
    requires s.free[k].off <= n.off && n.off + LINK_SIZE <= s.free[k].off + s.free[k].size
    ensures HeadersApart(s.free[l], n) && HeadersApart(n, s.free[l])
  {
    ListedTile(s, total, k);
    ListedTile(s, total, l);
    AllApart(s.tiles, total);
    var i, j := TileAt(s.tiles, s.free[k].off), TileAt(s.tiles, s.free[l].off);
    assert if k < l then InOrder(s.free, k, l) else InOrder(s.free, l, k);
    assert TileOk(s.tiles[j]);
    assert i != j;
  }

  /** The header of a live tile is apart from every listed header. */
  lemma LiveApart(s: State, total: nat, i: nat)
    requires WellFormed(s, total) && i < |s.tiles| && s.tiles[i].use.Live?
    ensures s.tiles[i].off + STRUCT_SIZE <= total && s.tiles[i].size <= total
    ensures forall k :: 0 <= k < |s.free| ==> HeadersApart(s.free[k], Block(s.tiles[i].off, s.tiles[i].size))
  {
    AllApart(s.tiles, total);
    assert TileOk(s.tiles[i]);
    forall k | 0 <= k < |s.free| ensures HeadersApart(s.free[k], Block(s.tiles[i].off, s.tiles[i].size)) {
      ListedTile(s, total, k);
      assert TileOk(s.tiles[TileAt(s.tiles, s.free[k].off)]);
    }
  }

  lemma RestApart(s: State, total: nat, k: nat, n: Block)
    requires WellFormed(s, total) && k < |s.free|
    requires s.free[k].off <= n.off && n.off + LINK_SIZE <= s.free[k].off + s.free[k].size
    ensures var rest := Remove(s.free, k);
            AllHeadersApart(rest, total) && forall i :: 0 <= i < |rest| ==> HeadersApart(rest[i], n)
  {
    FreeHeadersApart(s, total);
    var rest := Remove(s.free, k);
    forall i | 0 <= i < |rest| ensures HeadersApart(rest[i], n) {
      OtherTileApart(s, total, k, if i < k then i else i + 1, n);
    }
    forall i, j | 0 <= i < j < |rest| ensures HeadersApart(rest[i], rest[j]) {
      assert HeadersApart(s.free[if i < k then i else i + 1], s.free[if j < k then j else j + 1]);
    }
  }

  /** A list survives a write to the size word of a header that is not on it. */
  lemma SizeWriteKeepsList(m0: seq<byte>, m: seq<byte>, base: nat, end: nat, bs: seq<Block>, b: Block)
    requires AllLinked(m0, base, end, bs) && SameExceptWord(m0, m, b.off + 4)
    requires forall i :: 0 <= i < |bs| ==> HeadersApart(bs[i], b)
    ensures AllLinked(m, base, end, bs)
  {
    forall i | 0 <= i < |bs| ensures Linked(m, base, end, bs, i) {
      assert Linked(m0, base, end, bs, i) && HeadersApart(bs[i], b);
      HeaderKept(m0, m, b.off + 4, bs[i], AddressAt(base, end, bs, i + 1));
    }
  }

  /** The four memory changes of a cut: unlinking, the two size words, linking the rest. */
  ghost predicate CutWrites(total: nat, free: seq<Block>, b: Block, rest: seq<Block>, n: Block,
                 m0: seq<byte>, m1: seq<byte>, m2: seq<byte>, m3: seq<byte>, m4: seq<byte>) {
    |m0| == total && b.off + LINK_SIZE <= total && n.off + LINK_SIZE <= total &&
    OnlyLinksChange(m0, m1, free) &&
    SameExceptWord(m1, m2, n.off + 4) && LoadWord(m2, n.off + 4) == n.size &&
    SameExceptWord(m2, m3, b.off + 4) && LoadWord(m3, b.off + 4) == b.size &&
    OnlyLinksChange(m3, m4, rest + [n])
  }

  ghost predicate CutTiles(s: State, i: nat, free: seq<Block>, b: Block, rest: seq<Block>, n: Block) {
    i + 1 < |s.tiles| && b.size >= LINK_SIZE && n.size >= LINK_SIZE &&
    HeadersOf(free, s.tiles) && HeadersOf(rest + [n], s.tiles) &&
    s.tiles[i].off == b.off && s.tiles[i].size == b.size && s.tiles[i + 1].off == n.off && s.tiles[i + 1].size == n.size
  }

  lemma CutKeepsTile(s: State, total: nat, i: nat, j: nat, free: seq<Block>, b: Block, rest: seq<Block>, n: Block,
                 m0: seq<byte>, m1: seq<byte>, m2: seq<byte>, m3: seq<byte>, m4: seq<byte>)
    requires WellFormed(s, total) && CutTiles(s, i, free, b, rest, n)
    requires CutWrites(total, free, b, rest, n, m0, m1, m2, m3, m4)
    requires j < |s.tiles| && j != i && j != i + 1
    ensures Kept(m0, m4, s.tiles[j])
  {
    LinksSpareTiles(s, total, m0, m1, free);
    LinksSpareTiles(s, total, m3, m4, rest + [n]);
    WordSparesTile(s, total, m1, m2, i + 1, j, n.off + 4);
    WordSparesTile(s, total, m2, m3, i, j, b.off + 4);
    assert Kept(m0, m1, s.tiles[j]) && Kept(m3, m4, s.tiles[j]);
  }

  lemma CutStoresSizes(s: State, total: nat, i: nat, free: seq<Block>, b: Block, rest: seq<Block>, n: Block,
                 m0: seq<byte>, m1: seq<byte>, m2: seq<byte>, m3: seq<byte>, m4: seq<byte>)
    requires WellFormed(s, total) && CutTiles(s, i, free, b, rest, n)
    requires CutWrites(total, free, b, rest, n, m0, m1, m2, m3, m4)
    ensures SizeStored(m4, s.tiles[i]) && SizeStored(m4, s.tiles[i + 1])
  {
    LinksSpareTiles(s, total, m3, m4, rest + [n]);
    assert Kept(m3, m4, s.tiles[i]) && Kept(m3, m4, s.tiles[i + 1]);
    WordSparesTile(s, total, m2, m3, i, i + 1, b.off + 4);
    SizeKept(m2, m3, s.tiles[i + 1]);
    SizeKept(m3, m4, s.tiles[i + 1]);
    SizeKept(m3, m4, s.tiles[i]);
  }

  /** Tiles `ts'` are `ts` with tile `i` in two parts; the parts' sizes are stored and the other tiles are kept. */
  lemma SplitTilesStored(ts: seq<Tile>, ts': seq<Tile>, i: nat, m0: seq<byte>, m: seq<byte>)
    requires i < |ts| && |ts'| == |ts| + 1 && ts' == Splice(ts, i, ts'[i..i + 2])
    requires SizesStored(m0, ts) && SizeStored(m, ts'[i]) && SizeStored(m, ts'[i + 1])
    requires forall j :: 0 <= j < |ts'| && j != i && j != i + 1 ==> Kept(m0, m, ts'[j]) && ts'[j].size >= LINK_SIZE
    ensures SizesStored(m, ts')
    ensures forall j :: 0 <= j < |ts| && j != i ==> Kept(m0, m, ts[j])
  {
    forall j | 0 <= j < |ts| && j != i ensures Kept(m0, m, ts[j]) {
      assert ts'[if j < i then j else j + 1] == ts[j];
    }
    forall j | 0 <= j < |ts'| ensures SizeStored(m, ts'[j]) {
      if j != i && j != i + 1 {
        var l := if j < i then j else j - 1;
        assert ts'[j] == ts[l] && SizeStored(m0, ts[l]);
        SizeKept(m0, m, ts'[j]);
      }
    }
  }

  /** After the writes of a cut every size is stored and every live tile is intact. */
  lemma CutMemory(s: State, s': State, total: nat, i: nat, free: seq<Block>, b: Block, rest: seq<Block>, n: Block,
                 m0: seq<byte>, m1: seq<byte>, m2: seq<byte>, m3: seq<byte>, m4: seq<byte>)
    requires i < |s.tiles| && s.tiles[i].use.Free? && WellFormed(s', total) && CutTiles(s', i, free, b, rest, n)
    requires |s'.tiles| == |s.tiles| + 1 && s'.tiles == Splice(s.tiles, i, s'.tiles[i..i + 2])
    requires CutWrites(total, free, b, rest, n, m0, m1, m2, m3, m4) && SizesStored(m0, s.tiles)
    ensures SizesStored(m4, s'.tiles)
    ensures forall t :: t in s.tiles && t.use.Live? ==> Kept(m0, m4, t)
  {
    forall j | 0 <= j < |s'.tiles| && j != i && j != i + 1
      ensures Kept(m0, m4, s'.tiles[j]) && s'.tiles[j].size >= LINK_SIZE
    {
      CutKeepsTile(s', total, i, j, free, b, rest, n, m0, m1, m2, m3, m4);
      assert TileOk(s'.tiles[j]);
    }
    CutStoresSizes(s', total, i, free, b, rest, n, m0, m1, m2, m3, m4);
    SplitTilesStored(s.tiles, s'.tiles, i, m0, m4);
  }

  lemma CutHeaders(s: State, total: nat, k: nat, i: nat, wanted: uint32, padded: nat)
    requires WellFormed(s, total) && k < |s.free| && i < |s.tiles| && padded <= s.free[k].size
    requires s.tiles[i] == Tile(s.free[k].off, s.free[k].size, Free)
    ensures var n := Block(s.free[k].off + padded, s.free[k].size - padded);
            var ts := Cut(s, k, i, wanted, padded).tiles;
            HeadersOf(s.free, ts) && HeadersOf(Remove(s.free, k) + [n], ts)
  {
    var n := Block(s.free[k].off + padded, s.free[k].size - padded);
    var s' := Cut(s, k, i, wanted, padded);
    forall l | 0 <= l < |s.free| ensures HasTile(s'.tiles, s.free[l].off) {
      ListedTile(s, total, l);
      var j := TileAt(s.tiles, s.free[l].off);
      assert s'.tiles[if j <= i then j else j + 1].off == s.free[l].off;
    }
    assert s'.tiles[i + 1].off == n.off;
    var bs := Remove(s.free, k) + [n];
    forall l | 0 <= l < |bs| ensures HasTile(s'.tiles, bs[l].off) {
      assert l < |bs| - 1 ==> bs[l] == s.free[if l < k then l else l + 1];
    }
  }

  /** Link writes alone leave tiles of the same places and sizes intact. */
  lemma SameTilesMemory(s: State, s': State, total: nat, i: nat, u: Use, bs: seq<Block>, m0: seq<byte>, m: seq<byte>)
    requires WellFormed(s, total) && i < |s.tiles| && |m0| == total && SizesStored(m0, s.tiles)
    requires s'.tiles == Splice(s.tiles, i, [s.tiles[i].(use := u)])
    requires HeadersOf(bs, s.tiles) && OnlyLinksChange(m0, m, bs)
    ensures SizesStored(m, s'.tiles)
    ensures forall t :: t in s.tiles && t.use.Live? ==> Kept(m0, m, t)
  {
    LinksSpareTiles(s, total, m0, m, bs);
    forall j | 0 <= j < |s'.tiles| ensures SizeStored(m, s'.tiles[j]) {
      assert SizeStored(m0, s.tiles[j]) && TileOk(s.tiles[j]);
      SizeKept(m0, m, s.tiles[j]);
    }
  }

  /** What a cut needs to know about the list, and what it yields. */
  lemma CutPlan(s: State, s': State, total: nat, k: nat, i: nat, wanted: uint32, b: Block, rest: seq<Block>, n: Block)
    requires WellFormed(s, total) && k < |s.free| && i < |s.tiles|
    requires s.tiles[i] == Tile(s.free[k].off, s.free[k].size, Free) && rest == Remove(s.free, k)
    requires b.off == s.free[k].off && n.off == b.off + b.size && n.size == s.free[k].size - b.size
    requires wanted > 0 && b.size >= wanted + STRUCT_SIZE && b.size % ALIGNMENT == 0
    requires s.free[k].size - b.size > MINIMUM_BLOCK_SIZE && s' == Cut(s, k, i, wanted, b.size)
    ensures AllHeadersApart(rest, total) && n.off + STRUCT_SIZE <= total && n.size <= total
    ensures forall l :: 0 <= l < |rest| ==> HeadersApart(rest[l], b)
    ensures forall l :: 0 <= l < |rest| ==> HeadersApart(rest[l], n)
    ensures WellFormed(s', total) && CutTiles(s', i, s.free, b, rest, n)
    ensures |s'.tiles| == |s.tiles| + 1 && s'.tiles == Splice(s.tiles, i, s'.tiles[i..i + 2])
  {
    assert TileOk(s.tiles[i]);
    RestApart(s, total, k, n);
    RestApart(s, total, k, b);
    AllApart(s.tiles, total);
    TakeCut(s, total, k, i, wanted, b.size);
    CutHeaders(s, total, k, i, wanted, b.size);
    assert s'.tiles[i..i + 2] == [s'.tiles[i], s'.tiles[i + 1]];
  }

  lemma WholeMemory(s: State, s': State, total: nat, k: nat, i: nat, wanted: uint32, m0: seq<byte>, m: seq<byte>)
    requires WellFormed(s, total) && k < |s.free| && i < |s.tiles| && |m0| == total && SizesStored(m0, s.tiles)
    requires s.tiles[i] == Tile(s.free[k].off, s.free[k].size, Free)
    requires wanted > 0 && s.free[k].size >= wanted + STRUCT_SIZE
    requires OnlyLinksChange(m0, m, s.free) && s' == Whole(s, k, i, wanted)
    ensures WellFormed(s', total) && SizesStored(m, s'.tiles)
    ensures forall t :: t in s.tiles && t.use.Live? ==> Kept(m0, m, t)
  {
    TakeWhole(s, total, k, i, wanted);
    FreeHeadersApart(s, total);
    assert s'.tiles == Splice(s.tiles, i, [s.tiles[i].(use := Live(wanted))]);
    SameTilesMemory(s, s', total, i, Live(wanted), s.free, m0, m);
  }

  /** What relinking the header of live pointer `p` needs to know about the list. */
  lemma FreePlan(s: State, total: nat, p: nat) returns (i: nat, b: Block)
    requires WellFormed(s, total) && LivePointer(s, p)
    ensures p >= STRUCT_SIZE && i < |s.tiles| && s.tiles[i].use.Live?
    ensures s.tiles[i].off == b.off == p - STRUCT_SIZE && s.tiles[i].size == b.size
    ensures AllHeadersApart(s.free, total) && HeaderFits(b, total)
    ensures forall k :: 0 <= k < |s.free| ==> HeadersApart(s.free[k], b)
  {
    LiveTile(s, total, p);
    i := TileAt(s.tiles, p - STRUCT_SIZE);
    b := Block(s.tiles[i].off, s.tiles[i].size);
    LiveApart(s, total, i);
    FreeHeadersApart(s, total);
  }

  /** The abstract release matches the memory after relinking. */
  lemma FreeMemory(s: State, s': State, total: nat, p: nat, i: nat, b: Block, m0: seq<byte>, m: seq<byte>)
    requires WellFormed(s, total) && LivePointer(s, p) && s' == Release(s, p) && p >= STRUCT_SIZE && i < |s.tiles|
    requires s.tiles[i].off == b.off == p - STRUCT_SIZE && s.tiles[i].size == b.size && s.tiles[i].use.Live?
    requires |m0| == total && SizesStored(m0, s.tiles) && OnlyLinksChange(m0, m, s.free + [b])
    ensures WellFormed(s', total) && s'.free == Insert(s.free, b) && s'.remaining == s.remaining + b.size
    ensures SizesStored(m, s'.tiles) && SizeStored(m, s.tiles[i])
    ensures forall t :: t in s.tiles && t.use.Live? ==> Kept(m0, m, t)
  {
    LiveTile(s, total, p);
    UniqueTile(s, total, i, TileAt(s.tiles, p - STRUCT_SIZE));
    ReleaseWellFormed(s, total, p);
    FreeHeadersApart(s, total);
    assert s'.tiles == Splice(s.tiles, i, [s.tiles[i].(use := Free)]);
    SameTilesMemory(s, s', total, i, Free, s.free + [b], m0, m);
    assert SizeStored(m, s'.tiles[i]);
  }

  ghost predicate InLivePayload(ts: seq<Tile>, x: nat) {
    exists i :: 0 <= i < |ts| && ts[i].use.Live? && ts[i].off + STRUCT_SIZE <= x < ts[i].off + ts[i].size
  }

  lemma HeaderIsNoPayload(s: State, total: nat, i: nat, x: nat)
    requires WellFormed(s, total) && i < |s.tiles| && s.tiles[i].off <= x < s.tiles[i].off + LINK_SIZE
    ensures !InLivePayload(s.tiles, x)
  {
    AllApart(s.tiles, total);
    assert TileOk(s.tiles[i]);
  }

  ghost predicate OnlyPayloadsChange(ts: seq<Tile>, m0: seq<byte>, m: seq<byte>) {
    |m| == |m0| && forall x :: 0 <= x < |m| && !InLivePayload(ts, x) ==> m[x] == m0[x]
  }

  lemma HeaderUntouched(s: State, total: nat, m0: seq<byte>, m: seq<byte>, i: nat)
    requires WellFormed(s, total) && |m0| == total && i < |s.tiles| && OnlyPayloadsChange(s.tiles, m0, m)
    ensures s.tiles[i].off + LINK_SIZE <= total
    ensures LoadWord(m, s.tiles[i].off) == LoadWord(m0, s.tiles[i].off)
    ensures LoadWord(m, s.tiles[i].off + 4) == LoadWord(m0, s.tiles[i].off + 4)
  {
    AllApart(s.tiles, total);
    assert TileOk(s.tiles[i]);
    forall x | s.tiles[i].off <= x < s.tiles[i].off + LINK_SIZE ensures m[x] == m0[x] {
      HeaderIsNoPayload(s, total, i, x);
    }
    SameBytesSameNumber(m0, m, s.tiles[i].off, 4);
    SameBytesSameNumber(m0, m, s.tiles[i].off + 4, 4);
  }

  lemma NodeUntouched(s: State, total: nat, m0: seq<byte>, m: seq<byte>, k: nat, next: nat)
    requires WellFormed(s, total) && |m0| == total && k < |s.free| && OnlyPayloadsChange(s.tiles, m0, m)
    requires Header(m0, s.free[k], next)
    ensures Header(m, s.free[k], next)
  {
    ListedTile(s, total, k);
    HeaderUntouched(s, total, m0, m, TileAt(s.tiles, s.free[k].off));
  }

  /** Whatever the owners of live blocks write into them, the list and the stored sizes stay readable. */
  lemma ClientWritesHarmless(s: State, total: nat, base: nat, end: nat, m0: seq<byte>, m: seq<byte>)
    requires WellFormed(s, total) && |m0| == total && OnlyPayloadsChange(s.tiles, m0, m)
    requires AllLinked(m0, base, end, s.free) && SizesStored(m0, s.tiles)
    ensures AllLinked(m, base, end, s.free) && SizesStored(m, s.tiles)
  {
    forall i | 0 <= i < |s.tiles| ensures SizeStored(m, s.tiles[i]) {
      assert SizeStored(m0, s.tiles[i]);
      HeaderUntouched(s, total, m0, m, i);
    }
    forall k | 0 <= k < |s.free| ensures Linked(m, base, end, s.free, k) {
      assert Linked(m0, base, end, s.free, k);
      NodeUntouched(s, total, m0, m, k, AddressAt(base, end, s.free, k + 1));
    }
  }

  class Heap {
    const total: nat            // configTOTAL_HEAP_SIZE
    const base: nat             // address of ucHeap
    const START: nat            // address of xStart
    const END: nat              // address of xEnd
    const ucHeap: array<byte>

    var startNext: uint32
    var startSize: uint32
    var endNext: uint32
    var endSize: uint32
    var freeBytesRemaining: int
    var initialised: bool
    ghost var st: State

    ghost predicate Layout() {
      GoodTotal(total) && ucHeap.Length == total &&
      base > 0 && base % ALIGNMENT == 0 && base + total < TWO_TO_THE_32 &&
      0 < START < TWO_TO_THE_32 && 0 < END < TWO_TO_THE_32 && START != END &&
      !(base <= START < base + total) && !(base <= END < base + total)
    }

    predicate IsNode(a: nat) {
      a == START || a == END || (base <= a && a - base + LINK_SIZE <= total)
    }

    function NextOf(a: nat): uint32
      requires Layout() && IsNode(a)
      reads this, ucHeap
    {
      if a == START then startNext else if a == END then endNext else LoadWord(ucHeap[..], a - base)
    }

    function SizeOf(a: nat): uint32
      requires Layout() && IsNode(a)
      reads this, ucHeap
    {
      if a == START then startSize else if a == END then endSize else LoadWord(ucHeap[..], a - base + 4)
    }

    /** Following links from xStart visits exactly the blocks `bs`, in order, and ends at xEnd. */
    ghost predicate Chain(bs: seq<Block>)
      reads this, ucHeap
    {
      startNext == AddressAt(base, END, bs, 0) && endNext == 0 && endSize == total &&
      AllLinked(ucHeap[..], base, END, bs)
    }

    ghost predicate Valid()
      reads this, ucHeap
    {
      Layout() && WellFormed(st, total) && freeBytesRemaining == st.remaining &&
      (!initialised ==> st == Initial(total)) &&
      (initialised ==> Chain(st.free) && SizesStored(ucHeap[..], st.tiles))
    }

    constructor (total: nat, base: nat, start: nat, end: nat)
      requires GoodTotal(total) && base > 0 && base % ALIGNMENT == 0 && base + total < TWO_TO_THE_32
      requires 0 < start < TWO_TO_THE_32 && 0 < end < TWO_TO_THE_32 && start != end
      requires !(base <= start < base + total) && !(base <= end < base + total)
      ensures Valid() && fresh(ucHeap) && st == Initial(total) && this.total == total && this.base == base
    {
      this.total, this.base, START, END := total, base, start, end;
      ucHeap := new byte[total];
      startNext, startSize, endNext, endSize := 0, 0, 0, 0;
      freeBytesRemaining, initialised := total, false;
      st := Initial(total);
      InitialWellFormed(total);
    }

    method SetNext(a: nat, next: uint32)
      requires Layout() && IsNode(a) && a != END
      modifies this`startNext, ucHeap
      ensures NextOf(a) == next
      ensures a != START ==> startNext == old(startNext)
      ensures a == START ==> ucHeap[..] == old(ucHeap[..])
      ensures a != START ==> SameExceptWord(old(ucHeap[..]), ucHeap[..], a - base)
    {
      if a == START {
        startNext := next;
      } else {
        StoreWord(ucHeap, a - base, next);
      }
    }

    /** prvHeapInit: one free block takes up the whole array. */
    method Init()
      requires Valid() && !initialised
      modifies this, ucHeap
      ensures Valid() && initialised && st == old(st)
    {
      startNext, startSize := base, 0;
      endSize, endNext := total, 0;
      StoreWord(ucHeap, 4, total);
      ghost var m1 := ucHeap[..];
      StoreWord(ucHeap, 0, END);
      SameBytesSameNumber(m1, ucHeap[..], 4, 4);
      assert Linked(ucHeap[..], base, END, st.free, 0);
      assert SizeStored(ucHeap[..], st.tiles[0]);
      initialised := true;
    }

    /** A list whose headers are apart survives the unlinking of node `k`. */
    method Unlink(previous: nat, block: nat, ghost bs: seq<Block>, ghost k: nat)
      requires Layout() && Chain(bs) && AllHeadersApart(bs, total) && k < |bs|
      requires previous == (if k == 0 then START else base + bs[k - 1].off) && block == base + bs[k].off
      modifies this`startNext, ucHeap
      ensures Chain(Remove(bs, k))
      ensures OnlyLinksChange(old(ucHeap[..]), ucHeap[..], bs)
    {
      assert Linked(ucHeap[..], base, END, bs, k);
      assert k > 0 ==> Linked(ucHeap[..], base, END, bs, k - 1);
      SetNext(previous, NextOf(block));
      LinkedWithout(old(ucHeap[..]), ucHeap[..], base, END, bs, k, total);
    }

    /** What a walk reads at position `k` of the list. */
    lemma ReadNode(bs: seq<Block>, k: nat)
      requires Layout() && Chain(bs) && AllFit(bs, total) && k <= |bs|
      ensures var a := AddressAt(base, END, bs, k);
              IsNode(a) && a != 0 && a != START && (a == END <==> k == |bs|) &&
              SizeOf(a) == (if k < |bs| then bs[k].size else total) &&
              NextOf(a) == if k < |bs| then AddressAt(base, END, bs, k + 1) else 0
    {
      assert k < |bs| ==> Linked(ucHeap[..], base, END, bs, k);
    }

    /** Walks past every smaller block; the end marker stops the walk, being as large as the heap. */
    method WalkPastSmaller(size: nat, ghost bs: seq<Block>) returns (node: nat, ghost k: nat)
      requires Layout() && Chain(bs) && AllFit(bs, total) && size <= total
      ensures k == FirstFit(bs, size)
      ensures node == if k == 0 then START else base + bs[k - 1].off
      ensures IsNode(node) && NextOf(node) == AddressAt(base, END, bs, k)
    {
      node, k := START, 0;
      ReadNode(bs, 0);
      while SizeOf(NextOf(node)) < size
        invariant 0 <= k <= |bs| && forall i :: 0 <= i < k ==> bs[i].size < size
        invariant node == if k == 0 then START else AddressAt(base, END, bs, k - 1)
        invariant IsNode(node) && NextOf(node) == AddressAt(base, END, bs, k)
        invariant IsNode(NextOf(node)) && SizeOf(NextOf(node)) == if k < |bs| then bs[k].size else total
        decreases |bs| - k
      {
        ReadNode(bs, k);
        node := NextOf(node);
        k := k + 1;
        ReadNode(bs, k);
      }
      assert StopsAt(bs, size, k);
    }

    /** prvInsertBlockIntoFreeList */
    method InsertBlock(block: nat, ghost bs: seq<Block>, ghost b: Block)
      requires Layout() && Chain(bs) && AllHeadersApart(bs, total)
      requires block == base + b.off && b.off + LINK_SIZE <= total && SizeOf(block) == b.size <= total
      requires forall i :: 0 <= i < |bs| ==> HeadersApart(bs[i], b)
      modifies this`startNext, ucHeap
      ensures Chain(Insert(bs, b))
      ensures OnlyLinksChange(old(ucHeap[..]), ucHeap[..], bs + [b])
    {
      ghost var m0 := ucHeap[..];
      var node, k := WalkPastSmaller(SizeOf(block), bs);
      SetNext(block, NextOf(node));
      ghost var m1 := ucHeap[..];
      HeaderRelinked(m0, m1, b, LoadWord(m0, b.off), AddressAt(base, END, bs, k));
      SetNext(node, block);
      LinkedWith(m0, m1, ucHeap[..], base, END, bs, b, k, total);
      TwoLinkWords(m0, m1, ucHeap[..], bs, b, k);
    }

    /** The first-fit walk of pvPortMalloc. */
    method Search(padded: nat, ghost bs: seq<Block>) returns (previous: nat, block: nat, ghost k: nat)
      requires Layout() && Chain(bs) && AllFit(bs, total) && 0 < padded < total
      ensures k == FirstFit(bs, padded)
      ensures previous == if k == 0 then START else base + bs[k - 1].off
      ensures block == AddressAt(base, END, bs, k) && IsNode(previous) && IsNode(block) && NextOf(previous) == block
      ensures k < |bs| ==> SizeOf(block) == bs[k].size
    {
      previous, block, k := START, startNext, 0;
      ReadNode(bs, 0);
      while SizeOf(block) < padded && NextOf(block) != 0
        invariant 0 <= k <= |bs| && forall i :: 0 <= i < k ==> bs[i].size < padded
        invariant previous == if k == 0 then START else AddressAt(base, END, bs, k - 1)
        invariant IsNode(previous) && NextOf(previous) == block == AddressAt(base, END, bs, k)
        invariant IsNode(block) && SizeOf(block) == if k < |bs| then bs[k].size else total
        decreases |bs| - k
      {
        ReadNode(bs, k);
        previous := block;
        block := NextOf(block);
        k := k + 1;
        ReadNode(bs, k);
      }
      ReadNode(bs, k);
      if k < |bs| {
        ReadNode(bs, k + 1);
      }
      assert StopsAt(bs, padded, k);
    }

    /** The tail `n` of the unlinked block `b` gets a header and goes on the list. */
    method Split(block: nat, padded: nat, ghost rest: seq<Block>, ghost b: Block, ghost n: Block)
      returns (ghost m1: seq<byte>, ghost m2: seq<byte>)
      requires Layout() && Chain(rest) && AllHeadersApart(rest, total)
      requires block == base + b.off && n.off == b.off + padded && padded >= STRUCT_SIZE && b.size == padded
      requires n.off + STRUCT_SIZE <= total && n.size <= total && SizeOf(block) == padded + n.size
      requires forall i :: 0 <= i < |rest| ==> HeadersApart(rest[i], b)
      requires forall i :: 0 <= i < |rest| ==> HeadersApart(rest[i], n)
      modifies this`startNext, ucHeap
      ensures Chain(Insert(rest, n))
      ensures SameExceptWord(old(ucHeap[..]), m1, n.off + 4) && LoadWord(m1, n.off + 4) == n.size
      ensures SameExceptWord(m1, m2, b.off + 4) && LoadWord(m2, b.off + 4) == b.size
      ensures OnlyLinksChange(m2, ucHeap[..], rest + [n]) && SizeOf(block) == padded
    {
      var newBlock := block + padded;
      ghost var m0 := ucHeap[..];
      StoreWord(ucHeap, newBlock - base + 4, SizeOf(block) - padded);
      m1 := ucHeap[..];
      assert SameExceptWord(m0, m1, n.off + 4);
      SizeWriteKeepsList(m0, m1, base, END, rest, n);
      StoreWord(ucHeap, block - base + 4, padded);
      m2 := ucHeap[..];
      assert SameExceptWord(m1, m2, b.off + 4);
      SizeWriteKeepsList(m1, m2, base, END, rest, b);
      SameBytesSameNumber(m1, m2, n.off + 4, 4);
      InsertBlock(newBlock, rest, n);
      assert (rest + [n])[|rest|] == n;
      LinksSpareSize(m2, ucHeap[..], rest + [n], b);
    }

    /** A listed block, found at `previous` and `block`, leaves the list; only link words change. */
    method Detach(previous: nat, block: nat, ghost s: State, ghost k: nat, ghost i: nat)
      requires Layout() && WellFormed(s, total) && Chain(s.free) && SizesStored(ucHeap[..], s.tiles)
      requires k < |s.free| && i < |s.tiles| && s.tiles[i] == Tile(s.free[k].off, s.free[k].size, Free)
      requires previous == (if k == 0 then START else base + s.free[k - 1].off) && block == base + s.free[k].off
      modifies this`startNext, ucHeap
      ensures Chain(Remove(s.free, k)) && IsNode(block) && SizeOf(block) == s.free[k].size
      ensures OnlyLinksChange(old(ucHeap[..]), ucHeap[..], s.free)
    {
      ghost var m0 := ucHeap[..];
      FreeHeadersApart(s, total);
      Unlink(previous, block, s.free, k);
      UnlinkingSparesSize(s, total, k, i, m0, ucHeap[..]);
    }

    /** The cut of detached block `k` of `s`: its effect on memory. */
    method CutBlock(block: nat, padded: nat,
                    ghost s: State, ghost wanted: uint32, ghost k: nat, ghost i: nat, ghost m0: seq<byte>)
      requires Layout() && WellFormed(s, total) && k < |s.free| && i < |s.tiles|
      requires s.tiles[i] == Tile(s.free[k].off, s.free[k].size, Free) && block == base + s.free[k].off
      requires wanted > 0 && padded >= wanted + STRUCT_SIZE && padded % ALIGNMENT == 0
      requires s.free[k].size - padded > MINIMUM_BLOCK_SIZE && IsNode(block) && SizeOf(block) == s.free[k].size
      requires |m0| == total && SizesStored(m0, s.tiles) && OnlyLinksChange(m0, ucHeap[..], s.free)
      requires Chain(Remove(s.free, k))
      modifies this`startNext, ucHeap
      ensures WellFormed(Cut(s, k, i, wanted, padded), total)
      ensures Chain(Cut(s, k, i, wanted, padded).free)
      ensures SizesStored(ucHeap[..], Cut(s, k, i, wanted, padded).tiles) && SizeOf(block) == padded
      ensures forall t :: t in s.tiles && t.use.Live? ==> Kept(m0, ucHeap[..], t)
    {
      ghost var rest, m1 := Remove(s.free, k), ucHeap[..];
      ghost var b, n := Block(s.free[k].off, padded), Block(s.free[k].off + padded, s.free[k].size - padded);
      ghost var s' := Cut(s, k, i, wanted, padded);
      CutPlan(s, s', total, k, i, wanted, b, rest, n);
      ghost var m2, m3 := Split(block, padded, rest, b, n);
      ghost var m4 := ucHeap[..];
      CutMemory(s, s', total, i, s.free, b, rest, n, m0, m1, m2, m3, m4);
    }

    /** Detaching block `k` of `s` and cutting it when the rest is worth keeping. */
    method TakeBlock(previous: nat, block: nat, padded: nat, ghost wanted: uint32, ghost k: nat, ghost i: nat)
      requires Valid() && initialised && k < |st.free| && i < |st.tiles|
      requires st.tiles[i] == Tile(st.free[k].off, st.free[k].size, Free)
      requires previous == (if k == 0 then START else base + st.free[k - 1].off) && block == base + st.free[k].off
      requires wanted > 0 && st.free[k].size >= padded >= wanted + STRUCT_SIZE && padded % ALIGNMENT == 0
      modifies this, ucHeap
      ensures Valid() && initialised
      ensures st == if old(st).free[k].size - padded > MINIMUM_BLOCK_SIZE then Cut(old(st), k, i, wanted, padded)
                    else Whole(old(st), k, i, wanted)
      ensures forall t :: t in old(st.tiles) && t.use.Live? ==> Kept(old(ucHeap[..]), ucHeap[..], t)
    {
      ghost var s, m0 := st, ucHeap[..];
      Detach(previous, block, s, k, i);
      if SizeOf(block) - padded > MINIMUM_BLOCK_SIZE {
        CutBlock(block, padded, s, wanted, k, i, m0);
        st := Cut(s, k, i, wanted, padded);
      } else {
        st := Whole(s, k, i, wanted);
        WholeMemory(s, st, total, k, i, wanted, m0, ucHeap[..]);
      }
      freeBytesRemaining := freeBytesRemaining - SizeOf(block);
    }

    /** The size computation at the head of pvPortMalloc. */
    method PadSize(wanted: uint32) returns (size: uint32)
      ensures size == Padded(wanted)
    {
      size := wanted;
      if size > 0 {
        size := (size + STRUCT_SIZE) % TWO_TO_THE_32;
        if size % ALIGNMENT != 0 {
          size := (size + (ALIGNMENT - size % ALIGNMENT)) % TWO_TO_THE_32;
        }
      }
    }

    method Allocate(size: uint32, ghost wanted: uint32) returns (p: uint32)
      requires Valid() && initialised
      requires size > 0 ==> wanted > 0 && size >= wanted + STRUCT_SIZE && size % ALIGNMENT == 0
      modifies this, ucHeap
      ensures Valid() && initialised
      ensures var (s', r) := MallocPadded(old(st), total, wanted, size);
              st == s' && p == if r.Some? then base + r.value else 0
      ensures forall t :: t in old(st.tiles) && t.use.Live? ==> Kept(old(ucHeap[..]), ucHeap[..], t)
    {
      p := 0;
      AllKept(st, total, ucHeap[..]);
      if 0 < size < total {
        FreeHeadersApart(st, total);
        var previous, block, k := Search(size, st.free);
        ReadNode(st.free, k);
        if block != END {
          ListedTile(st, total, k);
          assert HeaderFits(st.free[k], total);
          p := NextOf(previous) + STRUCT_SIZE;
          TakeBlock(previous, block, size, wanted, k, TileAt(st.tiles, st.free[k].off));
        }
      }
    }

    /** pvPortMalloc */
    method PortMalloc(wanted: uint32) returns (p: uint32)
      requires Valid() && Handled(wanted)
      modifies this, ucHeap
      ensures Valid() && initialised
      ensures var (s', r) := Malloc(old(st), total, wanted);
              st == s' && p == if r.Some? then base + r.value else 0
      ensures forall t :: t in old(st.tiles) && t.use.Live? ==> Kept(old(ucHeap[..]), ucHeap[..], t)
    {
      if !initialised {
        Init();
      }
      if wanted > 0 { PaddedIsLeast(wanted); }
      var size := PadSize(wanted);
      p := Allocate(size, wanted);
    }

    /** Puts the header of live pointer `p` back on the list. */
    method Relink(link: nat, ghost s: State, ghost p: nat) returns (ghost s': State)
      requires Layout() && WellFormed(s, total) && Chain(s.free) && SizesStored(ucHeap[..], s.tiles)
      requires LivePointer(s, p) && p >= STRUCT_SIZE && link == base + p - STRUCT_SIZE
      modifies this`startNext, ucHeap
      ensures s' == Release(s, p) && WellFormed(s', total) && Chain(s'.free) && SizesStored(ucHeap[..], s'.tiles)
      ensures IsNode(link) && s'.remaining == s.remaining + SizeOf(link)
      ensures forall t :: t in s.tiles && t.use.Live? ==> Kept(old(ucHeap[..]), ucHeap[..], t)
    {
      ghost var m0 := ucHeap[..];
      ghost var i, b := FreePlan(s, total, p);
      assert SizeStored(m0, s.tiles[i]);
      InsertBlock(link, s.free, b);
      s' := Release(s, p);
      FreeMemory(s, s', total, p, i, b, m0, ucHeap[..]);
    }

    method FreeBlock(p: uint32, ghost q: nat)
      requires Valid() && p == base + q && LivePointer(st, q)
      modifies this, ucHeap
      ensures Valid() && st == Release(old(st), q)
      ensures forall t :: t in old(st.tiles) && t.use.Live? ==> Kept(old(ucHeap[..]), ucHeap[..], t)
    {
      FreshHasNoLive(total, q);
      LiveHasTile(st, q);
      var link := p - STRUCT_SIZE;
      ghost var s' := Relink(link, st, q);
      st := s';
      freeBytesRemaining := freeBytesRemaining + SizeOf(link);
    }

    /** vPortFree */
    method PortFree(p: uint32)
      requires Valid() && (p != 0 ==> p >= base && LivePointer(st, p - base))
      modifies this, ucHeap
      ensures Valid()
      ensures st == if p == 0 then old(st) else Release(old(st), p - base)
      ensures forall t :: t in old(st.tiles) && t.use.Live? ==> Kept(old(ucHeap[..]), ucHeap[..], t)
    {
      AllKept(st, total, ucHeap[..]);
      if p != 0 {
        FreeBlock(p, p - base);
      }
    }

    /** xPortGetFreeHeapSize: the array less what the live blocks hold. */
    method FreeHeapSize() returns (n: int)
      requires Valid()
      ensures n == Sum(st.free) == total - LiveSum(st.tiles)
    {
      n := freeBytesRemaining;
    }
  }
}
