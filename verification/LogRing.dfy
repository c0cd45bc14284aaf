/** __ecm_jprintf: a log region written cyclically in at most two copies. */
module LogRing {
  import opened Machine

  // ---------------------------------------------------------------- positions

  lemma ModIs(x: nat, c: nat, q: nat, r: nat)
    requires c > 0 && x == c * q + r && r < c
    ensures x % c == r
  {
    var q', r' := x / c, x % c;
    assert x == c * q' + r';
    assert q' + 1 <= q ==> c * (q' + 1) <= c * q;
    assert q + 1 <= q' ==> c * (q + 1) <= c * q';
  }

  /** Going `d` further on a ring of `c` wraps at most once when `d` is at most `c`. */
  lemma Forward(t: nat, d: nat, c: nat)
    requires c > 0 && d <= c
    ensures (t + d) % c == if t % c + d < c then t % c + d else t % c + d - c
  {
    var q, r := t / c, t % c;
    if r + d < c {
      ModIs(t + d, c, q, r + d);
    } else {
      assert c * (q + 1) == c * q + c;
      ModIs(t + d, c, q + 1, r + d - c);
    }
  }

  lemma Backward(t: nat, e: nat, c: nat)
    requires c > 0 && e <= c && e <= t
    ensures (t - e) % c == if e <= t % c then t % c - e else t % c - e + c
  {
    Forward(t - e, e, c);
  }

  /** Byte `k` of a stream of length `t` is one of the last `c`. */
  predicate Recent(k: nat, t: nat, c: nat) {
    k < t <= k + c
  }

  /** Offset `k % c` of the region holds byte `k` of the stream. */
  ghost predicate Holds(m: seq<byte>, start: nat, c: nat, stream: seq<byte>, k: nat)
    requires c > 0 && start + c <= |m| && k < |stream|
  {
    m[start + k % c] == stream[k]
  }

  /** The region is the ring of the last `c` bytes of the stream. */
  ghost predicate IsRing(m: seq<byte>, start: nat, c: nat, stream: seq<byte>) {
    c > 0 && start + c <= |m| &&
    forall k :: 0 <= k < |stream| && Recent(k, |stream|, c) ==> Holds(m, start, c, stream, k)
  }

  /** Memory `m` is `m0` with `buf` copied to `at`. */
  ghost predicate Copied(m0: seq<byte>, m: seq<byte>, at: nat, buf: seq<byte>) {
    |m| == |m0| && at + |buf| <= |m| &&
    forall x :: 0 <= x < |m| ==> m[x] == if at <= x < at + |buf| then buf[x - at] else m0[x]
  }

  /** Two pieces, the second from the start of the region, continue the ring. */
  lemma TwoPiecesContinue(m0: seq<byte>, m1: seq<byte>, m: seq<byte>, start: nat, c: nat,
                          stream: seq<byte>, buf: seq<byte>, n: nat)
    requires IsRing(m0, start, c, stream) && |buf| <= c
    requires n == (if |stream| % c + |buf| < c then |buf| else c - |stream| % c)
    requires Copied(m0, m1, start + |stream| % c, buf[..n]) && Copied(m1, m, start, buf[n..])
    ensures IsRing(m, start, c, stream + buf)
  {
    var t, p, s := |stream|, |stream| % c, stream + buf;
    forall k | 0 <= k < |s| && Recent(k, |s|, c) ensures Holds(m, start, c, s, k) {
      if k >= t {
        Forward(t, k - t, c);
        assert k - t < n <==> p + (k - t) < c;
        assert if k - t < n then buf[..n][k - t] == buf[k - t] else buf[n..][k - t - n] == buf[k - t];
      } else {
        assert Recent(k, t, c) && Holds(m0, start, c, stream, k);
        Backward(t, t - k, c);
        assert k % c < c;
      }
    }
  }

  /** Read from the write position once around, a full ring is the end of the stream; before that the region starts with
      all of it. */
  lemma ReadsBack(m: seq<byte>, start: nat, c: nat, stream: seq<byte>)
    requires IsRing(m, start, c, stream)
    ensures var t, p := |stream|, |stream| % c;
            if t >= c then m[start + p..start + c] + m[start..start + p] == stream[t - c..]
            else m[start..start + t] == stream
  {
    var t, p := |stream|, |stream| % c;
    if t >= c {
      var r := m[start + p..start + c] + m[start..start + p];
      forall i | 0 <= i < c ensures r[i] == stream[t - c..][i] {
        Backward(t, c, c);
        Forward(t - c, i, c);
        assert Holds(m, start, c, stream, t - c + i);
      }
    } else {
      forall i | 0 <= i < t ensures m[start + i] == stream[i] {
        ModIs(i, c, 0, i);
        assert Holds(m, start, c, stream, i);
      }
    }
  }

  class Log {
    const mem: array<byte>
    const START: nat
    const END: nat
    var point: nat
    ghost var stream: seq<byte>          // everything ever logged

    ghost function Capacity(): int {
      END - 1 - START
    }

    ghost predicate Valid()
      reads this, mem
    {
      START < END - 1 && END <= mem.Length &&
      point == START + |stream| % Capacity() && START <= point < END - 1 &&
      IsRing(mem[..], START, Capacity(), stream)
    }

    constructor (mem: array<byte>, start: nat, end: nat)
      requires start < end - 1 && end <= mem.Length
      ensures Valid() && stream == [] && this.mem == mem && START == start && END == end
    {
      this.mem, START, END, point, stream := mem, start, end, start, [];
      new;
      ModIs(0, Capacity(), 0, 0);
    }

    /** DmaMemCpy_ip as a plain copy. */
    method MemCpy(at: nat, buf: seq<byte>)
      requires at + |buf| <= mem.Length
      modifies mem
      ensures Copied(old(mem[..]), mem[..], at, buf)
    {
      forall x | at <= x < at + |buf| {
        mem[x] := buf[x - at];
      }
    }

    /** __ecm_jprintf for a text of at most the region's capacity. */
    method JPrint(buf: seq<byte>)
      requires Valid() && |buf| <= END - 1 - START
      modifies this`point, this`stream, mem
      ensures Valid() && stream == old(stream) + buf
      ensures point == START + |stream| % (END - 1 - START) && IsRing(mem[..], START, END - 1 - START, stream)
      ensures forall x :: 0 <= x < mem.Length && !(START <= x < END - 1) ==> mem[x] == old(mem[x])
    {
      ghost var m0, t, c := mem[..], |stream|, Capacity();
      Forward(t, |buf|, c);
      var len := |buf|;
      var secSize: int := point + len - (END - 1);
      if secSize >= 0 {
        var firSize := len - secSize;
        if firSize > 0 {
          MemCpy(point, buf[..firSize]);
        }
        ghost var m1 := mem[..];
        var newBase := START;
        if secSize > 0 {
          MemCpy(newBase, buf[firSize..]);
          newBase := newBase + secSize;
        }
        TwoPiecesContinue(m0, m1, mem[..], START, c, stream, buf, firSize);
        point := newBase;
      } else {
        MemCpy(point, buf);
        assert buf[..len] == buf;
        TwoPiecesContinue(m0, mem[..], mem[..], START, c, stream, buf, len);
        point := point + len;
      }
      stream := stream + buf;
    }
  }
}
