/** floorSqrt: binary search in 32-bit arithmetic, and exactly when it finds the root. */
module IntegerSqrt {

  import opened Machine

  ghost predicate IsFloorRoot(r: nat, x: nat) {
    r * r <= x < (r + 1) * (r + 1)
  }

  lemma SquaresGrow(a: nat, b: nat)
    requires a <= b
    ensures a * a <= b * b
  {
    assert a * a <= a * b;
    assert a * b <= b * b;
  }

  lemma NextSquare(n: nat)
    ensures (n + 1) * (n + 1) == n * n + 2 * n + 1
  {
  }

  /** Half of `x` is an upper bound of its root. */
  lemma HalfBounds(x: nat)
    requires x >= 2
    ensures x < (x / 2 + 1) * (x / 2 + 1)
  {
    NextSquare(x / 2);
    SquaresGrow(1, x / 2);
  }

  /** The product `mid * mid` as a UINT. */
  function Square32(mid: uint32): uint32 {
    mid * mid % TWO_TO_THE_32
  }

  /** Half of a UINT bounds the search, so `start + end` does not wrap. */
  predicate Bounds(start: int, end: int) {
    1 <= start <= end + 1 <= TWO_TO_THE_32 / 2
  }

  /** The search loop from a state of its three variables. */
  function Search(x: uint32, start: uint32, end: uint32, ans: uint32): uint32
    requires Bounds(start, end)
    decreases end - start + 1
  {
    if start > end then ans
    else
      var mid := (start + end) / 2;
      if Square32(mid) == x then mid
      else if Square32(mid) < x then Search(x, mid + 1, end, mid)
      else Search(x, start, mid - 1, ans)
  }

  function FloorSqrt32(x: uint32): uint32 {
    if x <= 1 then x else Search(x, 1, x / 2, 0)
  }

  /** On its way the search probes a value of 2^16 or more whose wrapped square does not exceed `x`. */
  predicate Misled(x: uint32, start: uint32, end: uint32)
    requires Bounds(start, end)
    decreases end - start + 1
  {
    start <= end &&
    var mid := (start + end) / 2;
    var wrapped := mid * mid % 0x1_0000_0000;
    if wrapped <= x then mid >= 0x1_0000 || (wrapped < x && Misled(x, mid + 1, end))
    else Misled(x, start, mid - 1)
  }

  lemma SmallSquare(mid: uint32)
    ensures mid < 0x1_0000 ==> Square32(mid) == mid * mid
    ensures mid >= 0x1_0000 ==> mid * mid >= TWO_TO_THE_32
  {
    if mid < 0x1_0000 {
      SquaresGrow(mid, 0xFFFF);
    } else {
      SquaresGrow(0x1_0000, mid);
    }
  }

  /** A search that is not misled ends at the root. */
  lemma {:induction false} SearchFindsRoot(x: uint32, start: uint32, end: uint32, ans: uint32)
    requires Bounds(start, end) && ans == start - 1
    requires ans * ans <= x < (end + 1) * (end + 1) && !Misled(x, start, end)
    ensures IsFloorRoot(Search(x, start, end, ans), x)
    decreases end - start + 1
  {
    if start > end {
    } else {
      var mid := (start + end) / 2;
      SmallSquare(mid);
      if Square32(mid) == x {
        NextSquare(mid);
      } else if Square32(mid) < x {
        SearchFindsRoot(x, mid + 1, end, mid);
      } else {
        SearchFindsRoot(x, start, mid - 1, ans);
      }
    }
  }

  lemma {:induction false} SearchOnlyClimbs(x: uint32, start: uint32, end: uint32, ans: uint32)
    requires Bounds(start, end) && ans < start
    ensures Search(x, start, end, ans) >= ans
    decreases end - start + 1
  {
    if start > end {
    } else {
      var mid := (start + end) / 2;
      if Square32(mid) < x {
        SearchOnlyClimbs(x, mid + 1, end, mid);
      } else if Square32(mid) > x {
        SearchOnlyClimbs(x, start, mid - 1, ans);
      }
    }
  }

  /** A misled search ends above every 16-bit root. */
  lemma {:induction false} MisledEndsHigh(x: uint32, start: uint32, end: uint32, ans: uint32)
    requires Bounds(start, end) && ans < start && Misled(x, start, end)
    ensures Search(x, start, end, ans) >= 0x1_0000
    decreases end - start + 1
  {
    var mid := (start + end) / 2;
    if Square32(mid) < x {
      if mid >= 0x1_0000 {
        SearchOnlyClimbs(x, mid + 1, end, mid);
      } else {
        MisledEndsHigh(x, mid + 1, end, mid);
      }
    } else if Square32(mid) > x {
      MisledEndsHigh(x, start, mid - 1, ans);
    }
  }

  /** For every 32-bit x the code returns the root exactly when no probe misleads it. */
  lemma CorrectIffNotMisled(x: uint32)
    requires x >= 2
    ensures IsFloorRoot(FloorSqrt32(x), x) <==> !Misled(x, 1, x / 2)
  {
    if Misled(x, 1, x / 2) {
      MisledEndsHigh(x, 1, x / 2, 0);
      SquaresGrow(0x1_0000, FloorSqrt32(x));
    } else {
      HalfBounds(x);
      SearchFindsRoot(x, 1, x / 2, 0);
    }
  }

  /** Once the probes are below 65536, a search for a root below 32768 stays there. */
  lemma {:induction false} SmallNeverMisled(x: uint32, start: uint32, end: uint32)
    requires x < 0x4000_0000 && Bounds(start, end) && start + end <= 131071
    ensures !Misled(x, start, end)
    decreases end - start + 1
  {
    if start > end {
    } else {
      var mid := (start + end) / 2;
      SmallSquare(mid);
      if Square32(mid) < x {
        assert mid <= 0x7FFF by { if mid >= 0x8000 { SquaresGrow(0x8000, mid); } }
        SmallNeverMisled(x, mid + 1, end);
      } else if Square32(mid) > x {
        SmallNeverMisled(x, start, mid - 1);
      }
    }
  }

  /** Of `m` and its repeated halves, each one from 65536 on has a wrapped square above `x`. */
  predicate HalvingsAbove(m: uint32, x: uint32) {
    m >= 0x1_0000 ==> m * m % 0x1_0000_0000 > x && HalvingsAbove(m / 2, x)
  }

  lemma {:induction false} MisledByHalving(x: uint32, end: uint32)
    requires x < 0x4000_0000 && Bounds(1, end)
    ensures Misled(x, 1, end) <==> !HalvingsAbove((1 + end) / 2, x)
  {
    var mid := (1 + end) / 2;
    if mid < 0x1_0000 {
      SmallNeverMisled(x, 1, end);
    } else if Square32(mid) > x {
      MisledByHalving(x, mid - 1);
    }
  }

  /** Below 2^30 the code is right exactly when every halving of its first probe that is 65536 or more has a wrapped
      square above the argument. */
  lemma CorrectIffHalvingsAbove(x: uint32)
    requires 2 <= x < 0x4000_0000
    ensures IsFloorRoot(FloorSqrt32(x), x) <==> HalvingsAbove((1 + x / 2) / 2, x)
  {
    CorrectIffNotMisled(x);
    MisledByHalving(x, x / 2);
  }

  lemma RightWhenSmall(x: uint32)
    requires x <= 262141
    ensures IsFloorRoot(FloorSqrt32(x), x)
  {
    if x >= 2 {
      SmallNeverMisled(x, 1, x / 2);
      CorrectIffNotMisled(x);
    } else {
      assert x == 0 || x == 1;
    }
  }

  lemma WrongAt262142()
    ensures !IsFloorRoot(FloorSqrt32(262142), 262142)
  {
    assert Square32(65536) == 0;
    CorrectIffHalvingsAbove(262142);
  }

  /** Up to 262141 the code is right; 262142 is the first argument it gets wrong. */
  lemma RightUpTo262141(x: uint32)
    ensures x <= 262141 ==> IsFloorRoot(FloorSqrt32(x), x)
    ensures !IsFloorRoot(FloorSqrt32(262142), 262142)
  {
    if x <= 262141 {
      RightWhenSmall(x);
    }
    WrongAt262142();
  }

  /** floorSqrt */
  method FloorSqrt(x: uint32) returns (r: uint32)
    ensures r == FloorSqrt32(x)
    ensures x >= 2 ==> (IsFloorRoot(r, x) <==> !Misled(x, 1, x / 2))
    ensures 2 <= x < 0x4000_0000 ==> (IsFloorRoot(r, x) <==> HalvingsAbove((1 + x / 2) / 2, x))
    ensures x <= 262141 ==> IsFloorRoot(r, x)
  {
    r := RunSearch(x);
    RightUpTo262141(x);
    if x >= 2 {
      CorrectIffNotMisled(x);
    }
    if 2 <= x < 0x4000_0000 {
      CorrectIffHalvingsAbove(x);
    }
  }

  /** The code itself. */
  method RunSearch(x: uint32) returns (r: uint32)
    ensures r == FloorSqrt32(x)
  {
    if x == 0 || x == 1 {
      return x;
    }
    var start, end, ans: uint32 := 1, x / 2, 0;
    while start <= end
      invariant Bounds(start, end)
      invariant Search(x, start, end, ans) == FloorSqrt32(x)
      decreases end - start + 1
    {
      var mid := (start + end) / 2;
      if Square32(mid) == x {
        return mid;
      }
      if Square32(mid) < x {
        start := mid + 1;
        ans := mid;
      } else {
        end := mid - 1;
      }
    }
    return ans;
  }

  // ---------------------------------------------------------------- the same search on mathematical integers

  /** Over unbounded integers the search is right for every x. */
  method FloorSqrtUnbounded(x: nat) returns (r: nat)
    ensures IsFloorRoot(r, x)
  {
    if x == 0 || x == 1 {
      return x;
    }
    var start, end, ans := 1, x / 2, 0;
    HalfBounds(x);
    while start <= end
      invariant 1 <= start <= end + 1 && ans == start - 1
      invariant ans * ans <= x < (end + 1) * (end + 1)
      decreases end - start + 1
    {
      var mid := (start + end) / 2;
      if mid * mid == x {
        NextSquare(mid);
        return mid;
      }
      if mid * mid < x {
        start := mid + 1;
        ans := mid;
      } else {
        end := mid - 1;
      }
    }
    return ans;
  }
}
