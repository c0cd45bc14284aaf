/** IPtoStr: an address as four dot-separated octets, in a bounded buffer. */
module IpText {
  import opened Machine
  import opened NumberText
  import opened NumberPrint

  /** The decimal text of an octet, three digits wide when padded. */
  function OctetText(b: byte, padded: bool): string {
    (if padded then Repeat('0', 3 - |Digits(b, 10)|) else "") + Digits(b, 10)
  }

  /** Every octet followed by a dot; what IPtoStr writes before it turns the last dot into the terminator. */
  function DottedTo(addr: seq<byte>, n: nat, padded: bool): string
    requires n <= |addr|
  {
    if n == 0 then "" else DottedTo(addr, n - 1, padded) + OctetText(addr[n - 1], padded) + "."
  }

  lemma OctetDigits(b: byte)
    ensures 1 <= |Digits(b, 10)| <= 3
    ensures b < 100 ==> |Digits(b, 10)| <= 2
  {
    assert Digits(b, 10) == if b < 10 then [Code(b)] else Digits(b / 10, 10) + [Code(b % 10)];
    if b >= 10 {
      assert Digits(b / 10, 10) == if b < 100 then [Code(b / 10)] else Digits(b / 10 / 10, 10) + [Code(b / 10 % 10)];
    }
  }

  lemma {:induction false} DottedLength(addr: seq<byte>, n: nat, padded: bool)
    requires n <= |addr|
    ensures 2 * n <= |DottedTo(addr, n, padded)| <= 4 * n
  {
    if n == 0 {
    } else {
      DottedLength(addr, n - 1, padded);
      OctetDigits(addr[n - 1]);
    }
  }

  // ---------------------------------------------------------------- what it looks like

  /** Groups of three decimals, each followed by a dot. */
  ghost predicate ThreeByThree(s: string) {
    forall i :: 0 <= i < |s| ==> if i % 4 == 3 then s[i] == '.' else '0' <= s[i] <= '9'
  }

  ghost predicate DecimalOrDot(s: string) {
    forall i :: 0 <= i < |s| ==> s[i] == '.' || '0' <= s[i] <= '9'
  }

  /** A zero that starts an octet is the whole octet. */
  ghost predicate ZeroAlone(s: string, i: nat)
    requires i + 1 < |s|
  {
    s[i] == '0' && (i == 0 || s[i - 1] == '.') ==> s[i + 1] == '.'
  }

  ghost predicate NoLeadingZero(s: string) {
    forall i :: 0 <= i < |s| - 1 ==> ZeroAlone(s, i)
  }

  lemma {:induction false} PaddedShape(addr: seq<byte>, n: nat)
    requires n <= |addr|
    ensures |DottedTo(addr, n, true)| == 4 * n && ThreeByThree(DottedTo(addr, n, true))
  {
    if n == 0 {
    } else {
      PaddedShape(addr, n - 1);
      OctetValue(addr[n - 1], true);
      OctetDigits(addr[n - 1]);
      ThreeMore(DottedTo(addr, n - 1, true), OctetText(addr[n - 1], true));
    }
  }

  lemma ThreeMore(s: string, o: string)
    requires ThreeByThree(s) && |s| % 4 == 0 && |o| == 3 && forall k :: 0 <= k < |o| ==> IsDecimal(o[k])
    ensures ThreeByThree(s + o + ".")
  {
    var r := s + o + ".";
    forall i | 0 <= i < |r| ensures if i % 4 == 3 then r[i] == '.' else '0' <= r[i] <= '9' {
      if |s| <= i < |s| + 3 {
        assert r[i] == o[i - |s|];
      }
    }
  }

  lemma {:induction false} PlainShape(addr: seq<byte>, n: nat)
    requires n <= |addr|
    ensures var s := DottedTo(addr, n, false);
            DecimalOrDot(s) && NoLeadingZero(s) && (s != [] ==> s[|s| - 1] == '.')
  {
    if n == 0 {
    } else {
      PlainShape(addr, n - 1);
      var o := OctetText(addr[n - 1], false);
      OctetValue(addr[n - 1], false);
      DigitsAreNumeral(addr[n - 1], 10);
      assert o == Digits(addr[n - 1], 10);
      OctetMore(DottedTo(addr, n - 1, false), o);
    }
  }

  lemma OctetMore(s: string, o: string)
    requires DecimalOrDot(s) && NoLeadingZero(s) && (s != [] ==> s[|s| - 1] == '.')
    requires o != [] && (|o| > 1 ==> o[0] != '0') && forall k :: 0 <= k < |o| ==> IsDecimal(o[k])
    ensures DecimalOrDot(s + o + ".") && NoLeadingZero(s + o + ".")
  {
    var r := s + o + ".";
    assert r[|s| + |o|] == '.';
    forall i | 0 <= i < |r| ensures r[i] == '.' || '0' <= r[i] <= '9' {
      if |s| <= i < |s| + |o| {
        assert r[i] == o[i - |s|];
      }
    }
    forall i | 0 <= i < |r| - 1 ensures ZeroAlone(r, i) {
      if i < |s| - 1 {
        assert ZeroAlone(s, i);
        assert r[i] == s[i] && r[i + 1] == s[i + 1] && (i > 0 ==> r[i - 1] == s[i - 1]);
      } else if |s| <= i < |s| + |o| {
        assert r[i] == o[i - |s|];
        assert i > |s| ==> r[i - 1] == o[i - 1 - |s|];
      } else {
        assert i == |s| - 1 ==> r[i] == s[i];
      }
    }
  }

  /** What is in the buffer, complete or cut off, is padded by threes or has no leading zeros. */
  ghost predicate WellShaped(s: string, padded: bool) {
    if padded then ThreeByThree(s) else DecimalOrDot(s) && NoLeadingZero(s)
  }

  lemma PrefixPlain(s: string, n: nat)
    requires DecimalOrDot(s) && NoLeadingZero(s) && n <= |s|
    ensures DecimalOrDot(s[..n]) && NoLeadingZero(s[..n])
  {
    var r := s[..n];
    forall i | 0 <= i < |r| - 1 ensures ZeroAlone(r, i) {
      assert ZeroAlone(s, i);
      assert r[i] == s[i] && r[i + 1] == s[i + 1] && (i > 0 ==> r[i - 1] == s[i - 1]);
    }
  }

  lemma PrefixWellShaped(addr: seq<byte>, padded: bool, n: nat)
    requires n <= |DottedTo(addr, |addr|, padded)|
    ensures WellShaped(DottedTo(addr, |addr|, padded)[..n], padded)
  {
    if padded {
      PaddedShape(addr, |addr|);
    } else {
      PlainShape(addr, |addr|);
      PrefixPlain(DottedTo(addr, |addr|, padded), n);
    }
  }

  // ---------------------------------------------------------------- reading it back

  /** The numbers between the dots from position `i` on, `acc` being the value of the digits just read. */
  function OctetsFrom(s: string, i: nat, acc: nat): seq<nat>
    requires i <= |s|
    decreases |s| - i
  {
    if i == |s| then [acc]
    else if s[i] == '.' then [acc] + OctetsFrom(s, i + 1, 0)
    else OctetsFrom(s, i + 1, acc * 10 + DigitValue(s[i]))
  }

  lemma {:induction false} ReadsOctet(s: string, at: nat, ds: string, n: nat)
    requires n <= |ds| && at + |ds| <= |s| && s[at..at + |ds|] == ds && forall k :: 0 <= k < |ds| ==> IsDecimal(ds[k])
    ensures OctetsFrom(s, at + n, Value(ds[..n], 10)) == OctetsFrom(s, at + |ds|, Value(ds, 10))
    decreases |ds| - n
  {
    if n < |ds| {
      assert s[at + n] == s[at..at + |ds|][n] == ds[n];
      assert ds[..n + 1] == ds[..n] + [ds[n]];
      ValueAppend(ds[..n], ds[n], 10);
      ReadsOctet(s, at, ds, n + 1);
    } else {
      assert ds[..n] == ds;
    }
  }

  lemma OctetValue(b: byte, padded: bool)
    ensures Value(OctetText(b, padded), 10) == b
    ensures forall k :: 0 <= k < |OctetText(b, padded)| ==> IsDecimal(OctetText(b, padded)[k])
  {
    var ds := Digits(b, 10);
    DecimalDigits(b);
    DigitsValue(b, 10);
    OctetDigits(b);
    if padded {
      ZerosAddNothing(3 - |ds|, ds, 10);
    } else {
      assert OctetText(b, padded) == ds;
    }
  }

  /** The dotted text has only digits and dots. */
  lemma {:induction false} DottedHasNoNul(addr: seq<byte>, n: nat, padded: bool)
    requires n <= |addr|
    ensures forall k :: 0 <= k < |DottedTo(addr, n, padded)| ==> DottedTo(addr, n, padded)[k] != '\0'
  {
    if n == 0 {
    } else {
      DottedHasNoNul(addr, n - 1, padded);
      OctetValue(addr[n - 1], padded);
      AppendKeepsNoNul(DottedTo(addr, n - 1, padded), OctetText(addr[n - 1], padded));
    }
  }

  lemma AppendKeepsNoNul(s: string, o: string)
    requires (forall k :: 0 <= k < |s| ==> s[k] != '\0') && forall k :: 0 <= k < |o| ==> IsDecimal(o[k])
    ensures forall k :: 0 <= k < |s + o + "."| ==> (s + o + ".")[k] != '\0'
  {
  }

  lemma ReadsOneOctet(s: string, at: nat, b: byte, padded: bool)
    requires var o := OctetText(b, padded); at + |o| <= |s| && s[at..at + |o|] == o
    ensures OctetsFrom(s, at, 0) == OctetsFrom(s, at + |OctetText(b, padded)|, b)
  {
    var o := OctetText(b, padded);
    OctetValue(b, padded);
    ReadsOctet(s, at, o, 0);
    assert o[..0] == [];
  }

  /** The text of an octet stands from `at` on, and a dot before `next`, or the end, follows it. */
  ghost predicate OctetAt(s: string, at: nat, next: nat, b: byte, padded: bool) {
    at + |OctetText(b, padded)| + 1 == next <= |s| + 1 && s[at..next - 1] == OctetText(b, padded) &&
    (next <= |s| ==> s[next - 1] == '.')
  }

  /** Octet `n` stands where the text of the octets before it ends. */
  lemma OctetPlace(s: string, addr: seq<byte>, n: nat, padded: bool)
    requires n < |addr| && s + "." == DottedTo(addr, |addr|, padded)
    ensures OctetAt(s, |DottedTo(addr, n, padded)|, |DottedTo(addr, n + 1, padded)|, addr[n], padded)
    ensures |DottedTo(addr, n + 1, padded)| <= |s| <==> n + 1 < |addr|
  {
    var before, o := DottedTo(addr, n, padded), OctetText(addr[n], padded);
    var full := s + ".";
    DottedPrefix(addr, n + 1, |addr|, padded);
    DottedGrows(addr, n + 1, padded);
    Middle(full, before, o);
  }

  lemma Middle(full: string, before: string, o: string)
    requires |before| + |o| + 1 <= |full| && full[..|before| + |o| + 1] == before + o + "."
    ensures full[|before|..|before| + |o|] == o && full[|before| + |o|] == '.'
  {
    var head := full[..|before| + |o| + 1];
    assert head[|before|..|before| + |o|] == o;
    assert head[|before| + |o|] == '.';
  }

  lemma DottedGrows(addr: seq<byte>, n: nat, padded: bool)
    requires n <= |addr|
    ensures n < |addr| ==> |DottedTo(addr, n, padded)| < |DottedTo(addr, |addr|, padded)|
  {
    if n < |addr| {
      DottedPrefix(addr, n + 1, |addr|, padded);
    }
  }

  /** An octet reads as its value, then what follows the dot behind it. */
  lemma ReadsUpToDot(s: string, at: nat, next: nat, b: byte, padded: bool)
    requires OctetAt(s, at, next, b, padded)
    ensures OctetsFrom(s, at, 0) == if next <= |s| then [b as nat] + OctetsFrom(s, next, 0) else [b as nat]
  {
    ReadsOneOctet(s, at, b, padded);
  }

  ghost predicate ReadsFrom(s: string, at: seq<nat>, vs: seq<nat>, n: nat)
    requires n < |vs| == |at|
  {
    at[n] <= |s| &&
    if n + 1 < |vs| then at[n + 1] <= |s| && OctetsFrom(s, at[n], 0) == [vs[n]] + OctetsFrom(s, at[n + 1], 0)
    else OctetsFrom(s, at[n], 0) == [vs[n]]
  }

  lemma {:induction false} ReadsAll(s: string, at: seq<nat>, vs: seq<nat>, n: nat)
    requires n < |vs| == |at| && forall k :: 0 <= k < |vs| ==> ReadsFrom(s, at, vs, k)
    ensures at[n] <= |s| && OctetsFrom(s, at[n], 0) == vs[n..]
    decreases |vs| - n
  {
    assert ReadsFrom(s, at, vs, n);
    if n + 1 < |vs| {
      ReadsAll(s, at, vs, n + 1);
      assert vs[n..] == [vs[n]] + vs[n + 1..];
    }
  }

  lemma {:induction false} DottedPrefix(addr: seq<byte>, n: nat, m: nat, padded: bool)
    requires n <= m <= |addr|
    ensures |DottedTo(addr, n, padded)| <= |DottedTo(addr, m, padded)|
    ensures DottedTo(addr, m, padded)[..|DottedTo(addr, n, padded)|] == DottedTo(addr, n, padded)
    decreases m
  {
    if n == m {
    } else {
      DottedPrefix(addr, n, m - 1, padded);
    }
  }

  /** What is read at octet `n`: its value, then what is read behind its dot. */
  lemma ReadsNext(s: string, addr: seq<byte>, padded: bool, at: seq<nat>, n: nat)
    requires n < |addr| && s + "." == DottedTo(addr, |addr|, padded)
    requires |at| == |addr| && forall k :: 0 <= k < |addr| ==> at[k] == |DottedTo(addr, k, padded)|
    ensures ReadsFrom(s, at, addr, n)
  {
    OctetPlace(s, addr, n, padded);
    ReadsUpToDot(s, at[n], |DottedTo(addr, n + 1, padded)|, addr[n], padded);
  }

  /** Reading the complete text recovers the bytes of the address, in memory order. */
  lemma ReadsAddress(s: string, addr: seq<byte>, padded: bool)
    requires addr != [] && s + "." == DottedTo(addr, |addr|, padded)
    ensures OctetsFrom(s, 0, 0) == addr
  {
    var at: seq<nat> := seq(|addr|, n requires 0 <= n < |addr| => |DottedTo(addr, n, padded)|);
    forall n | 0 <= n < |addr| ensures ReadsFrom(s, at, addr, n) {
      ReadsNext(s, addr, padded, at, n);
    }
    ReadsAll(s, at, addr, 0);
    assert addr[0..] == addr;
  }

  // ---------------------------------------------------------------- the bounded writes

  function Capacity(buflen: int): nat {
    if buflen > 0 then buflen else 0
  }

  /** The text `done` is in the buffer up to `rp`, cut off where the buffer ends. */
  ghost predicate Written(m0: string, m: string, done: string, rp: nat, buflen: int) {
    |m| == |m0| && rp <= |m| && rp == (if |done| <= Capacity(buflen) then |done| else Capacity(buflen)) &&
    m[..rp] == done[..rp] && m[rp..] == m0[rp..]
  }

  /** `if (len++ >= buflen) return; *rp++ = c;` */
  method Put(buf: array<char>, rp: nat, buflen: int, c: char, ghost m0: string, ghost done: string)
    returns (rp': nat, ok: bool)
    requires buflen <= buf.Length && Written(m0, buf[..], done, rp, buflen) && |done| <= Capacity(buflen)
    modifies buf
    ensures Written(m0, buf[..], done + [c], rp', buflen) && (ok <==> |done| + 1 <= Capacity(buflen))
  {
    ghost var m := buf[..];
    if rp >= buflen {
      assert (done + [c])[..rp] == done[..rp];
      return rp, false;
    }
    buf[rp] := c;
    rp', ok := rp + 1, true;
    assert buf[..rp'] == m[..rp] + [c];
    assert buf[rp'..] == m[rp..][1..] && m0[rp'..] == m0[rp..][1..];
  }

  /** Putting the characters of `piece` one after the other; the caller returns when the buffer is full. */
  method PutAll(buf: array<char>, rp0: nat, buflen: int, piece: string, ghost m0: string, ghost done: string)
    returns (rp: nat, ok: bool)
    requires buflen <= buf.Length && Written(m0, buf[..], done, rp0, buflen) && |done| <= Capacity(buflen)
    modifies buf
    ensures Written(m0, buf[..], done + piece, rp, buflen) && (ok <==> |done + piece| <= Capacity(buflen))
  {
    rp, ok := rp0, true;
    var i := 0;
    assert done + piece[..0] == done;
    while i < |piece|
      invariant 0 <= i <= |piece| && ok && |done| + i <= Capacity(buflen)
      invariant Written(m0, buf[..], done + piece[..i], rp, buflen)
    {
      assert done + piece[..i] + [piece[i]] == done + piece[..i + 1];
      rp, ok := Put(buf, rp, buflen, piece[i], m0, done + piece[..i]);
      i := i + 1;
      if !ok {
        CutOff(m0, buf[..], done + piece[..i], done + piece, rp, buflen);
        return;
      }
    }
    assert piece[..i] == piece;
  }

  /** Text beyond a full buffer changes nothing. */
  lemma CutOff(m0: string, m: string, done: string, more: string, rp: nat, buflen: int)
    requires Written(m0, m, done, rp, buflen) && |done| > Capacity(buflen) && |done| <= |more| && more[..|done|] == done
    ensures Written(m0, m, more, rp, buflen)
  {
    assert more[..rp] == more[..|done|][..rp];
  }

  /** The digit loop of IPtoStr: `inv` holds the digits of the byte, last first. */
  method OctetToInv(b: byte, inv: array<char>) returns (i: nat)
    requires inv.Length == 3
    modifies inv
    ensures i == |Digits(b, 10)| <= 3 && inv[..i] == Reverse(Digits(b, 10))
  {
    OctetDigits(b);
    i := EmitDigits(b, inv, 0, 10);
    assert inv[0..i] == inv[..i];
  }

  /** One octet and its dot. */
  method PutOctet(buf: array<char>, rp0: nat, buflen: int, b: byte, padded: bool, ghost m0: string, ghost done: string)
    returns (rp: nat, ok: bool)
    requires buflen <= buf.Length && Written(m0, buf[..], done, rp0, buflen) && |done| <= Capacity(buflen)
    modifies buf
    ensures Written(m0, buf[..], done + OctetText(b, padded) + ".", rp, buflen)
    ensures ok <==> |done + OctetText(b, padded) + "."| <= Capacity(buflen)
  {
    var inv := new char[3](_ => '\0');
    var i := OctetToInv(b, inv);
    ghost var ds := Digits(b, 10);
    ReverseTwice(ds);
    var zeros := if padded then Repeat('0', 3 - i) else "";
    var piece := zeros + Reverse(inv[..i]) + ".";
    rp, ok := PutAll(buf, rp0, buflen, piece, m0, done);
    assert done + piece == done + OctetText(b, padded) + ".";
  }

  /** IPtoStr; `addr` are the bytes of the address in memory order, bit 0 of `flags` asks for padding. */
  method IpToStr(addr: seq<byte>, buf: array<char>, buflen: int, flags: nat) returns (n: nat)
    requires |addr| == 4 && buflen <= buf.Length
    modifies buf
    ensures var full := DottedTo(addr, 4, flags % 2 == 1);
            if |full| <= Capacity(buflen)
            then n == |full| - 1 && n < buf.Length && buf[..n] + "." == full && buf[n] == '\0' &&
                 OctetsFrom(buf[..n], 0, 0) == addr && buf[n + 1..] == old(buf[n + 1..])
            else n == Capacity(buflen) <= buf.Length && buf[..n] == full[..n] && buf[n..] == old(buf[n..])
    ensures forall i :: 0 <= i < n ==> buf[i] != '\0'
    ensures buflen >= 16 ==> n < 16 && buf[n] == '\0'
    ensures WellShaped(buf[..n], flags % 2 == 1)
    ensures flags % 2 == 1 ==> n == if buflen >= 16 then 15 else if buflen > 0 then buflen else 0
  {
    var padded := flags % 2 == 1;
    ghost var m0 := buf[..];
    ghost var full := DottedTo(addr, 4, padded);
    DottedLength(addr, 4, padded);
    DottedHasNoNul(addr, 4, padded);
    var rp, ok := PutAddress(addr, buf, buflen, padded);
    ghost var m := buf[..];
    if padded {
      PaddedShape(addr, 4);
    }
    if !ok {
      Truncated(m0, m, full, rp, buflen);
      PrefixWellShaped(addr, padded, rp);
      assert WellShaped(m[..rp], padded);
      return rp;
    }
    n := rp - 1;
    PrefixWellShaped(addr, padded, n);
    buf[n] := '\0';
    Terminated(m0, m, full, rp, buflen, buf[..]);
    ReadsAddress(buf[..n], addr, padded);
    assert WellShaped(buf[..n], padded);
  }

  /** The loop over the bytes, up to the dot after the last one. */
  method PutAddress(addr: seq<byte>, buf: array<char>, buflen: int, padded: bool) returns (rp: nat, ok: bool)
    requires |addr| == 4 && buflen <= buf.Length
    modifies buf
    ensures Written(old(buf[..]), buf[..], DottedTo(addr, 4, padded), rp, buflen)
    ensures ok <==> |DottedTo(addr, 4, padded)| <= Capacity(buflen)
  {
    ghost var m0 := buf[..];
    rp, ok := 0, true;
    var k := 0;
    while k < 4
      invariant 0 <= k <= 4 && ok && |DottedTo(addr, k, padded)| <= Capacity(buflen)
      invariant Written(m0, buf[..], DottedTo(addr, k, padded), rp, buflen)
    {
      rp, ok := PutOctet(buf, rp, buflen, addr[k], padded, m0, DottedTo(addr, k, padded));
      k := k + 1;
      DottedPrefix(addr, k, 4, padded);
      if !ok {
        CutOff(m0, buf[..], DottedTo(addr, k, padded), DottedTo(addr, 4, padded), rp, buflen);
        return;
      }
    }
  }

  /** A full buffer holds the first characters of the text and nothing else. */
  lemma Truncated(m0: string, m: string, full: string, rp: nat, buflen: int)
    requires Written(m0, m, full, rp, buflen) && |full| > Capacity(buflen)
    requires forall k :: 0 <= k < |full| ==> full[k] != '\0'
    ensures rp == Capacity(buflen) <= |m| && m[..rp] == full[..rp] && m[rp..] == m0[rp..]
    ensures forall i :: 0 <= i < rp ==> m[i] != '\0'
  {
    assert forall i :: 0 <= i < rp ==> m[i] == m[..rp][i] == full[i];
  }

  /** The terminator takes the place of the last dot. */
  lemma Terminated(m0: string, m: string, full: string, rp: nat, buflen: int, m': string)
    requires Written(m0, m, full, rp, buflen) && 0 < |full| <= Capacity(buflen) && full[|full| - 1] == '.'
    requires (forall k :: 0 <= k < |full| ==> full[k] != '\0') && m' == m[rp - 1 := '\0']
    ensures rp == |full| <= |m'| && m'[..rp - 1] + "." == full && m'[rp..] == m0[rp..]
    ensures forall i :: 0 <= i < rp - 1 ==> m'[i] != '\0'
  {
    assert full[..rp] == full;
    assert forall i :: 0 <= i < rp - 1 ==> m'[i] == m[..rp][i] == full[i];
    assert m'[rp..] == m[rp..];
  }
}
