/** strrev, itoa, itoan, uitoan and enx_atoll on character buffers. */
module NumberPrint {
  import opened Machine
  import opened NumberText

  /** Memory `m` starts with the C string `t`. */
  ghost predicate HoldsText(m: string, t: string) {
    |t| < |m| && m[..|t|] == t && m[|t|] == '\0' && forall i :: 0 <= i < |t| ==> t[i] != '\0'
  }

  lemma HeldText(m: string, t: string)
    requires HoldsText(m, t)
    ensures |t| < |m| && m[|t|] == '\0' && m[..|t|] == t
  {
  }

  ghost predicate SameOutside(m0: string, m: string, from: nat, to: nat) {
    |m| == |m0| && forall i :: 0 <= i < |m| && !(from <= i < to) ==> m[i] == m0[i]
  }

  method StrLen(str: array<char>, ghost t: string) returns (n: nat)
    requires HoldsText(str[..], t)
    ensures n == |t|
  {
    n := 0;
    ghost var m := str[..];
    assert forall i :: 0 <= i < |t| ==> m[..|t|][i] == m[i];
    while str[n] != '\0'
      invariant 0 <= n <= |t|
      invariant forall i :: 0 <= i < |t| ==> str[i] == t[i]
      decreases |t| - n
    {
      n := n + 1;
    }
  }

  /** strrev */
  method StrRev(str: array<char>, ghost t: string)
    requires HoldsText(str[..], t)
    modifies str
    ensures HoldsText(str[..], Reverse(t))
    ensures SameOutside(old(str[..]), str[..], 0, |t|)
  {
    var n := StrLen(str, t);
    ghost var m0 := str[..];
    var s, d: int := 0, n - 1;
    while d > s
      invariant 0 <= s && s + d == n - 1 && s <= d + 1
      invariant forall i :: 0 <= i < s ==> str[i] == m0[n - 1 - i] && str[n - 1 - i] == m0[i]
      invariant forall i :: s <= i <= d ==> str[i] == m0[i]
      invariant forall i :: n <= i < str.Length ==> str[i] == m0[i]
      decreases d - s
    {
      var ch := str[d];
      str[d] := str[s];
      str[s] := ch;
      d, s := d - 1, s + 1;
    }
    ghost var m := str[..];
    forall i | 0 <= i < n ensures m[i] == Reverse(t)[i] {
      assert m0[n - 1 - i] == t[n - 1 - i];
    }
  }

  /** The conversion loop: digits come out least significant first. */
  method EmitDigits(value: nat, str: array<char>, at: nat, base: int) returns (n: nat)
    requires IsBase(base) && at + |Digits(value, base)| <= str.Length
    modifies str
    ensures n == |Digits(value, base)| && str[at..at + n] == Reverse(Digits(value, base))
    ensures SameOutside(old(str[..]), str[..], at, at + n)
  {
    ghost var all, m0 := Digits(value, base), str[..];
    var v: nat := value;
    ghost var rest, e := all, "";             // the digits still to come, the digits out
    n := 0;
    while true
      invariant rest == Digits(v, base) && all == rest + Reverse(e)
      invariant |e| == n && at + |all| <= str.Length && str[at..at + n] == e
      invariant SameOutside(m0, str[..], at, at + n)
      decreases v
    {
      Shrinks(v, base);
      EmitStep(v, base);
      var c := Code(v % base);
      str[at + n] := c;
      n := n + 1;
      v := v / base;
      assert str[at..at + n] == e + [c];
      MoveDigit(all, rest, e, c);
      e, rest := e + [c], rest[..|rest| - 1];
      if v == 0 {
        assert all == Reverse(e);
        ReverseTwice(e);
        return;
      }
    }
  }

  lemma MoveDigit(all: string, rest: string, e: string, c: char)
    requires rest != [] && rest[|rest| - 1] == c && all == rest + Reverse(e)
    ensures all == rest[..|rest| - 1] + Reverse(e + [c])
  {
    assert Reverse(e + [c]) == [c] + Reverse(e);
  }

  /** The last digit of `v` is its remainder; what is before it are the digits of the quotient. */
  lemma EmitStep(v: nat, base: int)
    requires IsBase(base)
    ensures var s := Digits(v, base);
            s[|s| - 1] == Code(v % base) && 0 <= v / base &&
            if v / base == 0 then |s| == 1 else v / base < v && s[..|s| - 1] == Digits(v / base, base)
  {
    Shrinks(v, base);
  }

  // ---------------------------------------------------------------- what a formatted number looks like

  /** The last `d` characters of `s` are the numeral of `m`, in front of it come the sign and the padding that fill the
      length up to `len`: the sign right before the numeral when the padding is blank, else first of all. */
  ghost predicate ShowsDigits(s: string, d: nat, m: nat, negative: bool, base: int, len: int, fill: char)
    requires IsBase(base)
  {
    var least := d + if negative then 1 else 0;
    1 <= d <= |s| && |s| == (if len > least then len else least) && Numeral(s[|s| - d..], base, m) &&
    forall i :: 0 <= i < |s| - d ==>
      s[i] == if negative && i == (if fill == ' ' then |s| - d - 1 else 0) then '-' else fill
  }

  ghost predicate Shows(s: string, m: nat, negative: bool, base: int, len: int, fill: char)
    requires IsBase(base)
  {
    exists d :: ShowsDigits(s, d, m, negative, base, len, fill)
  }

  lemma PaddedShows(m: nat, negative: bool, base: int, len: int, fill: char)
    requires IsBase(base)
    ensures Shows(Padded(Sign(negative), Digits(m, base), len, fill), m, negative, base, len, fill)
  {
    var ds, s := Digits(m, base), Padded(Sign(negative), Digits(m, base), len, fill);
    DigitsAreNumeral(m, base);
    assert s[|s| - |ds|..] == ds;
    assert ShowsDigits(s, |ds|, m, negative, base, len, fill);
  }

  lemma BlankPaddedParses(s: string, pad: nat, negative: bool, num: string, m: nat)
    requires Numeral(num, 10, m) && s == Repeat(' ', pad) + (if negative then "-" else "") + num
    ensures Parse(s) == if negative then -(m as int) else m
  {
    var at := if negative then pad + 1 else pad;
    assert s[at..] == num;
    assert IsDigitOf(num[0], 10) && s[at] == num[0];
    ParseReads(s, pad, num);
  }

  lemma ZeroPaddedParses(s: string, pad: nat, negative: bool, num: string, m: nat)
    requires Numeral(num, 10, m) && s == (if negative then "-" else "") + Repeat('0', pad) + num
    ensures Parse(s) == if negative then -(m as int) else m
  {
    var at, ds := if negative then 1 else 0, Repeat('0', pad) + num;
    assert s[at..] == ds && (at == 0 ==> s[0] == ds[0]);
    assert forall i :: 0 <= i < |num| ==> IsDigitOf(num[i], 10);
    ZerosAddNothing(pad, num, 10);
    ParseReads(s, 0, ds);
  }

  /** What is shown with padding of blanks or zeros reads back as the number. */
  lemma ShownParses(s: string, m: nat, negative: bool, len: int, fill: char)
    requires Shows(s, m, negative, 10, len, fill) && (fill == ' ' || fill == '0')
    ensures Parse(s) == if negative then -(m as int) else m
  {
    var d :| ShowsDigits(s, d, m, negative, 10, len, fill);
    var num, pad := s[|s| - d..], |s| - d - if negative then 1 else 0;
    var sign := if negative then "-" else "";
    if fill == ' ' {
      assert s == Repeat(' ', pad) + sign + num;
      BlankPaddedParses(s, pad, negative, num, m);
    } else {
      assert s == sign + Repeat('0', pad) + num;
      ZeroPaddedParses(s, pad, negative, num, m);
    }
  }

  // ---------------------------------------------------------------- itoa

  lemma RenderIsText(v: int, base: int)
    requires IsBase(base)
    ensures forall i :: 0 <= i < |Render(v, base)| ==> Render(v, base)[i] != '\0'
  {
    DigitsArePlain(Magnitude(v), base);
    var ds := Digits(Magnitude(v), base);
    assert forall i :: 0 <= i < |ds| ==> PlainDigit(ds[i], base);
  }

  lemma RenderShows(v: int, base: int)
    requires IsBase(base)
    ensures Shows(Render(v, base), if v < 0 then -v else v, v < 0, base, 0, ' ')
  {
    PaddedShows(Magnitude(v), v < 0, base, 0, ' ');
    assert Padded(Sign(v < 0), Digits(Magnitude(v), base), 0, ' ') == Render(v, base);
  }

  /** Reversed digits followed by the sign are the reversed text. */
  lemma SignComesLast(v: int, base: int, e: string)
    requires IsBase(base) && e == Reverse(Digits(Magnitude(v), base)) + if v < 0 then "-" else ""
    ensures e == Reverse(Render(v, base)) && |e| == |Render(v, base)|
  {
  }

  lemma PowerThirtyTwo()
    ensures PowerOfTwo(32) == TWO_TO_THE_32
  {
    assert PowerOfTwo(8) == 0x100 && PowerOfTwo(16) == 0x1_0000 by { assert PowerOfTwo(12) == 0x1000; }
    assert PowerOfTwo(24) == 0x100_0000 by { assert PowerOfTwo(20) == 0x10_0000; }
    assert PowerOfTwo(32) == TWO_TO_THE_32 by { assert PowerOfTwo(28) == 0x1000_0000; }
  }

  /** No 32-bit number needs more than 33 characters, sign included. */
  lemma RenderFits(v: int32, base: int)
    requires IsBase(base)
    ensures |Render(v, base)| <= 33
  {
    PowerThirtyTwo();
    DigitsFit(Magnitude(v), base, 32);
  }

  /** itoa; negating the least 32-bit integer is undefined in C, so it is not an argument. */
  method Itoa(value: int32, str: array<char>, base: int) returns (len: Option<nat>)
    requires value != -TWO_TO_THE_31 && str.Length > 0
    requires IsBase(base) ==> |Render(value, base)| < str.Length
    modifies str
    ensures base < 2 || base > 16 ==> len == None && str[0] == '\0' && SameOutside(old(str[..]), str[..], 0, 1)
    ensures IsBase(base) ==>
              len == Some(|Render(value, base)|) && HoldsText(str[..], Render(value, base)) &&
              SameOutside(old(str[..]), str[..], 0, |Render(value, base)| + 1)
    ensures 2 <= base <= 16 ==>
              len.Some? && len.value < str.Length && str[len.value] == '\0' &&
              Shows(str[..len.value], if value < 0 then -(value as int) else value, value < 0, base, 0, ' ')
  {
    if base < 2 || base > 16 {
      str[0] := '\0';
      return None;
    }
    var w := ItoaInBase(value, str, base);
    RenderShows(value, base);
    HeldText(str[..], Render(value, base));
    len := Some(w);
  }

  method ItoaInBase(value: int32, str: array<char>, base: int) returns (w: nat)
    requires value != -TWO_TO_THE_31 && IsBase(base) && |Render(value, base)| < str.Length
    modifies str
    ensures w == |Render(value, base)| && HoldsText(str[..], Render(value, base))
    ensures SameOutside(old(str[..]), str[..], 0, w + 1)
  {
    var magnitude: nat := if value < 0 then -value else value;
    w := EmitDigits(magnitude, str, 0, base);
    ghost var e := str[..w];
    assert str[0..w] == e;
    if value < 0 {
      str[w] := '-';
      w := w + 1;
      e := e + "-";
    }
    str[w] := '\0';
    assert str[..w] == e;
    SignComesLast(value, base, e);
    RenderIsText(value, base);
    ghost var m1 := str[..];
    assert m1[..w] == e;
    StrRev(str, e);
    ReverseTwice(Render(value, base));
  }

  // ---------------------------------------------------------------- uitoan

  /** The padding loops: `count` fill characters from `from` on. */
  method Fill(str: array<char>, from: nat, count: int, fill: char) returns (to: nat)
    requires from + count <= str.Length && from <= str.Length
    modifies str
    ensures to == from + |Repeat(fill, count)| && str[from..to] == Repeat(fill, count)
    ensures SameOutside(old(str[..]), str[..], from, to)
  {
    to := from;
    while to < from + count
      invariant from <= to && (to <= from + count || to == from)
      invariant forall i :: from <= i < to ==> str[i] == fill
      invariant SameOutside(old(str[..]), str[..], from, to)
    {
      str[to] := fill;
      to := to + 1;
    }
  }

  lemma PadReversed(ds: string, fill: char, count: int, t: string)
    requires fill != '\0' && (forall k :: 0 <= k < |ds| ==> ds[k] != '\0') && t == Reverse(ds) + Repeat(fill, count)
    ensures Reverse(t) == Repeat(fill, count) + ds && forall k :: 0 <= k < |t| ==> t[k] != '\0'
  {
  }

  lemma DigitsHaveNoNul(v: nat, base: int)
    requires IsBase(base)
    ensures forall k :: 0 <= k < |Digits(v, base)| ==> Digits(v, base)[k] != '\0'
  {
    DigitsArePlain(v, base);
    var ds := Digits(v, base);
    assert forall k :: 0 <= k < |ds| ==> PlainDigit(ds[k], base);
  }

  /** Padding after the reversed digits, the terminator, and the reversal of the whole text. */
  method PadAndReverse(str: array<char>, w: nat, width: int, fill: char, ghost ds: string) returns (len: nat)
    requires w == |ds| < str.Length && width < str.Length && str[..w] == Reverse(ds)
    requires forall k :: 0 <= k < |ds| ==> ds[k] != '\0'
    modifies str
    ensures len == if width > w then width else w
    ensures HoldsText(str[..], if fill == '\0' then ds else Repeat(fill, width - w) + ds)
    ensures SameOutside(old(str[..]), str[..], 0, len + 1)
  {
    ghost var m1 := str[..];
    assert m1[..w] == Reverse(ds);
    len := Fill(str, w, width - w, fill);
    ghost var pad, m2 := Repeat(fill, width - w), str[..];
    assert m2[w..len] == pad && m2[..w] == m1[..w];
    str[len] := '\0';
    ghost var m3 := str[..];
    assert m3[..len] == m2[..len] == Reverse(ds) + pad;
    if fill == '\0' {
      assert m3[..w] == Reverse(ds) && m3[w] == '\0';
      StrRev(str, Reverse(ds));
      ReverseTwice(ds);
    } else {
      PadReversed(ds, fill, width - w, Reverse(ds) + pad);
      StrRev(str, Reverse(ds) + pad);
    }
  }

  lemma NoSign(pad: string, ds: string)
    ensures pad + "" + ds == "" + pad + ds == pad + ds
  {
    assert pad + "" == "" + pad == pad;
  }

  lemma UnsignedShows(value: nat, base: int, width: int, fill: char, ds: string, t: string)
    requires IsBase(base) && ds == Digits(value, base) && t == Repeat(fill, width - |ds|) + ds
    ensures |t| == (if width > |ds| then width else |ds|) && Shows(t, value, false, base, width, fill)
  {
    PaddedShows(value, false, base, width, fill);
    NoSign(Repeat(fill, width - |ds|), ds);
    assert Padded(Sign(false), ds, width, fill) == t;
  }

  /** uitoan: the digits padded on the left to `width`. A NUL fill stops the final reversal at the digits. */
  method Uitoan(value: uint32, str: array<char>, base: int, width: int, fill: char) returns (len: nat)
    requires str.Length > 0 && width < str.Length
    requires IsBase(base) ==> |Digits(value, base)| < str.Length
    modifies str
    ensures base < 2 || base > 16 ==> len == 0 && str[0] == '\0' && SameOutside(old(str[..]), str[..], 0, 1)
    ensures IsBase(base) ==>
              var ds := Digits(value, base);
              len == (if width > |ds| then width else |ds|) &&
              HoldsText(str[..], if fill == '\0' then ds else Repeat(fill, width - |ds|) + ds) &&
              SameOutside(old(str[..]), str[..], 0, len + 1)
    ensures 2 <= base <= 16 && fill != '\0' ==>
              len < str.Length && str[len] == '\0' && Shows(str[..len], value, false, base, width, fill)
  {
    if base < 2 || base > 16 {
      str[0] := '\0';
      return 0;
    }
    DigitsHaveNoNul(value, base);
    var w := EmitDigits(value, str, 0, base);
    assert str[0..w] == str[..w];
    len := PadAndReverse(str, w, width, fill, Digits(value, base));
    if fill != '\0' {
      ghost var t := Repeat(fill, width - w) + Digits(value, base);
      UnsignedShows(value, base, width, fill, Digits(value, base), t);
      HeldText(str[..], t);
    }
  }

  // ---------------------------------------------------------------- itoan

  const SCRATCH: nat := 32

  /** The unsigned number itoan converts: the magnitude when signed, the two's complement bits otherwise. */
  function Converted(value: int32, signed: bool): uint32 {
    if value >= 0 then value else if signed then -(value as int) else value as int + TWO_TO_THE_32
  }

  function Sign(negative: bool): string {
    if negative then "-" else ""
  }

  /** Sign before a visible fill, after a blank one. */
  function Padded(sign: string, ds: string, len: int, fill: char): string {
    var pad := Repeat(fill, len - |ds| - |sign|);
    if fill == ' ' then pad + sign + ds else sign + pad + ds
  }

  function Formatted(value: int32, base: int, len: int, fill: char, signed: bool): string
    requires IsBase(base)
  {
    Padded(Sign(signed && value < 0), Digits(Converted(value, signed), base), len, fill)
  }

  lemma ConvertedIs(value: int32, signed: bool)
    ensures Converted(value, signed) ==
            if signed then (if value < 0 then -(value as int) else value) else value % 0x1_0000_0000
  {
  }

  /** The wanted text, at every length, shows the absolute value when signed, else the value modulo 2^32. */
  lemma FormattedShows(value: int32, base: int, len: int, fill: char, signed: bool)
    requires IsBase(base)
    ensures Shows(Formatted(value, base, len, fill, signed),
                  if signed then (if value < 0 then -(value as int) else value) else value % 0x1_0000_0000,
                  signed && value < 0, base, len, fill)
  {
    ConvertedIs(value, signed);
    PaddedShows(Converted(value, signed), signed && value < 0, base, len, fill);
  }

  lemma ConvertedFits(value: int32, base: int, signed: bool)
    requires IsBase(base)
    ensures |Digits(Converted(value, signed), base)| <= 32
  {
    PowerThirtyTwo();
    DigitsFit(Converted(value, signed), base, 32);
  }

  /** Where the digit meant for position `i` of an `n`-character text is parked. */
  function Parked(n: nat, i: nat): nat
    requires i < n
  {
    SCRATCH + (n - 1 - i)
  }

  /** What becomes of the wanted text `t` with `q` digits: a digit parked before its own place is overwritten by the
      text's character at that index before it is read. */
  function Outcome(t: string, q: nat): (s: string)
    requires q <= |t|
    ensures |s| == |t|
  {
    seq(|t|, i requires 0 <= i < |t| => if i >= |t| - q && Parked(|t|, i) < i then t[Parked(|t|, i)] else t[i])
  }

  /** Each digit parked before its own place equals the character of the text that overwrites it. */
  predicate CopySafe(t: string, q: nat)
    requires q <= |t|
  {
    forall i :: |t| - q <= i < |t| && Parked(|t|, i) < i ==> t[Parked(|t|, i)] == t[i]
  }

  /** The text comes out as wanted exactly when it is copy-safe. */
  lemma OutcomeIsWanted(t: string, q: nat)
    requires q <= |t|
    ensures Outcome(t, q) == t <==> CopySafe(t, q)
  {
    if CopySafe(t, q) {
      assert forall i :: 0 <= i < |t| ==> Outcome(t, q)[i] == t[i];
    }
  }

  /** No digit of a text that ends by index 33 is overwritten too early. */
  lemma ShortIsSafe(t: string, q: nat)
    requires q <= |t| <= SCRATCH + 1
    ensures CopySafe(t, q)
  {
  }

  /** What the copy leaves at position `i`: the scratch character, or, when that is overwritten by then, the character
      it was overwritten with, which was parked at `i` itself. */
  ghost predicate CopiedAt(m0: string, m: string, from: nat, n: nat, i: nat)
    requires i < n <= |m| == |m0| && Parked(n, i) < |m0|
  {
    m[i] == if from <= Parked(n, i) < i then m0[i] else m0[Parked(n, i)]
  }

  /** The copy loop: scratch digits, last first, down to `from`, inside one buffer. */
  method CopyReversed(str: array<char>, from: nat, count: nat) returns (si: nat)
    requires count > 0 && SCRATCH + count <= str.Length && from + count <= str.Length
    modifies str
    ensures si == from + count && SameOutside(old(str[..]), str[..], from, si)
    ensures forall i :: from <= i < si ==> CopiedAt(old(str[..]), str[..], from, si, i)
    ensures si <= SCRATCH + 1 ==> str[from..si] == Reverse(old(str[SCRATCH..SCRATCH + count]))
  {
    ghost var m0, n := str[..], from + count;
    var qi := count;
    si := from;
    while qi > 0
      invariant 0 <= qi <= count && si == n - qi
      invariant SameOutside(m0, str[..], from, si)
      invariant forall i :: from <= i < si ==> CopiedAt(m0, str[..], from, n, i)
    {
      qi := qi - 1;
      ghost var m := str[..];
      ghost var s := Parked(n, si);
      assert s == SCRATCH + qi;
      str[si] := str[SCRATCH + qi];
      KeepsCopied(m0, m, str[..], from, n, si);
      si := si + 1;
    }
    if n <= SCRATCH + 1 {
      CopiedShort(m0, str[..], from, n);
    }
  }

  /** A copy that ends by index 33 reverses the parked digits. */
  lemma CopiedShort(m0: string, m: string, from: nat, n: nat)
    requires from <= n <= SCRATCH + 1 && SCRATCH + (n - from) <= |m0| == |m| && n <= |m|
    requires forall i :: from <= i < n ==> CopiedAt(m0, m, from, n, i)
    ensures m[from..n] == Reverse(m0[SCRATCH..SCRATCH + (n - from)])
  {
    var r := Reverse(m0[SCRATCH..SCRATCH + (n - from)]);
    forall i | from <= i < n ensures m[i] == r[i - from] {
      assert CopiedAt(m0, m, from, n, i);
    }
  }

  /** One character copied: what was copied before stays. */
  lemma KeepsCopied(m0: string, m: string, m': string, from: nat, n: nat, si: nat)
    requires from <= si < n <= |m| == |m0| && SCRATCH + n - from <= |m0|
    requires m' == m[si := m[Parked(n, si)]] && SameOutside(m0, m, from, si)
    requires forall i :: from <= i < si ==> CopiedAt(m0, m, from, n, i)
    ensures forall i :: from <= i <= si ==> CopiedAt(m0, m', from, n, i)
  {
    var s := Parked(n, si);
    if from <= s < si {
      assert Parked(n, s) == si;
      assert CopiedAt(m0, m, from, n, s);
    }
    assert CopiedAt(m0, m', from, n, si);
    forall i | from <= i < si ensures CopiedAt(m0, m', from, n, i) {
      assert CopiedAt(m0, m, from, n, i);
    }
  }

  /** Sign and padding, the part of the text before the digits. */
  method EmitLead(str: array<char>, rest: int, fill: char, negative: bool) returns (si: nat)
    requires (if rest > 0 then rest else 0) + 1 < str.Length
    modifies str
    ensures si <= str.Length && str[..si] == Lead(negative, rest, fill)
    ensures SameOutside(old(str[..]), str[..], 0, si)
  {
    si := 0;
    if fill != ' ' && negative {
      str[si] := '-';
      si := si + 1;
    }
    ghost var m1, from := str[..], si;
    si := Fill(str, si, rest, fill);
    ghost var m2 := str[..];
    assert m2[..from] == m1[..from] && m2[..si] == m2[..from] + m2[from..si];
    if fill == ' ' && negative {
      str[si] := '-';
      si := si + 1;
      assert str[..si] == m2[..si - 1] + "-";
    }
  }

  /** Padding and sign, in the order the fill character asks for. */
  function Lead(negative: bool, rest: int, fill: char): (s: string)
    ensures |s| == |Repeat(fill, rest)| + |Sign(negative)|
    ensures !negative ==> s == Repeat(fill, rest)
  {
    if fill == ' ' then Repeat(fill, rest) + Sign(negative) else Sign(negative) + Repeat(fill, rest)
  }

  lemma LeadThenDigits(negative: bool, ds: string, len: int, fill: char)
    ensures Padded(Sign(negative), ds, len, fill) == Lead(negative, len - |ds| - |Sign(negative)|, fill) + ds
  {
  }

  lemma FormattedIsLead(value: int32, base: int, len: int, fill: char, signed: bool, ds: string)
    requires IsBase(base) && ds == Digits(Converted(value, signed), base)
    ensures var negative := signed && value < 0;
            Formatted(value, base, len, fill, signed) ==
            Lead(negative, len - |ds| - (if negative then 1 else 0), fill) + ds
  {
    LeadThenDigits(signed && value < 0, ds, len, fill);
  }

  /** The text around the parked digits: sign, padding, the digits copied in order, the terminator. */
  method Assemble(str: array<char>, qi: nat, rest: int, fill: char, negative: bool, ghost ds: string) returns (n: nat)
    requires qi == |ds| >= 1 && SCRATCH + qi <= str.Length && str[SCRATCH..SCRATCH + qi] == Reverse(ds)
    requires |Lead(negative, rest, fill)| + qi < str.Length
    modifies str
    ensures n == |Lead(negative, rest, fill)| + qi && str[n] == '\0'
    ensures str[..n] == Outcome(Lead(negative, rest, fill) + ds, qi)
    ensures str[..n] == Lead(negative, rest, fill) + ds <==> CopySafe(Lead(negative, rest, fill) + ds, qi)
    ensures SameOutside(old(str[..]), str[..], 0, n + 1)
  {
    ghost var m1, lead := str[..], Lead(negative, rest, fill);
    var si := EmitLead(str, rest, fill, negative);
    ghost var m2 := str[..];
    n := CopyReversed(str, si, qi);
    ghost var m3 := str[..];
    str[n] := '\0';
    ghost var m4 := str[..];
    OnlyTextWritten(m1, m2, m3, m4, si, n);
    AssembledText(m1, m2, m3, lead, ds, n);
    assert m4[..n] == m3[..n];
    OutcomeIsWanted(lead + ds, qi);
  }

  lemma OnlyTextWritten(m1: string, m2: string, m3: string, m4: string, si: nat, n: nat)
    requires si <= n < |m1| && SameOutside(m1, m2, 0, si) && SameOutside(m2, m3, si, n) && m4 == m3[n := '\0']
    ensures SameOutside(m1, m4, 0, n + 1)
  {
  }

  /** `m2` is `m1`, where the reversed digits are parked, with the lead written in front. */
  ghost predicate LeadWritten(m1: string, m2: string, lead: string, ds: string) {
    SCRATCH + |ds| <= |m1| && |lead| + |ds| < |m1| && m1[SCRATCH..SCRATCH + |ds|] == Reverse(ds) &&
    SameOutside(m1, m2, 0, |lead|) && m2[..|lead|] == lead
  }

  /** Lead and copied digits together are the outcome of the wanted text. */
  lemma AssembledText(m1: string, m2: string, m3: string, lead: string, ds: string, n: nat)
    requires LeadWritten(m1, m2, lead, ds) && n == |lead| + |ds| && SameOutside(m2, m3, |lead|, n)
    requires forall i :: |lead| <= i < n ==> CopiedAt(m2, m3, |lead|, n, i)
    ensures m3[..n] == Outcome(lead + ds, |ds|)
  {
    forall i | 0 <= i < n ensures m3[i] == Outcome(lead + ds, |ds|)[i] {
      if i < |lead| {
        assert m3[i] == m2[i] == m2[..|lead|][i] == lead[i];
      } else {
        assert CopiedAt(m2, m3, |lead|, n, i);
        CopiedDigit(m1, m2, m3, lead, ds, i);
      }
    }
  }

  lemma CopiedDigit(m1: string, m2: string, m3: string, lead: string, ds: string, i: nat)
    requires LeadWritten(m1, m2, lead, ds) && |lead| <= i < |lead| + |ds| && |m3| == |m2|
    requires CopiedAt(m2, m3, |lead|, |lead| + |ds|, i)
    ensures m3[i] == Outcome(lead + ds, |ds|)[i]
  {
    var s := Parked(|lead| + |ds|, i);
    if s < |lead| {
      assert m2[s] == m2[..|lead|][s] == lead[s];
    } else {
      var at := if s < i then i else s;
      assert m2[at] == m1[at] == m1[SCRATCH..SCRATCH + |ds|][at - SCRATCH] == Reverse(ds)[at - SCRATCH];
    }
  }

  /** itoan: formatting inside the output buffer itself, with the digits parked at `str + 32`. */
  method Itoan(value: int32, str: array<char>, base: int, len: int, fill: char, signed: bool) returns (n: nat)
    requires str.Length > 0
    requires IsBase(base) ==>
      SCRATCH + |Digits(Converted(value, signed), base)| <= str.Length &&
      |Formatted(value, base, len, fill, signed)| < str.Length
    modifies str
    ensures base < 2 || base > 16 ==> n == 0 && str[0] == '\0' && SameOutside(old(str[..]), str[..], 0, 1)
    ensures IsBase(base) ==> n == |Formatted(value, base, len, fill, signed)| && str[n] == '\0'
    ensures IsBase(base) ==>
              var wanted, q := Formatted(value, base, len, fill, signed), |Digits(Converted(value, signed), base)|;
              str[..n] == Outcome(wanted, q) && (str[..n] == wanted <==> CopySafe(wanted, q))
    ensures IsBase(base) && len <= 33 ==> str[..n] == Formatted(value, base, len, fill, signed)
    ensures IsBase(base) && len >= 34 && value == 0 ==> n == len && str[n - 1] == fill
    ensures 2 <= base <= 16 && len <= 33 ==>
              Shows(str[..n], if signed then (if value < 0 then -(value as int) else value) else value % 0x1_0000_0000,
                    signed && value < 0, base, len, fill)
    ensures base == 10 && signed && len <= 33 && (fill == ' ' || fill == '0') ==> Parse(str[..n]) == value
    ensures IsBase(base) ==>
              forall i :: n < i < str.Length && !(SCRATCH <= i < SCRATCH + |Digits(Converted(value, signed), base)|) ==>
                str[i] == old(str[i])
  {
    if base < 2 || base > 16 {
      str[0] := '\0';
      return 0;
    }
    n := ItoanInBase(value, str, base, len, fill, signed);
    OutcomeFacts(value, base, len, fill, signed, str[..n]);
  }

  method ItoanInBase(value: int32, str: array<char>, base: int, len: int, fill: char, signed: bool) returns (n: nat)
    requires IsBase(base) && SCRATCH + |Digits(Converted(value, signed), base)| <= str.Length
    requires |Formatted(value, base, len, fill, signed)| < str.Length
    modifies str
    ensures n == |Formatted(value, base, len, fill, signed)| && str[n] == '\0'
    ensures str[..n] == Outcome(Formatted(value, base, len, fill, signed), |Digits(Converted(value, signed), base)|)
    ensures forall i :: n < i < str.Length && !(SCRATCH <= i < SCRATCH + |Digits(Converted(value, signed), base)|) ==>
              str[i] == old(str[i])
  {
    ghost var ds, wanted := Digits(Converted(value, signed), base), Formatted(value, base, len, fill, signed);
    FormattedIsLead(value, base, len, fill, signed, ds);
    n := FormatInPlace(Converted(value, signed), str, base, len, fill, signed && value < 0, ds, wanted);
  }

  lemma OutcomeFacts(value: int32, base: int, len: int, fill: char, signed: bool, s: string)
    requires IsBase(base)
    requires s == Outcome(Formatted(value, base, len, fill, signed), |Digits(Converted(value, signed), base)|)
    ensures s == Formatted(value, base, len, fill, signed) <==>
            CopySafe(Formatted(value, base, len, fill, signed), |Digits(Converted(value, signed), base)|)
    ensures len <= 33 ==>
              s == Formatted(value, base, len, fill, signed) &&
              Shows(s, if signed then (if value < 0 then -(value as int) else value) else value % 0x1_0000_0000,
                    signed && value < 0, base, len, fill)
    ensures base == 10 && signed && len <= 33 && (fill == ' ' || fill == '0') ==> Parse(s) == value
    ensures len >= 34 && value == 0 ==> |s| == len && s[len - 1] == fill
  {
    OutcomeIsWanted(Formatted(value, base, len, fill, signed), |Digits(Converted(value, signed), base)|);
    if len <= 33 {
      ShortText(value, base, len, fill, signed, s);
    } else if value == 0 {
      WideZeroWanted(base, len, fill, signed);
    }
  }

  lemma ShortText(value: int32, base: int, len: int, fill: char, signed: bool, s: string)
    requires IsBase(base) && len <= 33
    requires var wanted, q := Formatted(value, base, len, fill, signed), |Digits(Converted(value, signed), base)|;
             s == wanted <==> CopySafe(wanted, q)
    ensures s == Formatted(value, base, len, fill, signed)
    ensures Shows(s, if signed then (if value < 0 then -(value as int) else value) else value % 0x1_0000_0000,
                  signed && value < 0, base, len, fill)
    ensures base == 10 && signed && (fill == ' ' || fill == '0') ==> Parse(s) == value
  {
    ShortFormattedIsSafe(value, base, len, fill, signed);
    FormattedShows(value, base, len, fill, signed);
    if base == 10 && signed && (fill == ' ' || fill == '0') {
      ShownParses(s, if value < 0 then -(value as int) else value, value < 0, len, fill);
    }
  }

  /** The conversion itself: digits into the scratch area, then the text assembled in front of them. */
  method FormatInPlace(val: uint32, str: array<char>, base: int, len: int, fill: char, negative: bool,
                       ghost ds: string, ghost wanted: string)
    returns (n: nat)
    requires IsBase(base) && ds == Digits(val, base) && SCRATCH + |ds| <= str.Length && |wanted| < str.Length
    requires wanted == Lead(negative, len - |ds| - (if negative then 1 else 0), fill) + ds
    modifies str
    ensures n == |wanted| && str[n] == '\0'
    ensures str[..n] == Outcome(wanted, |ds|) && (str[..n] == wanted <==> CopySafe(wanted, |ds|))
    ensures forall i :: n < i < str.Length && !(SCRATCH <= i < SCRATCH + |ds|) ==> str[i] == old(str[i])
  {
    ghost var m0 := str[..];
    var qi := EmitDigits(val, str, SCRATCH, base);
    ghost var m1 := str[..];
    n := Assemble(str, qi, len - qi - (if negative then 1 else 0), fill, negative, ds);
    ScratchAndText(m0, m1, str[..], qi, n);
  }

  lemma ScratchAndText(m0: string, m1: string, m2: string, q: nat, n: nat)
    requires SameOutside(m0, m1, SCRATCH, SCRATCH + q) && SameOutside(m1, m2, 0, n + 1)
    ensures |m2| == |m0|
    ensures forall i :: n < i < |m0| && !(SCRATCH <= i < SCRATCH + q) ==> m2[i] == m0[i]
  {
  }

  /** Texts of a length up to 33 come out as wanted for every value, base and fill. */
  lemma ShortFormattedIsSafe(value: int32, base: int, len: int, fill: char, signed: bool)
    requires IsBase(base) && len <= 33
    ensures CopySafe(Formatted(value, base, len, fill, signed), |Digits(Converted(value, signed), base)|)
  {
    ConvertedFits(value, base, signed);
    ShortIsSafe(Formatted(value, base, len, fill, signed), |Digits(Converted(value, signed), base)|);
  }

  /** From a length of 34 on the last character of a zero is the fill: right exactly when the fill is '0'. */
  lemma WideZeroWanted(base: int, len: int, fill: char, signed: bool)
    requires IsBase(base) && len >= 34
    ensures var t := Formatted(0, base, len, fill, signed);
            |Digits(Converted(0, signed), base)| == 1 && |t| == len && t[len - 1] == '0' &&
            Outcome(t, 1)[len - 1] == fill && (CopySafe(t, 1) <==> fill == '0')
  {
    assert NUMCODE[0] == '0';
    assert Digits(0, base) == [Code(0)];
    assert Parked(len, len - 1) == SCRATCH;
  }

  /** More than 32 padding characters spoil every number, unless the padding is itself a digit. */
  lemma WidePaddingSpoils(value: int32, base: int, len: int, fill: char, signed: bool)
    requires IsBase(base) && fill !in NUMCODE
    requires len > SCRATCH + |Digits(Converted(value, signed), base)|
    ensures !CopySafe(Formatted(value, base, len, fill, signed), |Digits(Converted(value, signed), base)|)
  {
    var v := Converted(value, signed);
    var ds, t := Digits(v, base), Formatted(value, base, len, fill, signed);
    LastDigit(v, base);
    assert t[len - 1] == ds[|ds| - 1];
    assert Parked(len, len - 1) == SCRATCH;
    assert t[SCRATCH] == fill || t[SCRATCH] == '-';
  }

  lemma LastDigit(v: nat, base: int)
    requires IsBase(base)
    ensures var c := Digits(v, base)[|Digits(v, base)| - 1]; c in NUMCODE && c != '-'
  {
    Shrinks(v, base);
    assert Code(v % base) == NUMCODE[v % base];
  }

  /** A blank-padded zero of 34 characters loses its digit; an eleven of that length comes out right. */
  lemma WideExamples()
    ensures !CopySafe(Formatted(0, 10, 34, ' ', true), 1)
    ensures |Digits(Converted(11, true), 10)| == 2 && CopySafe(Formatted(11, 10, 34, ' ', true), 2)
  {
    WideZeroWanted(10, 34, ' ', true);
    assert Digits(11, 10) == Digits(1, 10) + [Code(1)] == [Code(1), Code(1)];
    var t := Formatted(11, 10, 34, ' ', true);
    assert t == Repeat(' ', 32) + [Code(1), Code(1)];
  }

  // ---------------------------------------------------------------- enx_atoll

  ghost predicate InRange64(v: int) {
    -0x8000_0000_0000_0000 <= v < 0x8000_0000_0000_0000
  }

  /** enx_atoll: the number is accumulated negated, so that the least one fits; every intermediate value is an int64. */
  method Atoll(str: array<char>, ghost t: string) returns (v: int64)
    requires HoldsText(str[..], t) && InRange64(Parse(t))
    ensures v as int == Parse(t)
  {
    ghost var m := str[..];
    assert forall i :: 0 <= i < |t| ==> m[..|t|][i] == m[i];
    var p := 0;
    while str[p] == ' ' || str[p] == '\t'
      invariant 0 <= p <= |t| && SkipBlanks(t, p) == SkipBlanks(t, 0)
      decreases |t| - p
    {
      p := p + 1;
    }
    var negative := false;
    if str[p] == '+' {
      p := p + 1;
    } else if str[p] == '-' {
      negative := true;
      p := p + 1;
    }
    ghost var magnitude := NumberAt(t, p, 0);
    assert Parse(t) == if negative then -(magnitude as int) else magnitude;
    var result: int64 := 0;
    while '0' <= str[p] <= '9'
      invariant 0 <= p <= |t| && result <= 0 && NumberAt(t, p, -(result as int)) == magnitude
      decreases |t| - p
    {
      ghost var next := -(result as int) * 10 + DigitValue(t[p]);
      assert NumberAt(t, p + 1, next) == magnitude && next <= magnitude;
      result := result * 10 - (str[p] as int - '0' as int) as int64;
      p := p + 1;
    }
    assert -(result as int) == magnitude;
    v := if negative then result else -result;
  }

  /** Reading back what itoa printed in base 10 gives the number, for every number itoa can print. */
  method PrintThenParse(value: int32, str: array<char>) returns (v: int64)
    requires value != -TWO_TO_THE_31 && |Render(value, 10)| < str.Length
    modifies str
    ensures v as int == value
  {
    var len := Itoa(value, str, 10);
    ParseRender(value, "");
    assert Render(value, 10) + "" == Render(value, 10);
    v := Atoll(str, Render(value, 10));
  }
}
