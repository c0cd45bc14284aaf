/** What printed numbers mean: digits, signs and padding, and reading them back. */
module NumberText {

  const NUMCODE: string := "0123456789ABCDEF"

  predicate IsBase(base: int) {
    2 <= base <= 16
  }

  function DigitValue(c: char): nat {
    if '0' <= c <= '9' then c as int - '0' as int
    else if 'A' <= c <= 'F' then c as int - 'A' as int + 10
    else 0
  }

  predicate IsDecimal(c: char) {
    '0' <= c <= '9'
  }

  /** gNumcode[d] */
  function Code(d: nat): (c: char)
    requires d < 16
    ensures DigitValue(c) == d && c != '\0' && c != '-' && (d < 10 ==> IsDecimal(c))
    ensures c == if d < 10 then '0' + d as char else 'A' + (d - 10) as char
  {
    assert NUMCODE == ['0', '1', '2', '3', '4', '5', '6', '7', '8', '9', 'A', 'B', 'C', 'D', 'E', 'F'];
    NUMCODE[d]
  }

  lemma Shrinks(v: nat, base: int)
    requires IsBase(base)
    ensures 0 <= v / base <= v / 2 && (v > 0 ==> v / base < v) && 0 <= v % base < base
    ensures v == v / base * base + v % base
    ensures if v < base then v / base == 0 && v % base == v else v / base >= 1
  {
    var q, r := v / base, v % base;
    assert v == q * base + r;
    if v < base {
      assert q * base < base;
    } else {
      assert q * base > 0;
      assert q * 2 <= q * base;
    }
  }

  /** The digits of `v`, most significant first. */
  function Digits(v: nat, base: int): (s: string)
    requires IsBase(base)
    ensures s != []
    decreases v
  {
    Shrinks(v, base);
    if v < base then [Code(v)] else Digits(v / base, base) + [Code(v % base)]
  }

  function Value(s: string, base: int): nat
    requires IsBase(base)
  {
    if s == [] then 0 else Value(s[..|s| - 1], base) * base + DigitValue(s[|s| - 1])
  }

  lemma ValueAppend(s: string, c: char, base: int)
    requires IsBase(base)
    ensures Value(s + [c], base) == Value(s, base) * base + DigitValue(c)
  {
    assert (s + [c])[..|s|] == s;
  }

  /** Digits evaluate back to the number, in every base. */
  lemma {:induction false} DigitsValue(v: nat, base: int)
    requires IsBase(base)
    ensures Value(Digits(v, base), base) == v
    decreases v
  {
    if v < base {
      assert Digits(v, base) == [] + [Code(v)];
      ValueAppend([], Code(v), base);
    } else {
      Shrinks(v, base);
      DigitsValue(v / base, base);
      SpelledBy(Digits(v / base, base), Code(v % base), base, v / base, v % base, v);
    }
  }

  lemma SpelledBy(s: string, c: char, base: int, q: nat, d: nat, v: nat)
    requires IsBase(base) && Value(s, base) == q && DigitValue(c) == d && v == q * base + d
    ensures Value(s + [c], base) == v
  {
    ValueAppend(s, c, base);
  }

  // ---------------------------------------------------------------- the numeral of a number

  predicate IsDigitOf(c: char, base: int) {
    ('0' <= c <= '9' && c as int - '0' as int < base) || ('A' <= c <= 'F' && c as int - 'A' as int + 10 < base)
  }

  ghost predicate AllDigits(s: string, base: int) {
    forall i :: 0 <= i < |s| ==> IsDigitOf(s[i], base)
  }

  /** `s` writes `m` in positional notation, without superfluous zeros. */
  ghost predicate Numeral(s: string, base: int, m: nat)
    requires IsBase(base)
  {
    s != [] && AllDigits(s, base) && (|s| > 1 ==> s[0] != '0') && Value(s, base) == m
  }

  lemma {:induction false} DigitsAreDigits(v: nat, base: int)
    requires IsBase(base)
    ensures AllDigits(Digits(v, base), base) && (v > 0 ==> Digits(v, base)[0] != '0')
    ensures v == 0 ==> |Digits(v, base)| == 1
    decreases v
  {
    if v < base {
    } else {
      Shrinks(v, base);
      DigitsAreDigits(v / base, base);
    }
  }

  /** The digits of a number are its numeral ... */
  lemma DigitsAreNumeral(v: nat, base: int)
    requires IsBase(base)
    ensures Numeral(Digits(v, base), base, v)
  {
    DigitsAreDigits(v, base);
    DigitsValue(v, base);
  }

  lemma Positive(a: nat, b: nat)
    requires a > 0 && b > 0
    ensures a * b > 0
  {
  }

  lemma {:induction false} LeadingDigitCounts(s: string, base: int)
    requires IsBase(base) && s != [] && AllDigits(s, base) && s[0] != '0'
    ensures Value(s, base) > 0
  {
    var front := s[..|s| - 1];
    assert s == front + [s[|s| - 1]];
    ValueAppend(front, s[|s| - 1], base);
    if front == [] {
      assert IsDigitOf(s[0], base) && DigitValue(s[0]) > 0;
    } else {
      LeadingDigitCounts(front, base);
      Positive(Value(front, base), base);
    }
  }

  lemma SplitsAs(v: nat, base: int, q: nat, d: nat)
    requires IsBase(base) && v == q * base + d && d < base
    ensures v / base == q && v % base == d
  {
  }

  /** ... and it has no other. */
  lemma {:induction false} NumeralIsUnique(s: string, base: int, m: nat)
    requires IsBase(base) && Numeral(s, base, m)
    ensures s == Digits(m, base)
  {
    var front, c := s[..|s| - 1], s[|s| - 1];
    var d := DigitValue(c);
    assert IsDigitOf(c, base) && d < base && c == Code(d);
    SplitsAs(m, base, Value(front, base), d);
    Shrinks(m, base);
    assert s == front + [c];
    if front == [] {
      assert Value(front, base) == 0;
    } else {
      LeadingDigitCounts(front, base);
      NumeralIsUnique(front, base, m / base);
    }
  }

  lemma {:induction false} ZerosAddNothing(k: nat, ds: string, base: int)
    requires IsBase(base)
    ensures Value(Repeat('0', k) + ds, base) == Value(ds, base)
    decreases |ds|, k
  {
    var z := Repeat('0', k);
    if ds != [] {
      var front, last := ds[..|ds| - 1], ds[|ds| - 1];
      assert z + ds == (z + front) + [last] && ds == front + [last];
      ValueAppend(z + front, last, base);
      ValueAppend(front, last, base);
      ZerosAddNothing(k, front, base);
    } else if k > 0 {
      assert z + ds == (Repeat('0', k - 1) + ds) + ['0'];
      ValueAppend(Repeat('0', k - 1) + ds, '0', base);
      ZerosAddNothing(k - 1, ds, base);
    } else {
      assert z + ds == ds;
    }
  }

  ghost predicate PlainDigit(c: char, base: int) {
    c != '\0' && c != '-' && (base <= 10 ==> IsDecimal(c))
  }

  /** Digits contain no terminator and no sign; in bases up to ten only decimal digits. */
  lemma {:induction false} DigitsArePlain(v: nat, base: int)
    requires IsBase(base)
    ensures forall i :: 0 <= i < |Digits(v, base)| ==> PlainDigit(Digits(v, base)[i], base)
    decreases v
  {
    if v < base {
    } else {
      var c := Code(v % base);
      Shrinks(v, base);
      DigitsArePlain(v / base, base);
      assert PlainDigit(c, base);
    }
  }

  function PowerOfTwo(n: nat): nat {
    if n == 0 then 1 else 2 * PowerOfTwo(n - 1)
  }

  /** A number below 2^n has at most n digits, in every base. */
  lemma {:induction false} DigitsFit(v: nat, base: int, n: nat)
    requires IsBase(base) && n > 0 && v < PowerOfTwo(n)
    ensures |Digits(v, base)| <= n
    decreases n
  {
    if v < base {
    } else {
      Shrinks(v, base);
      DigitsFit(v / base, base, n - 1);
    }
  }

  function Magnitude(v: int): nat {
    if v < 0 then -v else v
  }

  /** The text of a signed number. */
  function Render(v: int, base: int): string
    requires IsBase(base)
  {
    (if v < 0 then "-" else "") + Digits(Magnitude(v), base)
  }

  function Repeat(c: char, n: int): (s: string)
    ensures |s| == if n < 0 then 0 else n
    ensures forall i :: 0 <= i < |s| ==> s[i] == c
  {
    seq(if n < 0 then 0 else n, i => c)
  }

  function Reverse(s: string): (r: string)
    ensures |r| == |s|
  {
    seq(|s|, i requires 0 <= i < |s| => s[|s| - 1 - i])
  }

  lemma ReverseTwice(s: string)
    ensures Reverse(Reverse(s)) == s
  {
  }

  // ---------------------------------------------------------------- reading

  predicate IsBlank(c: char) {
    c == ' ' || c == '\t'
  }

  function SkipBlanks(s: string, i: nat): (j: nat)
    requires i <= |s|
    ensures i <= j <= |s|
    decreases |s| - i
  {
    if i < |s| && IsBlank(s[i]) then SkipBlanks(s, i + 1) else i
  }

  /** The number spelled by `acc` and the digits from `i` on. */
  function NumberAt(s: string, i: nat, acc: nat): (n: nat)
    requires i <= |s|
    ensures n >= acc
    decreases |s| - i
  {
    if i < |s| && IsDecimal(s[i]) then NumberAt(s, i + 1, acc * 10 + DigitValue(s[i])) else acc
  }

  /** Blanks, an optional sign, digits: what a decimal text means. */
  function Parse(s: string): int {
    var i := SkipBlanks(s, 0);
    if i < |s| && s[i] == '-' then -(NumberAt(s, i + 1, 0) as int)
    else NumberAt(s, if i < |s| && s[i] == '+' then i + 1 else i, 0)
  }

  lemma {:induction false} SkipsAll(s: string, n: nat, i: nat)
    requires i <= n <= |s| && (forall k :: 0 <= k < n ==> IsBlank(s[k])) && (n < |s| ==> !IsBlank(s[n]))
    ensures SkipBlanks(s, i) == n
    decreases n - i
  {
    if i >= n {
    } else {
      SkipsAll(s, n, i + 1);
    }
  }

  lemma {:induction false} ReadsDigits(s: string, at: nat, ds: string, n: nat)
    requires n <= |ds| && at + |ds| <= |s| && s[at..at + |ds|] == ds
    requires forall k :: 0 <= k < |ds| ==> IsDecimal(ds[k])
    requires at + |ds| < |s| ==> !IsDecimal(s[at + |ds|])
    ensures NumberAt(s, at + n, Value(ds[..n], 10)) == Value(ds, 10)
    decreases |ds| - n
  {
    if n < |ds| {
      assert s[at + n] == s[at..at + |ds|][n] == ds[n];
      assert ds[..n + 1] == ds[..n] + [ds[n]];
      ValueAppend(ds[..n], ds[n], 10);
      ReadsDigits(s, at, ds, n + 1);
    } else {
      assert ds[..n] == ds;
    }
  }

  /** In `s` the first `n` characters are blanks, an optional sign follows, and then exactly the digits `ds`. */
  ghost predicate Spells(s: string, n: nat, ds: string) {
    (forall k :: 0 <= k < n && k < |s| ==> s[k] == ' ' || s[k] == '\t') &&
    ds != [] && (forall k :: 0 <= k < |ds| ==> '0' <= ds[k] <= '9') &&
    n < |s| && s[n] != ' ' && s[n] != '\t' &&
    var at := if s[n] == '+' || s[n] == '-' then n + 1 else n;
    at + |ds| <= |s| && s[at..at + |ds|] == ds && (at + |ds| < |s| ==> !('0' <= s[at + |ds|] <= '9'))
  }

  /** Any blanks, sign and run of digits is read as the number it spells, whatever non-digit follows. */
  lemma ParseReads(s: string, n: nat, ds: string)
    requires Spells(s, n, ds)
    ensures Parse(s) == if s[n] == '-' then -(Value(ds, 10) as int) else Value(ds, 10)
  {
    var at := if s[n] == '+' || s[n] == '-' then n + 1 else n;
    SkipsAll(s, n, 0);
    ReadsDigits(s, at, ds, 0);
    assert ds[..0] == [];
  }

  lemma SignedSpells(negative: bool, ds: string, after: string, s: string)
    requires ds != [] && (forall k :: 0 <= k < |ds| ==> IsDecimal(ds[k])) && (after == [] || !IsDecimal(after[0]))
    requires s == (if negative then "-" else "") + ds + after
    ensures Spells(s, 0, ds) && (s[0] == '-' <==> negative)
  {
    var at := if negative then 1 else 0;
    assert s[at] == ds[0];
    assert s[at..at + |ds|] == ds;
    assert after != [] ==> s[at + |ds|] == after[0];
  }

  lemma DecimalDigits(v: nat)
    ensures forall k :: 0 <= k < |Digits(v, 10)| ==> IsDecimal(Digits(v, 10)[k])
  {
    DigitsArePlain(v, 10);
    var ds := Digits(v, 10);
    assert forall k :: 0 <= k < |ds| ==> PlainDigit(ds[k], 10);
  }

  /** Printing in decimal, then reading what was printed, gives the number back. */
  lemma ParseRender(v: int, after: string)
    requires after == [] || !IsDecimal(after[0])
    ensures Parse(Render(v, 10) + after) == v
  {
    var s := Render(v, 10) + after;
    DecimalDigits(Magnitude(v));
    DigitsValue(Magnitude(v), 10);
    SignedSpells(v < 0, Digits(Magnitude(v), 10), after, s);
    ParseReads(s, 0, Digits(Magnitude(v), 10));
  }
}
