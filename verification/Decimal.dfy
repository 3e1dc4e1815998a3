/** Decimal text: what `%d`/`%ld` print and what `atoi`, `atol` and `atoll` read back. */
module Decimal {
  import opened Text

  const INT32_MIN := -0x8000_0000
  const INT32_MAX := 0x7fff_ffff
  const INT64_MIN := -0x8000_0000_0000_0000
  const INT64_MAX := 0x7fff_ffff_ffff_ffff

  predicate IsInt32(v: int) {
    INT32_MIN <= v <= INT32_MAX
  }

  predicate IsInt64(v: int) {
    INT64_MIN <= v <= INT64_MAX
  }

  predicate IsDigit(c: char) {
    '0' <= c <= '9'
  }

  /** `isspace` in the C locale. */
  predicate IsSpace(c: char) {
    c == ' ' || 9 <= c as int <= 13
  }

  predicate AllDigits(s: string) {
    forall i :: 0 <= i < |s| ==> IsDigit(s[i])
  }

  function PrintNat(n: nat): (s: string)
    ensures |s| > 0 && AllDigits(s)
  {
    var last := [('0' as int + n % 10) as char];
    if n < 10 then last else PrintNat(n / 10) + last
  }

  function PrintInt(v: int): (s: string)
    ensures |s| > 0 && (IsDigit(s[0]) || s[0] == '-')
    ensures forall i :: 0 < i < |s| ==> IsDigit(s[i])
  {
    if v < 0 then "-" + PrintNat(-v) else PrintNat(v)
  }

  /** Reads the digits that start `s` onto the value read so far. */
  function ReadDigits(s: string, sofar: nat): nat {
    if s == [] || !IsDigit(s[0]) then sofar
    else ReadDigits(s[1..], 10 * sofar + (s[0] as int - '0' as int))
  }

  /** The number `strtol` sees in base 10, before its range is applied. */
  function ReadInt(s: string): int {
    if s == [] then 0
    else if IsSpace(s[0]) then ReadInt(s[1..])
    else if s[0] == '-' then -(ReadDigits(s[1..], 0) as int)
    else if s[0] == '+' then ReadDigits(s[1..], 0)
    else ReadDigits(s, 0)
  }

  /** `strtol` and `strtoll` with 64-bit results stop at the ends of the range. */
  function Atoll(s: string): (v: int)
    ensures IsInt64(v)
  {
    var v := ReadInt(s);
    if v < INT64_MIN then INT64_MIN else if v > INT64_MAX then INT64_MAX else v
  }

  /** Conversion of a `long` to `int` keeps the low 32 bits. */
  function Wrap32(v: int): (r: int)
    ensures IsInt32(r)
  {
    var low := v % 0x1_0000_0000;
    if low > INT32_MAX then low - 0x1_0000_0000 else low
  }

  /** `atoi`: `strtol` narrowed to `int`. */
  function Atoi(s: string): (r: int)
    ensures IsInt32(r)
  {
    Wrap32(Atoll(s))
  }

  predicate EndsNumber(rest: string) {
    rest == [] || !IsDigit(rest[0])
  }

  lemma {:induction false} ReadDigitsAppend(a: string, b: string, sofar: nat)
    requires AllDigits(a)
    ensures ReadDigits(a + b, sofar) == ReadDigits(b, ReadDigits(a, sofar))
  {
    if a == [] {
      assert a + b == b;
    } else {
      assert (a + b)[1..] == a[1..] + b;
      ReadDigitsAppend(a[1..], b, 10 * sofar + (a[0] as int - '0' as int));
    }
  }

  lemma {:induction false} ReadPrintedNat(n: nat, rest: string)
    requires EndsNumber(rest)
    ensures ReadDigits(PrintNat(n) + rest, 0) == n
  {
    var last := [('0' as int + n % 10) as char];
    if n < 10 {
      ReadDigitsAppend(last, rest, 0);
      assert last[1..] == [];
    } else {
      ReadPrintedNat(n / 10, last[..0]);
      assert PrintNat(n / 10) + last[..0] == PrintNat(n / 10);
      assert PrintNat(n) + rest == PrintNat(n / 10) + (last + rest);
      ReadDigitsAppend(PrintNat(n / 10), last + rest, 0);
      ReadDigitsAppend(last, rest, n / 10);
      assert last[1..] == [];
    }
  }

  /** Printing and reading back is the identity, whatever non-digit follows. */
  lemma ReadPrintedInt(v: int, rest: string)
    requires EndsNumber(rest)
    ensures ReadInt(PrintInt(v) + rest) == v
  {
    if v < 0 {
      assert (PrintInt(v) + rest)[1..] == PrintNat(-v) + rest;
      ReadPrintedNat(-v, rest);
    } else {
      ReadPrintedNat(v, rest);
    }
  }

  lemma AtollPrinted(v: int, rest: string)
    requires IsInt64(v) && EndsNumber(rest)
    ensures Atoll(PrintInt(v) + rest) == v
  {
    ReadPrintedInt(v, rest);
  }

  lemma AtoiPrinted(v: int, rest: string)
    requires IsInt32(v) && EndsNumber(rest)
    ensures Atoi(PrintInt(v) + rest) == v
  {
    ReadPrintedInt(v, rest);
  }

  /** Three printed digits exactly from 100 to 999, so a status code has width three. */
  lemma PrintNatWidth3(n: nat)
    ensures |PrintNat(n)| == 3 <==> 100 <= n <= 999
  {
    PrintNatWidth1(n / 10);
    PrintNatWidth1(n / 100);
    assert n / 10 / 10 == n / 100;
  }

  lemma PrintNatWidth1(n: nat)
    ensures |PrintNat(n)| == 1 <==> n < 10
    ensures n >= 10 ==> |PrintNat(n)| == 1 + |PrintNat(n / 10)|
  {
  }

  function Pow10(k: nat): nat {
    if k == 0 then 1 else 10 * Pow10(k - 1)
  }

  lemma {:induction false} PrintNatLength(n: nat, k: nat)
    requires 0 < k && n < Pow10(k)
    ensures |PrintNat(n)| <= k
  {
    if k > 1 {
      PrintNatLength(n / 10, k - 1);
    }
  }

  /** A byte that ends a number wherever it stands: not a digit, a space or a sign. */
  predicate IsBreak(c: char) {
    !IsDigit(c) && !IsSpace(c) && c != '-' && c != '+'
  }

  /** Nothing behind such a byte is read. */
  lemma {:induction false} ReadDigitsToBreak(s: string, end: string, sofar: nat)
    requires end != "" && IsBreak(end[0])
    ensures ReadDigits(s + end, sofar) == ReadDigits(s, sofar)
  {
    if s == "" {
      assert s + end == end;
    } else {
      assert (s + end)[1..] == s[1..] + end;
      if IsDigit(s[0]) {
        ReadDigitsToBreak(s[1..], end, 10 * sofar + (s[0] as int - '0' as int));
      }
    }
  }

  lemma {:induction false} ReadIntToBreak(s: string, end: string)
    requires end != "" && IsBreak(end[0])
    ensures ReadInt(s + end) == ReadInt(s)
  {
    if s == "" {
      assert s + end == end;
    } else {
      assert (s + end)[1..] == s[1..] + end;
      ReadDigitsToBreak(s, end, 0);
      ReadDigitsToBreak(s[1..], end, 0);
      if IsSpace(s[0]) {
        ReadIntToBreak(s[1..], end);
      }
    }
  }

  // ---------- what the readers read

  /** The number that digits spell, by place value. */
  function Spelled(digits: string): nat
    requires AllDigits(digits)
  {
    if digits == "" then 0
    else 10 * Spelled(digits[..|digits| - 1]) + (digits[|digits| - 1] as int - '0' as int)
  }

  lemma {:induction false} ReadDigitsSpelled(digits: string)
    requires AllDigits(digits)
    ensures ReadDigits(digits, 0) == Spelled(digits)
  {
    if digits != "" {
      var n := |digits| - 1;
      var init, last := digits[..n], digits[n..];
      assert digits == init + last;
      ReadDigitsSpelled(init);
      ReadDigitsAppend(init, last, 0);
      assert last[1..] == "";
    }
  }

  /** White space, a sign, and digits up to the first other byte: one of the signs may be there, and the
      digits may be missing behind it. */
  lemma {:induction false} ReadIntSpelled(spaces: string, sign: string, digits: string, rest: string)
    requires forall i :: 0 <= i < |spaces| ==>
      spaces[i] == ' ' || spaces[i] == '\t' || spaces[i] == '\n' || spaces[i] == '\r' || spaces[i] as int in {11, 12}
    requires sign in {"", "+", "-"} && AllDigits(digits) && sign + digits != "" && EndsNumber(rest)
    ensures ReadInt(spaces + sign + digits + rest) == if sign == "-" then -(Spelled(digits) as int) else Spelled(digits)
  {
    var s := spaces + sign + digits + rest;
    if spaces != "" {
      assert s[1..] == spaces[1..] + sign + digits + rest;
      ReadIntSpelled(spaces[1..], sign, digits, rest);
    } else {
      ReadDigitsAppend(digits, rest, 0);
      ReadDigitsSpelled(digits);
      assert s == sign + (digits + rest);
      assert sign != "" ==> s[1..] == digits + rest;
      assert sign == "" ==> s == digits + rest;
    }
  }

  /** `atoll` yields the 64-bit number that is nearest. */
  lemma AtollIsNearest(s: string, other: int)
    requires IsInt64(other)
    ensures var v, r := ReadInt(s), Atoll(s);
      if v <= r then r - v <= (if other < v then v - other else other - v)
      else v - r <= (if other < v then v - other else other - v)
  {
  }

  /** `atoi` yields the 32-bit number with the same lowest 32 bits. */
  lemma AtoiIsCongruent(s: string)
    ensures -0x8000_0000 <= Atoi(s) < 0x8000_0000 && (Atoll(s) - Atoi(s)) % 0x1_0000_0000 == 0
  {
  }
}
