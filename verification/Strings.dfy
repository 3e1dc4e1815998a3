/** The string helpers of `utils.h`. */
module CStrings {
  import opened Text
  import opened Decimal

  // ---------- sstrstr

  /** `needle` occurs at `i` within the first `length` bytes. */
  predicate OccursAt(haystack: string, needle: string, length: nat, i: nat)
    requires length <= |haystack|
  {
    i < length && i + |needle| <= length && haystack[i..i + |needle|] == needle
  }

  predicate FirstAt(haystack: string, needle: string, length: nat, i: nat)
    requires length <= |haystack|
  {
    OccursAt(haystack, needle, length, i) && forall k :: 0 <= k < i ==> !OccursAt(haystack, needle, length, k)
  }

  /** Searches a memory area that may hold NULs for a string that holds none. */
  method Sstrstr(haystack: string, needle: string, length: nat) returns (r: Option<nat>)
    requires length <= |haystack| && NUL !in needle
    ensures r.Some? ==> FirstAt(haystack, needle, length, r.value)
    ensures r.None? <==> forall i: nat :: !OccursAt(haystack, needle, length, i)
  {
    var i := 0;
    while i < length
      invariant 0 <= i <= length
      invariant forall k :: 0 <= k < i ==> !OccursAt(haystack, needle, length, k)
    {
      if i + |needle| > length {
        return None;
      }
      if haystack[i..i + |needle|] == needle {
        assert OccursAt(haystack, needle, length, i);
        return Some(i);
      }
      i := i + 1;
    }
    return None;
  }

  // ---------- is_decimal_string, is_real_string

  function AfterSign(s: string): string {
    if s != "" && (s[0] == '+' || s[0] == '-') then s[1..] else s
  }

  /** An optional sign and then digits, which may be missing after a sign. */
  predicate IsDecimalString(s: string) {
    s != "" && AllDigits(AfterSign(s))
  }

  /** Digits with at most one dot, not in front. */
  predicate IsRealString(s: string) {
    && s != "" && s[0] != '.'
    && exists dot :: 0 <= dot <= |AfterSign(s)| && IsPointed(AfterSign(s), dot)
  }

  /** A number without a fraction, or with zeros for one. */
  predicate IsWhole(s: string) {
    IsRealString(s) && forall i :: IndexOf(s, '.') < i < |s| ==> s[i] == '0'
  }

  predicate IsPointed(s: string, dot: nat) {
    dot <= |s| && AllDigits(s[..dot]) && (dot < |s| ==> s[dot] == '.' && AllDigits(s[dot + 1..]))
  }

  /** Every decimal number is one: signed, padded with zeros, or neither. */
  lemma DecimalIsWhole(s: string)
    requires IsDecimalString(s)
    ensures IsWhole(s)
  {
    assert IsPointed(AfterSign(s), |AfterSign(s)|);
    forall i | 0 <= i < |s|
      ensures s[i] != '.'
    {
      if s == AfterSign(s) {
        assert IsDigit(AfterSign(s)[i]);
      } else if i > 0 {
        assert s[i] == AfterSign(s)[i - 1];
      }
    }
  }

  method CheckDecimalString(s: string) returns (r: bool)
    ensures r <==> IsDecimalString(s)
  {
    if s == "" {
      return false;
    }
    var itr := 0;
    if s[0] == '+' || s[0] == '-' {
      itr := 1;
    }
    ghost var start := itr;
    while itr < |s|
      invariant start <= itr <= |s|
      invariant forall k :: start <= k < itr ==> IsDigit(s[k])
    {
      if !IsDigit(s[itr]) {
        assert !IsDigit(AfterSign(s)[itr - start]);
        return false;
      }
      itr := itr + 1;
    }
    return true;
  }

  method CheckRealString(s: string) returns (r: bool)
    ensures r <==> IsRealString(s)
  {
    if s == "" || s[0] == '.' {
      return false;
    }
    var itr := 0;
    if s[0] == '+' || s[0] == '-' {
      itr := 1;
    }
    ghost var start, text := itr, AfterSign(s);
    assert text == s[start..];
    var dot := false;
    ghost var point: nat := 0;
    while itr < |s|
      invariant start <= itr <= |s|
      invariant dot ==> point < itr - start && text[point] == '.'
      invariant forall k :: 0 <= k < itr - start ==> IsDigit(text[k]) || (dot && k == point)
    {
      assert s[itr] == text[itr - start];
      if s[itr] == '.' {
        if dot {
          forall p: nat
            ensures !IsPointed(text, p)
          {
            TwoDots(text, p, point, itr - start);
          }
          return false;
        }
        dot, point := true, itr - start;
      } else if !IsDigit(s[itr]) {
        forall p: nat
          ensures !IsPointed(text, p)
        {
          if IsPointed(text, p) {
            PointedBytes(text, p, itr - start);
          }
        }
        return false;
      }
      itr := itr + 1;
    }
    assert IsPointed(text, if dot then point else |text|);
    return true;
  }

  lemma PointedBytes(s: string, dot: nat, k: nat)
    requires IsPointed(s, dot) && k < |s|
    ensures if k == dot then s[k] == '.' else IsDigit(s[k])
  {
    if k < dot {
      assert s[k] == s[..dot][k];
    } else if dot < k {
      assert s[k] == s[dot + 1..][k - dot - 1];
    }
  }

  lemma TwoDots(s: string, dot: nat, i: nat, j: nat)
    requires i < j < |s| && s[i] == s[j] == '.'
    ensures !IsPointed(s, dot)
  {
    if IsPointed(s, dot) {
      PointedBytes(s, dot, i);
      PointedBytes(s, dot, j);
    }
  }

  // ---------- str_escape

  const HEX := "0123456789abcdef"

  predicate IsPrintable(c: char) {
    31 < c as int < 127
  }

  predicate IsAscii(s: string) {
    forall i :: 0 <= i < |s| ==> s[i] as int < 128
  }

  predicate AllPrintable(s: string) {
    forall i :: 0 <= i < |s| ==> IsPrintable(s[i])
  }

  /** What stays of a byte. From 128 on it is a negative `int`, so eight digits are printed of which
      the cursor passes the first two. */
  function EscapeByte(c: char): (r: string)
    ensures 1 <= |r| <= 4 && AllPrintable(r)
  {
    if IsPrintable(c) then [c]
    else if c as int < 128 then ['\\', 'x', HEX[c as int / 16], HEX[c as int % 16]]
    else "\\xff"
  }

  function Escape(s: string): (r: string)
    ensures |s| <= |r| <= 4 * |s|
    ensures AllPrintable(r)
  {
    if s == "" then "" else EscapeByte(s[0]) + Escape(s[1..])
  }

  function LowerHex(n: nat): char
    requires n < 16
  {
    if n < 10 then ('0' as int + n) as char else ('a' as int + n - 10) as char
  }

  /** From space to tilde bytes are kept; other seven-bit bytes are told by two digits, all others by none. */
  lemma EscapedByteIs(c: char)
    ensures Escape([c]) ==
      if ' ' <= c <= '~' then [c]
      else if c as int < 128 then "\\x" + [LowerHex(c as int / 16), LowerHex(c as int % 16)]
      else "\\xff"
  {
    assert [c][1..] == "";
    if c as int < 128 {
      HexIsLower(c as int / 16);
      HexIsLower(c as int % 16);
    }
  }

  lemma HexIsLower(n: nat)
    requires n < 16
    ensures HEX[n] == LowerHex(n)
  {
  }

  /** How many bytes are written for a byte, with the NUL that `sprintf` adds. */
  function Written(c: char): (n: nat)
    ensures n >= |EscapeByte(c)|
  {
    if IsPrintable(c) then 1 else if c as int < 128 then 5 else 11
  }

  /** Everything that is written stays in the buffer of `5n + 1` bytes. */
  predicate FitsBuffer(s: string) {
    forall i :: 0 <= i < |s| ==> |Escape(s[..i])| + Written(s[i]) <= 5 * |s| + 1
  }

  method PutEscaped(buffer: array<char>, at: nat, c: char) returns (end: nat)
    requires at + Written(c) <= buffer.Length
    modifies buffer
    ensures buffer[..at] == old(buffer[..at]) && end == at + |EscapeByte(c)| && buffer[at..end] == EscapeByte(c)
  {
    if IsPrintable(c) {
      buffer[at] := c;
      end := at + 1;
    } else {
      buffer[at], buffer[at + 1] := '\\', 'x';
      end := at + 4;
      if c as int < 128 {
        buffer[at + 2], buffer[at + 3], buffer[end] := HEX[c as int / 16], HEX[c as int % 16], NUL;
      } else {
        forall i | at + 2 <= i < at + 8 {
          buffer[i] := 'f';
        }
        buffer[at + 8], buffer[at + 9], buffer[at + 10] := HEX[c as int / 16 % 16], HEX[c as int % 16], NUL;
      }
    }
  }

  /** Fills the buffer, unless the text overruns it. */
  method StrEscape(s: string) returns (fits: bool, buffer: array<char>)
    ensures fits <==> FitsBuffer(s)
    ensures fresh(buffer) && buffer.Length == 5 * |s| + 1
    ensures fits ==> CString(buffer[..]) == Escape(s)
  {
    hide Escape, EscapeByte, Written;
    buffer := new char[|s| * 5 + 1](_ => NUL);
    var i, end := 0, 0;
    ghost var done := "";
    EscapedHead("");
    assert s[..0] == "";
    while i < |s|
      invariant 0 <= i <= |s| && end == |done| <= 4 * i && end < buffer.Length
      invariant buffer[..end] == done == Escape(s[..i])
      invariant forall k :: 0 <= k < i ==> |Escape(s[..k])| + Written(s[k]) <= buffer.Length
    {
      if end + Written(s[i]) > buffer.Length {
        return false, buffer;
      }
      EscapeStep(s, i);
      EscapeBound(s[..i + 1]);
      end := PutEscaped(buffer, end, s[i]);
      done := done + EscapeByte(s[i]);
      i := i + 1;
    }
    assert s[..i] == s;
    EscapeBound(s);
    buffer[end] := NUL;
    assert buffer[..] == done + buffer[end..];
    CStringOf(done, buffer[end..]);
    return true, buffer;
  }

  lemma EscapeBound(s: string)
    ensures |Escape(s)| <= 4 * |s| && NUL !in Escape(s)
  {
  }

  lemma {:induction false} EscapeAppend(s: string, t: string)
    ensures Escape(s + t) == Escape(s) + Escape(t)
  {
    if s == "" {
      assert s + t == t;
    } else {
      assert (s + t)[1..] == s[1..] + t;
      EscapeAppend(s[1..], t);
    }
  }

  lemma EscapeOne(c: char)
    ensures Escape([c]) == EscapeByte(c)
  {
    assert [c][1..] == "";
  }

  lemma EscapeStep(s: string, i: nat)
    requires i < |s|
    ensures Escape(s[..i + 1]) == Escape(s[..i]) + EscapeByte(s[i])
  {
    EscapeAppend(s[..i], [s[i]]);
    EscapeOne(s[i]);
    hide Escape, EscapeByte;
    assert s[..i] + [s[i]] == s[..i + 1];
  }

  /** A text fits if and only if it is empty, or its last byte is seven-bit, or it has six bytes, or three with
      a printable one among them. */
  lemma FitsIff(s: string)
    ensures FitsBuffer(s) <==>
      || s == "" || s[|s| - 1] as int < 128 || |s| >= 6
      || (|s| >= 3 && exists i :: 0 <= i < |s| && IsPrintable(s[i]))
  {
    hide Escape, EscapeByte, FitsBuffer;
    LastDecides(s);
    if s != "" {
      var n := |s| - 1;
      EscapeBound(s[..n]);
      EscapeLength(s[..n]);
      assert forall i :: 0 <= i < n ==> s[..n][i] == s[i];
    }
  }

  /** Only the last byte can overrun the buffer. */
  lemma LastDecides(s: string)
    ensures FitsBuffer(s) <==> s == "" || |Escape(s[..|s| - 1])| + Written(s[|s| - 1]) <= 5 * |s| + 1
  {
    hide Escape, EscapeByte;
    forall i | 0 <= i < |s| - 1
      ensures |Escape(s[..i])| + Written(s[i]) <= 5 * |s| + 1
    {
      EscapeBound(s[..i]);
    }
  }

  /** Codes take four bytes, printable bytes one. */
  lemma {:induction false} EscapeLength(s: string)
    ensures if exists i :: 0 <= i < |s| && IsPrintable(s[i]) then |Escape(s)| <= 4 * |s| - 3 else |Escape(s)| == 4 * |s|
  {
    if s != "" {
      EscapeLength(s[1..]);
      EscapeBound(s[1..]);
      assert forall i :: 1 <= i < |s| ==> s[i] == s[1..][i - 1];
    }
  }

  /** Printable text is left as it is. */
  lemma {:induction false} EscapePrintable(s: string)
    requires AllPrintable(s)
    ensures Escape(s) == s
  {
    if s != "" {
      EscapePrintable(s[1..]);
    }
  }

  lemma EscapeIdempotent(s: string)
    ensures Escape(Escape(s)) == Escape(s)
  {
    EscapePrintable(Escape(s));
  }

  // ---------- what the escaped text tells

  predicate IsHex(c: char) {
    '0' <= c <= '9' || 'a' <= c <= 'f'
  }

  function HexValue(c: char): (n: nat)
    requires IsHex(c)
    ensures n < 16
  {
    if c <= '9' then c as int - '0' as int else c as int - 'a' as int + 10
  }

  /** The bytes of a C string that are written as a code which tells them. */
  predicate HasCode(c: char) {
    0 < c as int < 128 && !IsPrintable(c)
  }

  function CodeAt(s: string): char
    requires |s| >= 4 && IsHex(s[2]) && IsHex(s[3])
  {
    (16 * HexValue(s[2]) + HexValue(s[3])) as char
  }

  /** A backslash, an x and two digits that spell such a byte. */
  predicate StartsCode(s: string) {
    |s| >= 4 && s[0] == '\\' && s[1] == 'x' && IsHex(s[2]) && IsHex(s[3]) && HasCode(CodeAt(s))
  }

  /** Replaces every code by its byte. */
  function Unescape(s: string): string {
    if s == "" then ""
    else if StartsCode(s) then [CodeAt(s)] + Unescape(s[4..])
    else [s[0]] + Unescape(s[1..])
  }

  /** Somewhere the text itself looks like a code. */
  predicate HasLookAlike(s: string) {
    s != "" && (StartsCode(s) || HasLookAlike(s[1..]))
  }

  lemma HexDigits(n: nat, c: char)
    requires n < 16
    ensures IsHex(HEX[n]) && HexValue(HEX[n]) == n
    ensures IsHex(c) ==> HEX[HexValue(c)] == c
  {
  }

  lemma CodeOfByte(c: char, rest: string)
    requires HasCode(c)
    ensures var s := EscapeByte(c) + rest;
      StartsCode(s) && CodeAt(s) == c && s[4..] == rest
  {
    HexDigits(c as int / 16, ' ');
    HexDigits(c as int % 16, ' ');
  }

  lemma ByteOfCode(s: string)
    requires StartsCode(s)
    ensures EscapeByte(CodeAt(s)) == s[..4]
  {
    HexDigits(0, s[2]);
    HexDigits(0, s[3]);
    var high, low := HexValue(s[2]), HexValue(s[3]);
    hide HexValue;
    assert (16 * high + low) / 16 == high && (16 * high + low) % 16 == low;
    assert EscapeByte(CodeAt(s)) == ['\\', 'x', HEX[high], HEX[low]];
    assert s[..4] == [s[0], s[1], s[2], s[3]];
  }

  /** Escaping restores whatever printable text was unescaped. */
  lemma {:induction false} EscapeUnescaped(s: string)
    requires AllPrintable(s)
    ensures Escape(Unescape(s)) == s && (NUL !in Unescape(s)) && IsAscii(Unescape(s))
  {
    if s != "" {
      var n := if StartsCode(s) then 4 else 1;
      EscapeUnescaped(s[n..]);
      assert s == s[..n] + s[n..];
      if StartsCode(s) {
        ByteOfCode(s);
      }
      assert Unescape(s)[1..] == Unescape(s[n..]);
    }
  }

  lemma EscapedHead(s: string)
    ensures s == "" ==> Escape(s) == ""
    ensures s != "" && IsPrintable(s[0]) ==> Escape(s) == [s[0]] + Escape(s[1..])
    ensures s != "" && !IsPrintable(s[0]) ==> Escape(s) != "" && Escape(s)[0] == '\\'
  {
  }

  /** A code at the start of the escaped text was at the start of the text, or its first byte is written as a code. */
  lemma LooksAlike(s: string)
    requires s != "" && IsPrintable(s[0])
    ensures StartsCode(Escape(s)) <==> StartsCode(s)
    ensures StartsCode(s) ==> Escape(s) == s[..4] + Escape(s[4..])
  {
    hide Escape, HasCode;
    var e, u := Escape(s), s[1..];
    EscapedHead(s);
    EscapedHead(u);
    if u != "" && IsPrintable(u[0]) {
      var v := u[1..];
      EscapedHead(v);
      if v != "" && IsPrintable(v[0]) {
        var w := v[1..];
        EscapedHead(w);
        assert e == [s[0], u[0], v[0]] + Escape(w);
        if w != "" && IsPrintable(w[0]) {
          SameCode(s, e, [s[0], u[0], v[0], w[0]]);
          assert s[4..] == w[1..] && e == s[..4] + Escape(w[1..]);
        }
      }
    }
  }

  lemma SameCode(s: string, t: string, u: string)
    requires |u| == 4 && u <= s && u <= t
    ensures StartsCode(s) <==> StartsCode(t)
    ensures s[..4] == u
  {
    assert forall i :: 0 <= i < 4 ==> s[i] == u[i] == t[i];
  }

  lemma {:induction false} UnescapeLength(s: string)
    requires NUL !in s && IsAscii(s)
    ensures if HasLookAlike(s) then |Unescape(Escape(s))| < |s| else Unescape(Escape(s)) == s
  {
    if s != "" {
      var c, rest := s[0], s[1..];
      assert c in s;
      hide Escape, Unescape, StartsCode, HasLookAlike;
      EscapeStarts(s);
      if !IsPrintable(c) {
        CodeOfByte(c, Escape(rest));
        UnescapeStarts(Escape(s));
        UnescapeLength(rest);
        assert !StartsCode(s) by {
          CodeStarts(s);
        }
        AlikeStarts(s);
      } else {
        LooksAlike(s);
        UnescapeStarts(Escape(s));
        AlikeStarts(s);
        CodeStarts(s);
        if StartsCode(s) {
          assert (s[..4] + Escape(s[4..]))[4..] == Escape(s[4..]);
          UnescapeLength(s[4..]);
        } else {
          assert ([c] + Escape(rest))[1..] == Escape(rest);
          UnescapeLength(rest);
        }
      }
    }
  }

  lemma EscapeStarts(s: string)
    requires s != ""
    ensures Escape(s) == EscapeByte(s[0]) + Escape(s[1..])
  {
  }

  lemma UnescapeStarts(s: string)
    requires s != ""
    ensures StartsCode(s) ==> |s| >= 4 && IsHex(s[2]) && IsHex(s[3]) && Unescape(s) == [CodeAt(s)] + Unescape(s[4..])
    ensures !StartsCode(s) ==> Unescape(s) == [s[0]] + Unescape(s[1..])
  {
  }

  lemma CodeStarts(s: string)
    ensures StartsCode(s) ==> |s| >= 4 && s[0] == '\\'
  {
  }

  lemma AlikeStarts(s: string)
    requires s != ""
    ensures HasLookAlike(s) <==> StartsCode(s) || HasLookAlike(s[1..])
  {
  }

  /** A C string is told by its escaped form if and only if it is seven-bit and has no look-alike of a code. */
  lemma UnescapeEscaped(s: string)
    requires NUL !in s
    ensures Unescape(Escape(s)) == s <==> IsAscii(s) && !HasLookAlike(s)
  {
    EscapeUnescaped(Escape(s));
    if IsAscii(s) {
      UnescapeLength(s);
    }
  }

  /** Hence no two such texts have the same escaped form. */
  lemma EscapeInjective(s: string, t: string)
    requires NUL !in s && NUL !in t && Escape(s) == Escape(t)
    requires IsAscii(s) && !HasLookAlike(s) && IsAscii(t) && !HasLookAlike(t)
    ensures s == t
  {
    UnescapeEscaped(s);
    UnescapeEscaped(t);
  }

  /** Every other text shares its escaped form with one of them. */
  lemma EscapeShared(s: string)
    requires NUL !in s && (!IsAscii(s) || HasLookAlike(s))
    ensures var t := Unescape(Escape(s));
      t != s && Escape(t) == Escape(s) && NUL !in t && IsAscii(t) && !HasLookAlike(t)
  {
    UnescapeEscaped(s);
    EscapeUnescaped(Escape(s));
    UnescapeEscaped(Unescape(Escape(s)));
  }
}
