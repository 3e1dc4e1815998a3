/** Bytes and C strings. A `char` stands for one byte of the C program; nothing below depends on an
    upper bound for it, so a statement that names no range of bytes covers all of them. */
module Text {

  const NUL := '\0'
  const CRLF := "\r\n"

  datatype Option<+T> = None | Some(value: T)

  predicate IsNewline(c: char) {
    c == '\r' || c == '\n'
  }

  predicate IsDelimiter(c: char) {
    c == ' ' || IsNewline(c)
  }

  /** A byte that ends a token: a delimiter or the C string's end. */
  predicate IsStop(c: char) {
    c == NUL || IsDelimiter(c)
  }

  function Zeros(n: nat): (z: string)
    ensures |z| == n && forall i :: 0 <= i < n ==> z[i] == NUL
  {
    seq(n, _ => NUL)
  }

  /** The C string that starts a memory area: the bytes before its first NUL. */
  function CString(s: string): (r: string)
    ensures r <= s
    ensures NUL !in r
    ensures |r| < |s| ==> s[|r|] == NUL
  {
    if s == [] || s[0] == NUL then []
    else [s[0]] + CString(s[1..])
  }

  lemma {:induction false} CStringOf(text: string, rest: string)
    requires NUL !in text
    requires rest == [] || rest[0] == NUL
    ensures CString(text + rest) == text
  {
    if text == [] {
      assert text + rest == rest;
    } else {
      assert (text + rest)[1..] == text[1..] + rest;
      CStringOf(text[1..], rest);
    }
  }

  lemma {:induction false} CStringToNul(s: string, end: string)
    requires end != "" && end[0] == NUL
    ensures CString(s + end) == CString(s)
  {
    if s == "" {
      assert s + end == end;
    } else {
      assert (s + end)[1..] == s[1..] + end;
      CStringToNul(s[1..], end);
    }
  }

  /** The position of the first `c`, or the length when there is none. */
  function IndexOf(s: string, c: char): (i: nat)
    ensures i <= |s|
    ensures c !in s[..i]
    ensures i < |s| ==> s[i] == c
  {
    if s == [] || s[0] == c then 0
    else
      var i := 1 + IndexOf(s[1..], c);
      assert s[..i] == [s[0]] + s[1..][..i - 1];
      i
  }

  lemma IndexOfUnique(s: string, c: char, i: nat)
    requires i < |s| && s[i] == c && c !in s[..i]
    ensures IndexOf(s, c) == i
  {
    var k := IndexOf(s, c);
    assert forall j :: 0 <= j < i ==> s[..i][j] == s[j];
    assert forall j :: 0 <= j < k ==> s[..k][j] == s[j];
  }

  ghost function Total(s: seq<int>): (n: int)
    ensures (forall i :: 0 <= i < |s| ==> s[i] >= 0) ==> n >= 0
  {
    if s == [] then 0 else s[0] + Total(s[1..])
  }

  lemma {:induction false} TotalAppend(a: seq<int>, b: seq<int>)
    ensures Total(a + b) == Total(a) + Total(b)
  {
    if a == [] {
      assert a + b == b;
    } else {
      assert (a + b)[1..] == a[1..] + b;
      TotalAppend(a[1..], b);
    }
  }

  /** `size` was reached from `start` by doublings alone. */
  predicate IsDoubling(start: nat, size: nat)
    decreases size
  {
    size == start || (size > start && size % 2 == 0 && IsDoubling(start, size / 2))
  }

  lemma {:induction false} DoubledFurther(start: nat, middle: nat, size: nat)
    requires IsDoubling(start, middle) && IsDoubling(middle, size)
    ensures IsDoubling(start, size)
    decreases size
  {
    if size != middle {
      DoubledFurther(start, middle, size / 2);
    }
  }

  lemma DoubledAgain(start: nat, size: nat)
    requires 0 < size && IsDoubling(start, size)
    ensures IsDoubling(start, 2 * size)
  {
    assert 2 * size / 2 == size;
  }
}
