/** When the server stays in the memory of a command. The payload's copy starts where the tokenizer's cursor
    landed, and the text that is escaped for the log ends at the first NUL. */
module Bounds {
  import opened Text
  import opened Tokenizer
  import opened Requests
  import opened Payloads

  // ---------- the payload's copy

  /** How many delimiters start what the trim leaves of the `j` payload bytes that came with the header. */
  function Lead(payload: string, j: nat): (k: nat)
    requires j <= |payload| + 2
    ensures k <= j
  {
    Skip(Strip((payload + CRLF)[..j]))
  }

  /** Those delimiters fit the unused memory, and they are not all that came. */
  predicate HasRoom(payload: string, j: nat, size: nat)
    requires j <= |payload| + 2
  {
    Lead(payload, j) <= size && (j == 0 || Lead(payload, j) < j)
  }

  lemma SkipAppend(a: string, b: string)
    ensures Skip(a + b) == if Skip(a) < |a| then Skip(a) else |a| + Skip(b)
  {
    var s, n, m, k := a + b, Skip(a + b), Skip(a), Skip(b);
    assert forall i :: 0 <= i < |a| ==> s[i] == a[i];
    assert forall i :: 0 <= i < |b| ==> s[|a| + i] == b[i];
    if m < |a| {
      assert !IsDelimiter(s[m]);
    } else {
      assert k < |b| ==> !IsDelimiter(s[|a| + k]);
      assert n >= |a| && n < |s| ==> !IsDelimiter(b[n - |a|]);
    }
  }

  /** Behind delimiters `gap` and a part `x`, trimmed to `z`. */
  lemma CursorOf(gap: string, x: string, z: string, junk: string)
    requires Skip(gap) == |gap| && (z == "" || Skip(z) == 0)
    ensures Skip(gap + x + z + junk) == |gap| + if Skip(x) < |x| || z != "" then Skip(x) else |x| + Skip(junk)
  {
    assert Skip(x) <= |x|;
    hide Skip;
    var rest := z + junk;
    SkipAppend(z, junk);
    assert z == "" ==> rest == junk;
    assert gap + x + z + junk == gap + (x + rest);
    SkipAppend(gap, x + rest);
    SkipAppend(x, rest);
  }

  /** The trimmed header rest: delimiters, what the trim leaves of the payload's bytes, and NULs. */
  lemma HeaderParts(end: string, part: string) returns (gap: string, z: string)
    requires IsEnd(end)
    ensures Trimmed(end + part) == gap + Strip(part) + z && |gap| <= |end| && Skip(gap) == |gap|
    ensures z == "" || Skip(z) == 0
    ensures if Strip(part) == "" then z != "" else gap == end && |z| == |part| - |Strip(part)|
  {
    var x := Strip(part);
    gap := end;
    if x == "" {
      gap := EmptyShape(end, part);
    } else {
      TrimmedParts(end + x, part[|x|..]);
      assert end + part == (end + x) + part[|x|..];
    }
    z := Zeros(|end| + |part| - |gap| - |x|);
    assert z != "" ==> !IsDelimiter(z[0]);
  }

  /** Of `j` bytes that start with fewer than `j` delimiters, the copy stays in the memory if and only if the
      delimiters fit what is unused; of delimiters alone, it depends on what the unused memory starts with. */
  lemma InsideIff(end: string, payload: string, j: nat, junk: string)
    requires IsEnd(end) && j <= |payload| + 2
    ensures IsInside(end, payload, j, junk) <==>
      if j == 0 || Lead(payload, j) < j then Lead(payload, j) <= |junk| else Skip(junk) + j <= |junk|
  {
    var part := (payload + CRLF)[..j];
    var x := Strip(part);
    assert Skip(x) <= |x| <= j && Skip(junk) <= |junk|;
    hide Skip, Strip, Trimmed, IsEnd;
    var gap, z := HeaderParts(end, part);
    CursorOf(gap, x, z, junk);
    assert |HeaderRest(end, payload + CRLF, j)| == |end| + j;
  }

  /** With `size` unused bytes the copy stays in the memory whatever they hold if and only if there is room. */
  lemma InsideIffRoom(end: string, payload: string, j: nat, size: nat)
    requires IsEnd(end) && j <= |payload| + 2 && size > 0
    ensures (forall junk: string :: |junk| == size ==> IsInside(end, payload, j, junk)) <==> HasRoom(payload, j, size)
  {
    hide IsInside, Lead, IsEnd;
    forall junk: string
      ensures IsInside(end, payload, j, junk) <==>
        if j == 0 || Lead(payload, j) < j then Lead(payload, j) <= |junk| else Skip(junk) + j <= |junk|
    {
      InsideIff(end, payload, j, junk);
    }
    var blanks := seq(size, _ => ' ');
    assert |blanks| == size && Skip(blanks) == size;
    assert IsInside(end, payload, j, blanks) ==> HasRoom(payload, j, size);
  }

  /** What is unused of the memory that holds `n` bytes. */
  function Unused(n: nat): (size: nat)
    ensures size > 0 && n + size == Allocated(n)
  {
    Allocated(n) - n
  }

  /** The copy of a payload behind a header of `header` bytes stays in the memory when the chunks have these
      sizes and the rest of the memory holds `junk`. */
  ghost predicate CopyStays(header: nat, end: string, payload: string, sizes: seq<nat>, junk: string) {
    IsChunking(sizes, header, header + (|payload| + 2)) && |junk| == Unused(Total(sizes))
    ==> IsInside(end, payload, Total(sizes) - header, junk)
  }

  /** Room for `j` bytes that came with a header of `header` bytes. */
  predicate HasRoomBehind(header: nat, payload: string, j: nat)
    requires j <= |payload| + 2
  {
    HasRoom(payload, j, Unused(header + j))
  }

  /** Behind any header, it does for every chunking and every content of unused memory if and only if there is
      room for every number of bytes that can come with the header. */
  lemma CopyStaysIffRoom(end: string, payload: string, header: nat)
    requires IsEnd(end) && header > 0
    ensures (forall sizes, junk :: CopyStays(header, end, payload, sizes, junk)) <==>
      forall j: nat :: j <= 9 && j <= |payload| + 2 ==> HasRoomBehind(header, payload, j)
  {
    hide IsInside, HasRoom, IsEnd, Unused, IsChunking, Total;
    var tail := |payload| + 2;
    if forall j: nat :: j <= 9 && j <= tail ==> HasRoomBehind(header, payload, j) {
      forall sizes: seq<nat>, junk
        ensures CopyStays(header, end, payload, sizes, junk)
      {
        if IsChunking(sizes, header, header + tail) && |junk| == Unused(Total(sizes)) {
          var j := SurplusOf(sizes, header, tail);
          assert HasRoomBehind(header, payload, j) && Total(sizes) - header == j;
          InsideIffRoom(end, payload, j, |junk|);
        }
      }
    } else {
      var j: nat :| j <= 9 && j <= tail && !HasRoomBehind(header, payload, j);
      InsideIffRoom(end, payload, j, Unused(header + j));
      var junk: string :| |junk| == Unused(header + j) && !IsInside(end, payload, j, junk);
      SurplusRange(header, tail, j);
      var sizes: seq<nat> :| IsChunking(sizes, header, header + tail) && Total(sizes) == header + j;
      assert !CopyStays(header, end, payload, sizes, junk);
    }
  }

  /** Of what is safe, nothing is skipped. */
  lemma SafeHasRoom(payload: string, j: nat, size: nat)
    requires IsSafe(payload) && j <= 9 && j <= |payload| + 2
    ensures HasRoom(payload, j, size)
  {
    var part := (payload + CRLF)[..j];
    var x := Strip(part);
    if x != "" {
      assert x[0] == part[0] == (payload + CRLF)[0];
      assert payload != "";
      assert !IsDelimiter(x[0]);
    }
  }

  // ---------- the escaped text

  lemma {:induction false} TrimmedNul(s: string)
    ensures NUL in Trimmed(s) <==> NUL in s || (s != "" && IsNewline(s[|s| - 1]))
  {
    if s != "" && !IsNewline(s[|s| - 1]) {
      assert Trimmed(s) == s;
    } else if s != "" {
      assert Trimmed(s)[|s| - 1] == NUL;
    }
  }

  /** With `size` unused bytes a NUL ends the command inside its memory, whatever they hold, if and only if no
      byte came behind the header, or the last that came is a newline, or one of them is a NUL. */
  lemma TextEndsIff(line: string, end: string, tail: string, j: nat, size: nat)
    requires NUL !in line && IsEnd(end) && j <= |tail|
    ensures (forall junk: string :: |junk| == size ==> NUL in line + HeaderRest(end, tail, j) + junk) <==>
      j == 0 || IsNewline(tail[j - 1]) || NUL in tail[..j]
  {
    var s := end + tail[..j];
    TrimmedNul(s);
    EndHasNoNul(end);
    assert s[|s| - 1] == if j == 0 then end[|end| - 1] else tail[j - 1];
    hide Trimmed, IsEnd, IsBlank;
    var rest := HeaderRest(end, tail, j);
    var junk := seq(size, _ => 'x');
    assert |junk| == size && NUL !in junk;
    assert NUL in line + rest + junk ==> NUL in rest;
    assert NUL in rest ==> forall any: string :: NUL in line + rest + any;
  }

  lemma EndHasNoNul(end: string)
    requires IsEnd(end)
    ensures NUL !in end && IsNewline(end[|end| - 1])
  {
    assert forall i :: 0 <= i < |end| - 1 ==> end[i] == end[..|end| - 1][i];
  }

  ghost predicate TextEnds(line: string, end: string, payload: string, sizes: seq<nat>, junk: string) {
    var header := |line + end|;
    IsChunking(sizes, header, header + (|payload| + 2)) && |junk| == Unused(Total(sizes))
    ==> NUL in line + HeaderRest(end, payload + CRLF, Total(sizes) - header) + junk
  }

  /** Among the payload's bytes that can come with the header, only newlines precede the first NUL. */
  predicate EndsEarly(payload: string) {
    forall i :: 0 <= i < |payload| && i < 9 ==> IsNewline(payload[i]) || NUL in payload[..i + 1]
  }

  /** Over every chunking and every content of unused memory the text ends inside if and only if the payload has
      an early end; a safe payload has none unless it is empty or starts with NUL. */
  lemma TextEndsIffEarly(line: string, end: string, payload: string)
    requires NUL !in line && IsEnd(end)
    ensures (forall sizes, junk :: TextEnds(line, end, payload, sizes, junk)) <==> EndsEarly(payload)
    ensures IsSafe(payload) ==> (EndsEarly(payload) <==> payload == "" || payload[0] == NUL)
  {
    if IsSafe(payload) {
      SafeEndsEarly(payload);
    }
    hide IsEnd, HeaderRest, Unused, IsChunking, Total, IsSafe;
    if EndsEarly(payload) {
      forall sizes: seq<nat>, junk
        ensures TextEnds(line, end, payload, sizes, junk)
      {
        EarlyEnds(line, end, payload, sizes, junk);
      }
    } else {
      var i :| 0 <= i < |payload| && i < 9 && !IsNewline(payload[i]) && NUL !in payload[..i + 1];
      NotEnded(line, end, payload, i);
    }
  }

  lemma SafeEndsEarly(payload: string)
    requires IsSafe(payload)
    ensures EndsEarly(payload) <==> payload == "" || payload[0] == NUL
  {
    if payload != "" {
      assert payload[..1] == [payload[0]];
      if payload[0] == NUL {
        forall i | 0 <= i < |payload| && i < 9
          ensures IsNewline(payload[i]) || NUL in payload[..i + 1]
        {
          assert payload[..i + 1][0] == NUL;
        }
      }
    }
  }

  lemma EarlyEnds(line: string, end: string, payload: string, sizes: seq<nat>, junk: string)
    requires NUL !in line && IsEnd(end) && EndsEarly(payload)
    ensures TextEnds(line, end, payload, sizes, junk)
  {
    hide IsEnd, HeaderRest, Unused, IsChunking, Total;
    var header, tail := |line + end|, payload + CRLF;
    if IsChunking(sizes, header, header + |tail|) && |junk| == Unused(Total(sizes)) {
      var j := SurplusOf(sizes, header, |tail|);
      if j > 0 {
        LastByte(payload, j);
      }
      TextEndsIff(line, end, tail, j, |junk|);
    }
  }

  lemma LastByte(payload: string, j: nat)
    requires 0 < j <= |payload| + 2 && (j <= |payload| ==> IsNewline(payload[j - 1]) || NUL in payload[..j])
    ensures IsNewline((payload + CRLF)[j - 1]) || NUL in (payload + CRLF)[..j]
  {
    if j <= |payload| {
      assert (payload + CRLF)[..j] == payload[..j];
    }
  }

  lemma NotEnded(line: string, end: string, payload: string, i: nat)
    requires NUL !in line && IsEnd(end) && i < |payload| && i < 9
    requires !IsNewline(payload[i]) && NUL !in payload[..i + 1]
    ensures exists sizes, junk :: !TextEnds(line, end, payload, sizes, junk)
  {
    var header, tail, j := |line + end|, payload + CRLF, i + 1;
    assert tail[..j] == payload[..j];
    TextEndsIff(line, end, tail, j, Unused(header + j));
    hide IsNewline, HeaderRest, IsEnd, Unused, IsChunking, Total;
    var junk: string :| |junk| == Unused(header + j) && NUL !in line + HeaderRest(end, tail, j) + junk;
    SurplusRange(header, |tail|, j);
    var sizes: seq<nat> :| IsChunking(sizes, header, header + |tail|) && Total(sizes) == header + j;
    assert !TextEnds(line, end, payload, sizes, junk);
  }
}
