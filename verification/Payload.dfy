/** Which payloads reach the table unchanged. Part of a payload may share the header's last chunk; there
    the trim and the tokenizer's skipping of delimiters touch it too. */
module Payloads {
  import opened Text
  import opened Tokenizer
  import opened Requests

  /** The payload that is stored when `j` of its bytes came with the header and `junk` is the unused
      memory behind them. The cursor skips delimiters, so it may have left the payload's first byte. */
  function Recovered(end: string, payload: string, j: nat, junk: string): string
    requires j <= |payload| + 2
  {
    var tail := payload + CRLF;
    var memory := HeaderRest(end, tail, j) + junk;
    var chunk := memory[Skip(memory)..];
    var all := (if j <= |chunk| then chunk[..j] else chunk) + tail[j..];
    if |payload| <= |all| then all[..|payload|] else all
  }

  /** The cursor and the copy of `j` bytes stay in the command's memory. */
  predicate IsInside(end: string, payload: string, j: nat, junk: string)
    requires j <= |payload| + 2
  {
    var memory := HeaderRest(end, payload + CRLF, j) + junk;
    Skip(memory) < |memory| && Skip(memory) + j <= |memory|
  }

  /** How many of `j` bytes behind the header are the payload's own. */
  function Own(payload: string, j: nat): (m: nat)
    ensures m <= j && m <= |payload|
  {
    if j < |payload| then j else |payload|
  }

  /** The payload's part of the chunk does not start with a delimiter and does not end with CR or LF. */
  predicate IsIntact(payload: string, j: nat) {
    var m := Own(payload, j);
    m == 0 || (!IsDelimiter(payload[0]) && !IsNewline(payload[m - 1]))
  }

  /** No leading space, and no CR or LF among the nine bytes that can share the header's last chunk. */
  predicate IsSafe(payload: string) {
    && (payload == "" || payload[0] != ' ')
    && forall i :: 0 <= i < |payload| && i < 9 ==> !IsNewline(payload[i])
  }

  lemma SafeIffIntact(payload: string)
    ensures IsSafe(payload) <==> forall j: nat :: j <= 9 && j <= |payload| + 2 ==> IsIntact(payload, j)
  {
    if forall j: nat :: j <= 9 && j <= |payload| + 2 ==> IsIntact(payload, j) {
      forall i | 0 <= i < |payload| && i < 9
        ensures !IsNewline(payload[i])
      {
        assert IsIntact(payload, i + 1);
      }
      assert IsIntact(payload, 1);
    }
  }

  // ---------- the memory behind the header

  function Strip(s: string): (r: string)
    ensures r <= s
    ensures r != "" ==> !IsNewline(r[|r| - 1])
    ensures forall i :: |r| <= i < |s| ==> IsNewline(s[i])
  {
    if s == "" || !IsNewline(s[|s| - 1]) then s else Strip(s[..|s| - 1])
  }

  lemma SkipGap(gap: string, rest: string)
    requires IsGap(gap) && (rest == "" || !IsDelimiter(rest[0]))
    ensures Skip(gap + rest) == |gap|
  {
    var n, s := Skip(gap + rest), gap + rest;
    assert forall i :: 0 <= i < |gap| ==> s[i] == gap[i];
    assert rest != "" ==> s[|gap|] == rest[0];
  }

  /** When the chunk's part of the payload, without its trailing newlines, is `x`. */
  lemma HeaderShape(end: string, payload: string, x: string, j: nat)
    requires j <= |payload| + 2 && x <= payload && 0 < |x| <= j && !IsNewline(x[|x| - 1])
    requires forall i :: |x| <= i < j ==> IsNewline((payload + CRLF)[i])
    ensures HeaderRest(end, payload + CRLF, j) == end + x + Zeros(j - |x|)
  {
    var tail := payload + CRLF;
    var newlines := tail[|x|..j];
    assert tail[..j] == x + newlines;
    assert end + tail[..j] == (end + x) + newlines;
    TrimmedParts(end + x, newlines);
  }

  /** When nothing but newlines follows the line's end, the end itself is trimmed, to blanks. */
  lemma EmptyShape(end: string, newlines: string) returns (blanks: string)
    requires IsEnd(end) && forall i :: 0 <= i < |newlines| ==> IsNewline(newlines[i])
    ensures IsGap(blanks) && |blanks| < |end|
    ensures Trimmed(end + newlines) == blanks + Zeros(|end| + |newlines| - |blanks|)
  {
    blanks := Strip(end);
    assert IsNewline(end[|end| - 1]);
    assert |blanks| < |end| && forall i :: 0 <= i < |blanks| ==> blanks[i] == end[i];
    var trimmed := end[|blanks|..] + newlines;
    assert end + newlines == blanks + trimmed;
    TrimmedParts(blanks, trimmed);
  }

  /** An intact part starts where the cursor lands, inside the memory. */
  lemma IntactChunk(end: string, payload: string, j: nat, junk: string)
    requires IsEnd(end) && j <= |payload| + 2 && IsIntact(payload, j) && junk != ""
    ensures var tail := payload + CRLF;
      var memory := HeaderRest(end, tail, j) + junk;
      var at := Skip(memory);
      && at < |memory| && at + j <= |memory|
      && (memory[at..at + j] + tail[j..])[..|payload|] == payload
  {
    var tail, m := payload + CRLF, Own(payload, j);
    var gap, x := end, payload[..m];
    if m == 0 {
      assert tail[..j] == CRLF[..j];
      gap := EmptyShape(end, tail[..j]);
      assert gap + Zeros(|end| + j - |gap|) == gap + x + Zeros(|end| + j - |gap| - m);
    } else {
      HeaderShape(end, payload, x, j);
    }
    hide *;
    PartInMemory(HeaderRest(end, tail, j), gap, x, |end| + j - |gap| - m, junk, j);
    PartAndRest(payload, m, j);
  }

  lemma PartInMemory(header: string, gap: string, x: string, zeros: nat, junk: string, j: nat)
    requires header == gap + x + Zeros(zeros) && IsGap(gap) && junk != "" && |x| <= j <= |x| + zeros
    requires if x == "" then zeros > 0 else !IsDelimiter(x[0])
    ensures var memory := header + junk;
      Skip(memory) == |gap| && |gap| + j < |memory| && memory[|gap|..|gap| + j] == x + Zeros(j - |x|)
  {
    var rest := x + Zeros(zeros) + junk;
    assert header + junk == gap + rest;
    SkipGap(gap, rest);
    assert Zeros(zeros)[..j - |x|] == Zeros(j - |x|);
  }

  lemma PartAndRest(payload: string, m: nat, j: nat)
    requires m == Own(payload, j) && j <= |payload| + 2
    ensures (payload[..m] + Zeros(j - m) + (payload + CRLF)[j..])[..|payload|] == payload
  {
  }

  lemma RecoveredIntact(end: string, payload: string, j: nat, junk: string)
    requires IsEnd(end) && j <= |payload| + 2 && IsIntact(payload, j) && junk != ""
    ensures IsInside(end, payload, j, junk) && Recovered(end, payload, j, junk) == payload
  {
    IntactChunk(end, payload, j, junk);
    hide Trimmed, Skip, HeaderRest, IsIntact, IsEnd;
    var memory := HeaderRest(end, payload + CRLF, j) + junk;
    TakeFrom(memory, Skip(memory), j);
  }

  lemma TakeFrom(s: string, at: nat, j: nat)
    requires at + j <= |s|
    ensures j <= |s[at..]| && s[at..][..j] == s[at..at + j]
  {
  }

  /** A part that starts with a delimiter is stored without it, one that ends with CR or LF with a NUL there. */
  lemma RecoveredDamaged(end: string, payload: string, j: nat, junk: string)
    requires IsEnd(end) && j <= |payload| + 2 && !IsIntact(payload, j)
    requires junk != "" && !IsDelimiter(junk[0])
    ensures Recovered(end, payload, j, junk) != payload
  {
    var tail, m := payload + CRLF, Own(payload, j);
    var memory := HeaderRest(end, tail, j) + junk;
    if IsDelimiter(payload[0]) {
      hide Trimmed, Skip, HeaderRest;
      assert memory[|HeaderRest(end, tail, j)|] == junk[0];
      assert !IsDelimiter(memory[Skip(memory)]);
      assert Recovered(end, payload, j, junk)[0] == memory[Skip(memory)];
    } else {
      var x := Strip(payload[..m]);
      LastOfPart(payload, x, m, j);
      HeaderShape(end, payload, x, j);
      hide Trimmed, Skip, HeaderRest, Strip;
      var rest := x + Zeros(j - |x|) + junk;
      assert memory == end + rest;
      SkipGap(end, rest);
      assert memory[|end|..] == rest && rest[..j][m - 1] == NUL;
      assert Recovered(end, payload, j, junk)[m - 1] == NUL;
    }
  }

  lemma LastOfPart(payload: string, x: string, m: nat, j: nat)
    requires m == Own(payload, j) && m > 0 && j <= |payload| + 2 && x == Strip(payload[..m])
    requires IsNewline(payload[m - 1]) && !IsNewline(payload[0])
    ensures 0 < |x| < m && x <= payload
    ensures forall i :: |x| <= i < j ==> IsNewline((payload + CRLF)[i])
  {
    var part := payload[..m];
    assert part[0] == payload[0] && part[m - 1] == payload[m - 1];
    assert forall i :: 0 <= i < m ==> part[i] == payload[i] == (payload + CRLF)[i];
    assert x == part[..|x|] == payload[..|x|];
  }

  /** With `j` payload bytes in the header's last chunk, the payload arrives unchanged whatever unused
      memory holds if and only if its part of that chunk is intact. */
  lemma ArrivesIffIntact(end: string, payload: string, j: nat, size: nat)
    requires IsEnd(end) && j <= |payload| + 2 && size > 0
    ensures (forall junk: string :: |junk| == size ==> Recovered(end, payload, j, junk) == payload) <==>
      IsIntact(payload, j)
  {
    hide Recovered, IsIntact, IsEnd;
    if IsIntact(payload, j) {
      forall junk: string | |junk| == size
        ensures Recovered(end, payload, j, junk) == payload
      {
        RecoveredIntact(end, payload, j, junk);
      }
    } else {
      var junk := seq(size, _ => 'x');
      RecoveredDamaged(end, payload, j, junk);
    }
  }

  // ---------- every chunking

  /** The payload behind a header of `header` bytes arrives unchanged when the chunks have these sizes and
      the rest of the command's memory holds `junk`. */
  ghost predicate Arrives(header: nat, end: string, payload: string, sizes: seq<nat>, junk: string) {
    IsChunking(sizes, header, header + (|payload| + 2)) && Total(sizes) + |junk| == Allocated(Total(sizes))
    ==> Recovered(end, payload, Total(sizes) - header, junk) == payload
  }

  /** Behind any header, a payload arrives unchanged for every chunking and every content of unused memory
      if and only if it is safe. */
  lemma ArrivesIffSafe(end: string, payload: string, header: nat)
    requires IsEnd(end) && header > 0
    ensures (forall sizes, junk :: Arrives(header, end, payload, sizes, junk)) <==> IsSafe(payload)
  {
    SafeIffIntact(payload);
    hide Recovered, IsInside, IsSafe, IsIntact, IsChunking, Total, Block, IsEnd;
    var tail := |payload| + 2;
    if IsSafe(payload) {
      forall sizes: seq<nat>, junk
        ensures Arrives(header, end, payload, sizes, junk)
      {
        SafeArrives(header, end, payload, sizes, junk);
      }
    } else {
      var j: nat :| j <= 9 && j <= tail && !IsIntact(payload, j);
      SurplusRange(header, tail, j);
      var sizes: seq<nat> :| IsChunking(sizes, header, header + tail) && Total(sizes) == header + j;
      var junk := seq(Allocated(Total(sizes)) - Total(sizes), _ => 'x');
      RecoveredDamaged(end, payload, j, junk);
      assert !Arrives(header, end, payload, sizes, junk);
    }
  }

  lemma SafeArrives(header: nat, end: string, payload: string, sizes: seq<nat>, junk: string)
    requires IsEnd(end) && IsSafe(payload)
    ensures Arrives(header, end, payload, sizes, junk)
  {
    SafeIffIntact(payload);
    hide Recovered, IsInside, IsSafe, IsIntact, IsChunking, Total, Block, IsEnd;
    var tail := |payload| + 2;
    if IsChunking(sizes, header, header + tail) && Total(sizes) + |junk| == Allocated(Total(sizes)) {
      var j := SurplusOf(sizes, header, tail);
      RecoveredIntact(end, payload, j, junk);
    }
  }

  lemma SurplusOf(sizes: seq<nat>, header: nat, tail: nat) returns (j: nat)
    requires IsChunking(sizes, header, header + tail)
    ensures header > 0 && Total(sizes) == header + j && j <= 9 && j <= tail
  {
    j := Total(sizes) - header;
    SurplusRange(header, tail, j);
  }
}
