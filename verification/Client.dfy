/** The client's response reader: `memuncached_recv`. Pointers into the buffer are offsets. */
module Clients {
  import opened Text
  import opened Decimal
  import opened Responses
  import opened Pipes

  const INITIAL_BUFFER_SIZE := 10

  /** A field of `s`, in memory that starts like `s`: the text, a NUL, and whatever follows. */
  lemma FieldInMemory(memory: string, s: string, total: nat, at: nat, text: string)
    requires total <= |memory| && total <= |s| && forall k :: 0 <= k < total ==> memory[k] == s[k]
    requires HasField(s, at, text) && at + |text| < total
    ensures var end := memory[at + |text|..];
      end[0] == NUL && memory[at..at + |text|] == text && memory[at..] == text + end
  {
    var field := text + [NUL];
    assert field[|text|] == NUL;
    assert forall k :: 0 <= k < |text| ==> field[k] == text[k];
    assert memory[at..at + |text|] == text;
  }

  /** `atoi` at a printed number that a NUL ends reads that number, whatever memory follows. */
  lemma AtoiOfField(memory: string, s: string, total: nat, at: nat, v: nat)
    requires total <= |memory| && total <= |s| && forall k :: 0 <= k < total ==> memory[k] == s[k]
    requires HasField(s, at, PrintNat(v)) && at + |PrintNat(v)| < total && v <= INT32_MAX
    ensures Atoi(memory[at..]) == v
  {
    FieldInMemory(memory, s, total, at, PrintNat(v));
    AtoiPrinted(v, memory[at + |PrintNat(v)|..]);
  }

  /** The length line's two edits, on memory that starts like the response. */
  lemma LengthEdits(v: Layout, total: nat, before: string, after: string)
    requires v.Valid() && v.n <= total <= |before| && |after| == |before| && total <= v.Length()
    requires forall k :: 0 <= k < total ==> before[k] == v.marked[1][k]
    requires forall k :: 0 <= k < total ==> after[k] == if v.space == Some(k) || k == v.n - 2 then NUL else before[k]
    ensures forall k :: 0 <= k < total ==> after[k] == v.marked[2][k]
  {
    forall k: nat | k < total
      ensures after[k] == v.marked[2][k]
    {
      MarkedBytes(v, k);
    }
  }

  /** `atoi` on the ended fields of the length line. */
  lemma LengthFields(v: Layout, total: nat, memory: string)
    requires v.Valid() && v.n <= total <= |memory| && total <= v.Length()
    requires forall k :: 0 <= k < total ==> memory[k] == v.marked[2][k]
    ensures Atoi(memory[v.m..]) == v.size
    ensures v.space.Some? ==> Atoi(memory[v.space.value + 1..]) == v.bodyType
  {
    AtoiOfField(memory, v.marked[2], total, v.m, v.size);
    if v.space.Some? {
      AtoiOfField(memory, v.marked[2], total, v.space.value + 1, v.bodyType);
    }
  }

  class Client {
    var buffer: array<char>
    var bufferSize: nat
    var code: int
    var description: nat
    var bodySize: int
    var body: nat
    var bodyType: int

    ghost predicate Valid()
      reads this
    {
      0 < bufferSize == buffer.Length
    }

    constructor ()
      ensures Valid() && fresh(buffer) && bufferSize == INITIAL_BUFFER_SIZE
    {
      bufferSize := INITIAL_BUFFER_SIZE;
      buffer := new char[INITIAL_BUFFER_SIZE](_ => NUL);
      code, description, bodySize, body, bodyType := 0, 0, 0, 0, 0;
    }

    ghost predicate HasStatus(v: Layout)
      reads this
    {
      code == v.code && description == 4
    }

    ghost predicate HasLength(v: Layout)
      reads this
    {
      bodySize == v.size && bodyType == v.bodyType && body == v.n
    }

    /** The reader's fields and buffer hold exactly the response `r`. */
    ghost predicate Holds(r: Response)
      reads this, buffer
    {
      && code == r.code
      && bodySize == |r.body|
      && bodyType == (if r.bodyType.Some? then r.bodyType.value else 0)
      && |r.Encode()| <= buffer.Length
      && description <= buffer.Length && CString(buffer[description..]) == r.description
      && body + bodySize < buffer.Length && buffer[body..body + bodySize] == r.body && buffer[body + bodySize] == NUL
      && buffer[..|r.Encode()|] == r.Marked(2)
    }

    /** The buffer's first `total` bytes are those of `s`. */
    ghost predicate Starts(s: string, total: nat)
      reads this, buffer
    {
      total <= buffer.Length && total <= |s| && forall i :: 0 <= i < total ==> buffer[i] == s[i]
    }

    /** Phase 0: looks for the end of the status line and ends its two fields in place. */
    method ScanStatusLine(total: nat, start: nat, ghost v: Layout) returns (found: bool, next: nat)
      requires Valid() && v.Valid()
      requires total <= v.Length() && total <= bufferSize
      requires start == v.LineStart(0)
      requires Starts(v.marked[0], total)
      modifies buffer, `code, `description
      ensures found <==> v.m <= total
      ensures next == if found then v.m else start
      ensures found ==> HasStatus(v)
      ensures Starts(v.marked[if found then 1 else 0], total)
    {
      ghost var s := v.marked[0];
      var itr := start;
      while itr < total
        invariant 0 <= itr <= total && itr < v.m
        invariant Starts(s, total)
      {
        if buffer[itr] == '\n' {
          buffer[itr - 1] := NUL;
          buffer[start + 3] := NUL;
          AtoiOfField(buffer[..], v.marked[1], total, start, v.code);
          code := Atoi(buffer[start..]);
          description := start + 4;
          return true, itr + 1;
        }
        itr := itr + 1;
      }
      return false, start;
    }

    /** Ends the fields of the length line, whose newline is at `itr`, and reads them. */
    method ParseLengthLine(total: nat, start: nat, whitespace: Option<nat>, itr: nat, ghost v: Layout)
      requires Valid() && v.Valid()
      requires start == v.m && whitespace == v.space && (v.space.Some? ==> v.space.value < itr)
        && itr + 1 == v.n <= total <= v.Length() && total <= bufferSize
      requires Starts(v.marked[1], total)
      requires bodyType == 0
      modifies buffer, `bodySize, `bodyType, `body
      ensures HasLength(v)
      ensures Starts(v.marked[2], total)
    {
      hide Layout.Valid, Atoi;
      LayoutSizes(v);
      ghost var before := buffer[..];
      EndFields(itr - 1, whitespace);
      ghost var memory := buffer[..];
      LengthEdits(v, total, before, memory);
      LengthFields(v, total, memory);
      ReadFields(start, whitespace, memory);
      body := itr + 1;
    }

    method ReadFields(start: nat, whitespace: Option<nat>, ghost memory: string)
      requires memory == buffer[..] && start <= |memory| && (whitespace.Some? ==> whitespace.value < |memory|)
      modifies `bodySize, `bodyType
      ensures bodySize == Atoi(memory[start..])
      ensures bodyType == if whitespace.Some? then Atoi(memory[whitespace.value + 1..]) else old(bodyType)
    {
      hide Atoi;
      if whitespace.Some? {
        assert buffer[whitespace.value + 1..] == memory[whitespace.value + 1..];
        bodyType := Atoi(buffer[whitespace.value + 1..]);
      }
      assert buffer[start..] == memory[start..];
      bodySize := Atoi(buffer[start..]);
    }

    method EndFields(cr: nat, whitespace: Option<nat>)
      requires cr < buffer.Length && (whitespace.Some? ==> whitespace.value < buffer.Length)
      modifies buffer
      ensures forall k :: 0 <= k < buffer.Length ==>
        buffer[k] == if whitespace == Some(k) || k == cr then NUL else old(buffer[k])
    {
      buffer[cr] := NUL;
      if whitespace.Some? {
        buffer[whitespace.value] := NUL;
      }
    }

    /** Phase 1: looks for the end of the length line, remembering the last space before it. */
    method ScanLengthLine(total: nat, start: nat, ghost v: Layout) returns (found: bool, next: nat)
      requires Valid() && v.Valid()
      requires start == v.m <= total <= v.Length() && total <= bufferSize
      requires Starts(v.marked[1], total)
      requires bodyType == 0
      modifies buffer, `bodySize, `bodyType, `body
      ensures found <==> v.n <= total
      ensures next == if found then v.n else start
      ensures if found then HasLength(v) else bodyType == 0
      ensures Starts(v.marked[if found then 2 else 1], total)
    {
      ghost var s := v.marked[1];
      var whitespace := None;
      var itr := start;
      while itr < total
        invariant start <= itr <= total && itr < v.n
        invariant whitespace == if v.space.Some? && v.space.value < itr then v.space else None
        invariant Starts(s, total)
      {
        if buffer[itr] == ' ' {
          whitespace := Some(itr);
        }
        if buffer[itr] == '\n' {
          ParseLengthLine(total, start, whitespace, itr, v);
          return true, itr + 1;
        }
        itr := itr + 1;
      }
      return false, start;
    }

    /** Reads at least one more byte behind the first `total`, unless the peer has closed. */
    method Fill(pipe: Pipe, total: nat, ghost s: string) returns (n: nat)
      requires Valid() && total < bufferSize && total <= |s|
      requires Starts(s, total) && Continues(s, total, pipe.bytes)
      modifies buffer, pipe
      ensures total + n <= bufferSize && total + n <= |s| && n <= |old(pipe.bytes)|
      ensures n == 0 <==> old(pipe.bytes) == ""
      ensures Starts(s, total + n) && Continues(s, total + n, pipe.bytes)
      ensures pipe.bytes == old(pipe.bytes)[n..]
    {
      n := pipe.Recv(buffer, total, bufferSize - total);
      assert forall i :: 0 <= i < total + n ==> buffer[i] == buffer[..][i];
    }

    /** The line machine after `total` bytes: the lines found so far are parsed and marked. */
    ghost predicate Reading(v: Layout, total: nat, lineNumber: nat, lineStart: nat)
      reads this, buffer
    {
      && Valid()
      && total <= bufferSize && total <= v.Length()
      && |v.marked| == 3 && |v.marked[0]| == |v.marked[1]| == |v.marked[2]| == v.Length()
      && lineNumber <= 2 && lineStart == v.LineStart(lineNumber) <= total
      && Starts(v.marked[lineNumber], total)
      && (lineNumber == 0 || HasStatus(v))
      && (if lineNumber == 2 then HasLength(v) else bodyType == 0)
    }

    /** Phases 0 and 1 on what is in the buffer. */
    method ScanLines(total: nat, lineNumber: nat, lineStart: nat, readSize: nat, ghost v: Layout)
      returns (lines: nat, start: nat, payload: nat)
      requires Reading(v, total, lineNumber, lineStart) && v.Valid()
      modifies buffer, `code, `description, `bodySize, `bodyType, `body
      ensures Reading(v, total, lines, start)
      ensures lines < 2 ==> total < v.LineStart(lines + 1)
      ensures lineNumber <= lines
      ensures payload == if lineNumber < 2 && lines == 2 then total - start else readSize
    {
      lines, start, payload := lineNumber, lineStart, readSize;
      if lines == 0 {
        var found;
        found, start := ScanStatusLine(total, start, v);
        if found {
          lines := 1;
        }
      }
      if lines == 1 {
        var found;
        found, start := ScanLengthLine(total, start, v);
        if found {
          lines := 2;
          payload := total - start;
        }
      }
    }

    /** Between two turns of the loop: part of the response is still to come as `rest`. */
    ghost predicate Waiting(v: Layout, total: nat, lineNumber: nat, lineStart: nat, payloadRead: nat, rest: string)
      reads this, buffer
    {
      && Reading(v, total, lineNumber, lineStart) && total < v.Length()
      && Continues(v.marked[0], total, rest)
      && (lineNumber < 2 ==> total < v.LineStart(lineNumber + 1) && payloadRead == 0)
      && (lineNumber == 2 ==> payloadRead == total - body < bodySize + 3)
    }

    /** Doubles the buffer with `realloc` once it is full, keeping what was read. */
    method GrowIfFull(total: nat, lineNumber: nat, lineStart: nat, payloadRead: nat, ghost v: Layout,
                      ghost rest: string)
      returns (grown: bool)
      requires Waiting(v, total, lineNumber, lineStart, payloadRead, rest)
      modifies this`buffer, this`bufferSize
      ensures Waiting(v, total, lineNumber, lineStart, payloadRead, rest) && total < bufferSize
      ensures grown <==> total == old(bufferSize)
      ensures bufferSize == if grown then 2 * old(bufferSize) else old(bufferSize)
      ensures if grown then fresh(buffer) else buffer == old(buffer)
    {
      grown := bufferSize < total + 1;
      if grown {
        bufferSize := bufferSize * 2;
        var larger := new char[bufferSize];
        forall i | 0 <= i < buffer.Length {
          larger[i] := buffer[i];
        }
        buffer := larger;
      }
    }

    /** What the line machine makes of `readSize` more bytes; phase 2 counts the payload. */
    method Interpret(total: nat, lineNumber: nat, lineStart: nat, payloadRead: nat, readSize: nat,
                     ghost v: Layout, ghost rest: string)
      returns (lines: nat, start: nat, payload: nat, complete: bool)
      requires Reading(v, total, lineNumber, lineStart) && v.Valid()
      requires Continues(v.marked[0], total, rest)
      requires if lineNumber < 2 then payloadRead == 0 else payloadRead + readSize == total - body
      modifies buffer, `code, `description, `bodySize, `bodyType, `body
      ensures complete ==> rest == "" && total == v.Length() && Reading(v, total, 2, v.n)
      ensures !complete ==> Waiting(v, total, lines, start, payload, rest)
    {
      LayoutSizes(v);
      hide Layout.Valid;
      var payloadNow: nat;
      payload, complete := payloadRead, false;
      lines, start, payloadNow := ScanLines(total, lineNumber, lineStart, readSize, v);
      if lines == 2 {
        payload := payloadRead + payloadNow;
        complete := payload >= bodySize + 3;
      }
    }

    /** One turn: a `recv` and what the line machine makes of it. */
    method Turn(pipe: Pipe, total: nat, lineNumber: nat, lineStart: nat, payloadRead: nat, ghost v: Layout)
      returns (n: nat, lines: nat, start: nat, payload: nat, complete: bool)
      requires v.Valid() && total < bufferSize
      requires Waiting(v, total, lineNumber, lineStart, payloadRead, pipe.bytes)
      modifies buffer, pipe, `code, `description, `bodySize, `bodyType, `body
      ensures n <= |old(pipe.bytes)| && |pipe.bytes| == |old(pipe.bytes)| - n
      ensures n == 0 <==> old(pipe.bytes) == ""
      ensures n == 0 ==> !complete
      ensures complete ==> pipe.bytes == "" && total + n == v.Length() && Reading(v, total + n, 2, v.n)
      ensures n > 0 && !complete ==> Waiting(v, total + n, lines, start, payload, pipe.bytes)
    {
      LayoutSizes(v);
      hide Layout.Valid;
      SuffixUnmarked(v, lineNumber, total, pipe.bytes);
      n := Fill(pipe, total, v.marked[lineNumber]);
      SuffixUnmarked(v, lineNumber, total + n, pipe.bytes);
      if n > 0 {
        lines, start, payload, complete := Interpret(total + n, lineNumber, lineStart, payloadRead, n, v, pipe.bytes);
      } else {
        lines, start, payload, complete := lineNumber, lineStart, payloadRead, false;
      }
    }

    /** The receive loop. `copied` counts the bytes that `realloc` had to carry over; `stale` tells
        whether some `realloc` happened while `line_start` was still needed. */
    method ReceiveLines(pipe: Pipe, ghost v: Layout) returns (ok: bool, ghost copied: nat, ghost stale: bool)
      requires Valid() && v.Valid()
      requires Continues(v.marked[0], 0, pipe.bytes)
      modifies this, buffer, pipe
      ensures Valid() && (buffer == old(buffer) || fresh(buffer))
      ensures ok <==> |old(pipe.bytes)| == v.Length()
      ensures pipe.bytes == ""
      ensures ok ==> Reading(v, v.Length(), 2, v.n)
      ensures bufferSize == old(bufferSize) || bufferSize < 2 * v.Length()
      ensures IsDoubling(old(bufferSize), bufferSize)
      ensures copied == bufferSize - old(bufferSize)
      ensures ok ==> (stale <==> old(bufferSize) < v.n)
    {
      LayoutSizes(v);
      hide Layout.Valid;
      body, bodySize, bodyType, code, description := 0, 0, 0, 0, 0;
      copied, stale := 0, false;
      var total: nat, payloadRead: nat, lineNumber: nat, lineStart: nat := 0, 0, 0, 0;
      ghost var sent := |pipe.bytes|;
      while true
        invariant buffer == old(buffer) || fresh(buffer)
        invariant Waiting(v, total, lineNumber, lineStart, payloadRead, pipe.bytes) && total < bufferSize
        invariant |pipe.bytes| == sent - total
        invariant bufferSize == old(bufferSize) || bufferSize < 2 * v.Length()
        invariant IsDoubling(old(bufferSize), bufferSize)
        invariant copied == bufferSize - old(bufferSize)
        invariant stale <==> old(bufferSize) < bufferSize && old(bufferSize) < v.n
        decreases |pipe.bytes|
      {
        var n, complete;
        n, lineNumber, lineStart, payloadRead, complete := Turn(pipe, total, lineNumber, lineStart, payloadRead, v);
        total := total + n;
        if n == 0 || complete {
          return complete, copied, stale;
        }
        ghost var size := bufferSize;
        var grown := GrowIfFull(total, lineNumber, lineStart, payloadRead, v, pipe.bytes);
        if grown {
          stale := stale || lineNumber < 2;
          copied := copied + size;
          DoubledAgain(old(bufferSize), size);
        }
      }
    }

    /** `memuncached_recv`: reads one response. The server sends all of `r`, or closes early and
        sends a prefix. What the client then holds is the same however the bytes arrive. */
    method Receive(pipe: Pipe, ghost r: Response) returns (ok: bool, ghost copied: nat, ghost stale: bool)
      requires Valid() && r.Valid()
      requires pipe.bytes <= r.Encode()
      modifies this, buffer, pipe
      ensures Valid() && (buffer == old(buffer) || fresh(buffer))
      ensures ok <==> old(pipe.bytes) == r.Encode()
      ensures pipe.bytes == ""
      ensures ok ==> Holds(r)
      ensures bufferSize == old(bufferSize) || bufferSize < 2 * |r.Encode()|
      ensures IsDoubling(old(bufferSize), bufferSize)
      ensures copied == bufferSize - old(bufferSize)
      ensures ok ==> (stale <==> old(bufferSize) < r.LineStart(2))
    {
      LayoutIsValid(r);
      LayoutFacts(r);
      hide Response.Valid, Response.Encode, Response.Marked, Response.LineStart, Layout.Valid, LayoutOf, IsDoubling,
        Holds, Reading;
      ok, copied, stale := ReceiveLines(pipe, LayoutOf(r));
      if ok {
        ReadingHolds(r);
      }
    }

    /** When all of a response was read, the reader holds it. */
    lemma ReadingHolds(r: Response)
      requires r.Valid() && Reading(LayoutOf(r), LayoutOf(r).Length(), 2, LayoutOf(r).n)
      ensures Holds(r)
    {
      LayoutFacts(r);
      hide Response.Valid, Response.Encode, Response.Marked, Response.LineStart, LayoutOf;
      assert buffer[..|r.Encode()|] == r.Marked(2);
      Completed(r, buffer[..]);
    }

    /** Any number of responses, one after another: the buffer ends as the initial one, or as a doubling of it
        below twice the longest of them, and all its growth together copied fewer bytes than that. */
    method ReceiveAll(pipe: Pipe, responses: seq<Response>) returns (ghost copied: nat)
      requires Valid() && pipe.bytes == ""
      requires forall i :: 0 <= i < |responses| ==> responses[i].Valid()
      modifies this, buffer, pipe
      ensures Valid() && (buffer == old(buffer) || fresh(buffer)) && pipe.bytes == ""
      ensures responses != [] ==> Holds(responses[|responses| - 1])
      ensures bufferSize == old(bufferSize) || bufferSize < 2 * Longest(responses)
      ensures IsDoubling(old(bufferSize), bufferSize)
      ensures copied == bufferSize - old(bufferSize)
    {
      assert IsDoubling(bufferSize, bufferSize);
      hide Response.Valid, Response.Encode, Response.LineStart, IsDoubling, Holds, Longest;
      copied := 0;
      for i := 0 to |responses|
        invariant Valid() && (buffer == old(buffer) || fresh(buffer)) && pipe.bytes == ""
        invariant i > 0 ==> Holds(responses[i - 1])
        invariant bufferSize == old(bufferSize) || bufferSize < 2 * Longest(responses)
        invariant IsDoubling(old(bufferSize), bufferSize)
        invariant copied == bufferSize - old(bufferSize)
      {
        ghost var size := bufferSize;
        LongestIsLongest(responses, i);
        pipe.Write(responses[i].Encode());
        var _, more, _ := Receive(pipe, responses[i]);
        copied := copied + more;
        DoubledFurther(old(bufferSize), size, bufferSize);
      }
    }
  }

  ghost function Longest(responses: seq<Response>): nat {
    if responses == [] then 0
    else
      var n, rest := |responses[0].Encode()|, Longest(responses[1..]);
      if n < rest then rest else n
  }

  lemma {:induction false} LongestIsLongest(responses: seq<Response>, i: nat)
    requires i < |responses|
    ensures |responses[i].Encode()| <= Longest(responses)
  {
    if i > 0 {
      LongestIsLongest(responses[1..], i - 1);
    }
  }

  /** Where a buffer that starts with the marked response keeps description and body. */
  lemma Completed(r: Response, memory: string)
    requires r.Valid() && |r.Encode()| <= |memory|
    requires memory[..|r.Encode()|] == r.Marked(2)
    ensures 4 <= |memory| && CString(memory[4..]) == r.description
    ensures var n := r.LineStart(2);
      n + |r.body| < |memory| && memory[n..n + |r.body|] == r.body && memory[n + |r.body|] == NUL
  {
    assert |TRAILER| == 3;
    hide *;
    MarkedFields(r);
    MarkedLengths(r);
    DescriptionInside(r);
    FieldOfBuffer(memory, r.Marked(2), 4, r.description);
    FieldOfBuffer(memory, r.Marked(2), r.LineStart(2), r.body);
  }

  lemma FieldOfBuffer(memory: string, s: string, at: nat, text: string)
    requires |s| <= |memory| && memory[..|s|] == s && HasField(s, at, text) && at + |text| < |s|
    ensures memory[at..at + |text|] == text && memory[at + |text|] == NUL
    ensures NUL !in text ==> CString(memory[at..]) == text
  {
    assert forall k :: 0 <= k < |s| ==> memory[k] == memory[..|s|][k] == s[k];
    FieldInMemory(memory, s, |s|, at, text);
    hide HasField;
    if NUL !in text {
      CStringOf(text, memory[at + |text|..]);
    }
  }

  lemma DescriptionInside(r: Response)
    requires r.Valid()
    ensures NUL !in r.description && 4 + |r.description| < |r.Marked(2)|
  {
  }
}
