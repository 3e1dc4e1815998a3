/** The request format, and how the server reads one request off a connection. */
module Requests {
  import opened Text
  import opened Decimal
  import opened Pipes
  import opened Tokenizer
  import opened CStrings

  const CONNECTION_RECV_LENGTH := 10

  // ---------- what a client sends

  predicate IsBlank(s: string) {
    forall i :: 0 <= i < |s| ==> s[i] == ' ' || s[i] == '\r'
  }

  /** What ends a line: its only LF, and spaces or CRs in front of it. */
  predicate IsEnd(end: string) {
    end != "" && end[|end| - 1] == '\n' && IsBlank(end[..|end| - 1])
  }

  /** How a line is laid out: what stands between its tokens, and what ends it. */
  datatype Spacing = Spacing(gaps: seq<string>, end: string) {

    predicate Fits(args: seq<string>) {
      && |args| == |gaps| + 1
      && (forall i :: 0 <= i < |gaps| ==> gaps[i] != "" && IsBlank(gaps[i]))
      && IsEnd(end)
    }
  }

  /** The client's own layout: single spaces and CR LF. */
  function SingleSpaces(n: nat): Spacing
    requires n > 0
  {
    Spacing(seq(n - 1, _ => " "), CRLF)
  }

  /** A line's tokens and the gaps between them. */
  function Line(args: seq<string>, gaps: seq<string>): string
    requires |args| == |gaps| + 1
  {
    if gaps == [] then args[0] else args[0] + gaps[0] + Line(args[1..], gaps[1..])
  }

  /** What follows the line: nothing, or a payload and its CR LF. */
  function Tail(payload: Option<string>): string {
    if payload.None? then "" else payload.value + CRLF
  }

  function Encode(args: seq<string>, sp: Spacing, payload: Option<string>): string
    requires sp.Fits(args)
  {
    Line(args, sp.gaps) + sp.end + Tail(payload)
  }

  lemma {:induction false} LineIsJoined(args: seq<string>, gaps: seq<string>, last: string)
    requires |args| == |gaps| + 1
    ensures Line(args, gaps) + last == Joined(args, gaps + [last])
    decreases |args|
  {
    if gaps == [] {
      assert args[1..] == [] && (gaps + [last])[1..] == [];
      assert Line(args, gaps) + last == args[0] + last + "";
    } else {
      LineIsJoined(args[1..], gaps[1..], last);
      assert (gaps + [last])[1..] == gaps[1..] + [last];
      assert Line(args, gaps) + last == args[0] + gaps[0] + (Line(args[1..], gaps[1..]) + last);
    }
  }

  lemma {:induction false} LineShape(args: seq<string>, gaps: seq<string>)
    requires |args| == |gaps| + 1 && AreTokens(args)
    requires forall i :: 0 <= i < |gaps| ==> IsBlank(gaps[i])
    ensures var line := Line(args, gaps);
      line != "" && !IsStop(line[0]) && !IsStop(line[|line| - 1]) && '\n' !in line
    decreases |args|
  {
    assert IsToken(args[0]);
    if gaps != [] {
      LineShape(args[1..], gaps[1..]);
    }
  }

  // ---------- the accumulation loop

  /** Replaces the CRs and LFs at the end by NULs. */
  function Trimmed(s: string): (r: string)
    ensures |r| == |s|
  {
    if s == "" || !IsNewline(s[|s| - 1]) then s else Trimmed(s[..|s| - 1]) + [NUL]
  }

  lemma {:induction false} TrimmedParts(text: string, newlines: string)
    requires text == "" || !IsNewline(text[|text| - 1])
    requires forall i :: 0 <= i < |newlines| ==> IsNewline(newlines[i])
    ensures Trimmed(text + newlines) == text + Zeros(|newlines|)
  {
    if newlines == "" {
      assert text + newlines == text && text + Zeros(0) == text;
    } else {
      var init := newlines[..|newlines| - 1];
      TrimmedParts(text, init);
      assert (text + newlines)[..|text + newlines| - 1] == text + init;
      assert Zeros(|newlines|) == Zeros(|init|) + [NUL];
    }
  }

  lemma {:induction false} TrimmedPrefix(prefix: string, s: string)
    requires prefix != "" && !IsNewline(prefix[|prefix| - 1])
    ensures Trimmed(prefix + s) == prefix + Trimmed(s)
  {
    if s == "" {
      assert prefix + s == prefix;
    } else if IsNewline(s[|s| - 1]) {
      TrimmedPrefix(prefix, s[..|s| - 1]);
      assert (prefix + s)[..|prefix + s| - 1] == prefix + s[..|s| - 1];
    }
  }

  /** The least doubling of `size` that is larger than `n`. */
  function Block(n: nat, size: nat): (b: nat)
    requires size > 0
    ensures b > n
    decreases if n < size then 0 else n - size + 1
  {
    if n < size then size else Block(n, 2 * size)
  }

  /** How much memory the command has once it holds `n` bytes. */
  function Allocated(n: nat): (b: nat)
    ensures b > n
  {
    Block(n, CONNECTION_RECV_LENGTH)
  }

  lemma {:induction false} BlockGrows(n: nat, more: nat, size: nat)
    requires more <= size && size > 0
    ensures Block(n + more, size) == if n + more >= Block(n, size) then 2 * Block(n, size) else Block(n, size)
    decreases if n < size then 0 else n - size + 1
  {
    if n >= size {
      BlockGrows(n, more, 2 * size);
    }
  }

  lemma {:induction false} BlockIsDoubling(n: nat, start: nat, size: nat)
    requires size > 0 && IsDoubling(start, size)
    ensures IsDoubling(start, Block(n, size))
    decreases if n < size then 0 else n - size + 1
  {
    if n >= size {
      DoubledAgain(start, size);
      BlockIsDoubling(n, start, 2 * size);
    }
  }

  lemma AllocatedIsDoubling(n: nat)
    ensures IsDoubling(CONNECTION_RECV_LENGTH, Allocated(n))
    ensures if n < CONNECTION_RECV_LENGTH then Allocated(n) == CONNECTION_RECV_LENGTH else n < Allocated(n) <= 2 * n
  {
    BlockIsDoubling(n, CONNECTION_RECV_LENGTH, CONNECTION_RECV_LENGTH);
    BlockBelow(n, CONNECTION_RECV_LENGTH);
  }

  lemma {:induction false} BlockBelow(n: nat, size: nat)
    requires size > 0
    ensures n >= size ==> Block(n, size) <= 2 * n
    decreases if n < size then 0 else n - size + 1
  {
    if n >= size {
      BlockBelow(n, 2 * size);
    }
  }

  /** Appends a chunk to the command, doubling its memory when the free length would reach zero, and
      clears the chunk's buffer. */
  method Append(command: array<char>, len: nat, free: nat, buffer: array<char>, n: nat)
    returns (command': array<char>, len': nat, free': nat)
    requires 0 < free <= len == command.Length && CONNECTION_RECV_LENGTH <= len
    requires n <= buffer.Length == CONNECTION_RECV_LENGTH && command != buffer
    modifies command, buffer
    ensures 0 < free' <= len' == command'.Length
    ensures command' == command || fresh(command')
    ensures len' == if free <= n then 2 * len else len
    ensures len' - free' == len - free + n
    ensures command'[..len' - free'] == old(command[..len - free]) + old(buffer[..n])
  {
    var freeLen: int := free - n;
    len', command' := len, command;
    if freeLen <= 0 {
      freeLen := freeLen + len;
      len' := len * 2;
      command' := new char[len'];
      forall i | 0 <= i < len {
        command'[i] := command[i];
      }
    }
    free' := freeLen;
    var at := len' - free' - n;
    forall i | 0 <= i < n {
      command'[at + i] := buffer[i];
    }
    assert command'[..at] == old(command[..len - free]);
    assert command'[at..at + n] == buffer[..n];
    ghost var appended := command'[..at + n];
    forall i | 0 <= i < buffer.Length {
      buffer[i] := NUL;
    }
    assert command'[..at + n] == appended;
  }

  /** Moving a chunk from what is to come to what was got. */
  lemma Glue(got: string, chunk: string, rest: string, coming: string)
    requires chunk + rest == coming
    ensures (got + chunk) + rest == got + coming
  {
    assert (got + chunk) + rest == got + (chunk + rest);
  }

  /** One chunk: at most ten bytes, and where the stream's first newline is if they hold it. */
  method NextChunk(pipe: Pipe, buffer: array<char>, ghost got: string) returns (n: nat, end: Option<nat>)
    requires buffer.Length == CONNECTION_RECV_LENGTH && '\n' !in got
    modifies pipe, buffer
    ensures n <= CONNECTION_RECV_LENGTH && buffer[..n] + pipe.bytes == old(pipe.bytes)
    ensures |pipe.bytes| == |old(pipe.bytes)| - n
    ensures n == 0 <==> old(pipe.bytes) == ""
    ensures end.None? ==> '\n' !in got + buffer[..n]
    ensures end.Some? ==>
      end.value < n && '\n' in old(pipe.bytes) && IndexOf(got + old(pipe.bytes), '\n') == |got| + end.value
  {
    n := pipe.Recv(buffer, 0, CONNECTION_RECV_LENGTH);
    assert buffer[..n] == old(pipe.bytes)[..n];
    end := Sstrstr(buffer[..], "\n", n);
    FirstNewline(got, old(pipe.bytes), buffer[..], n, end);
  }

  /** What was got and what is to come make up the stream. */
  ghost predicate IsSplit(got: string, coming: string, s: string) {
    got + coming == s
  }

  lemma SplitIs(got: string, coming: string, s: string)
    ensures IsSplit(got, coming, s) <==> got + coming == s
    ensures IsSplit(got, coming, s) && coming == "" ==> got == s
  {
    assert got + "" == got;
  }

  /** One turn of the loop: a chunk is read and appended. `got` is what the command holds, `s` the stream. */
  method TakeChunk(pipe: Pipe, buffer: array<char>, command: array<char>, len: nat, free: nat, ghost got: string,
                   ghost s: string)
    returns (command': array<char>, len': nat, free': nat, n: nat, end: Option<nat>, ghost got': string)
    requires buffer.Length == CONNECTION_RECV_LENGTH && command != buffer
    requires 0 < free <= len == command.Length && CONNECTION_RECV_LENGTH <= len
    requires command[..len - free] == got && '\n' !in got && IsSplit(got, pipe.bytes, s)
    modifies pipe, buffer, command
    ensures 0 < free' <= len' == command'.Length && len' == if free <= n then 2 * len else len
    ensures command' == command || fresh(command')
    ensures command'[..len' - free'] == got' && IsSplit(got', pipe.bytes, s)
    ensures n <= CONNECTION_RECV_LENGTH && |got'| == |got| + n && |pipe.bytes| == |old(pipe.bytes)| - n
    ensures n == 0 <==> old(pipe.bytes) == ""
    ensures end.None? ==> '\n' !in got'
    ensures end.Some? ==> '\n' in s && end.value < n && IndexOf(s, '\n') + n == |got'| + end.value
  {
    hide IndexOf;
    ghost var coming := pipe.bytes;
    n, end := NextChunk(pipe, buffer, got);
    ghost var chunk := buffer[..n];
    Glue(got, chunk, pipe.bytes, coming);
    assert command[..len - free] == got;
    command', len', free' := Append(command, len, free, buffer, n);
    got' := got + chunk;
  }

  /** Reads chunks until one holds a newline. */
  method Accumulate(pipe: Pipe)
    returns (command: array<char>, length: nat, surplus: nat, isEnd: bool)
    modifies pipe
    ensures fresh(command)
    ensures isEnd <==> '\n' in old(pipe.bytes)
    ensures command.Length == Allocated(length)
    ensures command[..length] + pipe.bytes == old(pipe.bytes)
    ensures if isEnd then IndexOf(old(pipe.bytes), '\n') + 1 + surplus == length && surplus <= 9 else pipe.bytes == ""
  {
    assert Allocated(0) == CONNECTION_RECV_LENGTH;
    hide IndexOf, Block, IsSplit;
    var buffer := new char[CONNECTION_RECV_LENGTH](_ => NUL);
    var len: nat, free: nat := CONNECTION_RECV_LENGTH, CONNECTION_RECV_LENGTH;
    command := new char[CONNECTION_RECV_LENGTH](_ => NUL);
    isEnd, surplus := false, 0;
    ghost var s, got := pipe.bytes, "";
    SplitIs(got, pipe.bytes, s);
    var more := true;
    while more && !isEnd
      invariant fresh(command) && fresh(buffer) && command != buffer && buffer.Length == CONNECTION_RECV_LENGTH
      invariant 0 < free <= len == command.Length && CONNECTION_RECV_LENGTH <= len == Allocated(len - free)
      invariant command[..len - free] == got && IsSplit(got, pipe.bytes, s)
      invariant if isEnd then IndexOf(s, '\n') + 1 + surplus == |got| && surplus <= 9 && '\n' in s else '\n' !in got
      invariant !more ==> !isEnd && pipe.bytes == ""
      decreases |pipe.bytes|, more
    {
      ghost var had := len - free;
      var n, end;
      command, len, free, n, end, got := TakeChunk(pipe, buffer, command, len, free, got, s);
      BlockGrows(had, n, CONNECTION_RECV_LENGTH);
      more, isEnd := n > 0, end.Some?;
      if isEnd {
        surplus := n - (end.value + 1);
      }
    }
    length := len - free;
    SplitIs(got, pipe.bytes, s);
  }

  /** Finding a newline in the chunk finds the first of the stream. */
  lemma FirstNewline(got: string, bytes: string, buffer: string, n: nat, end: Option<nat>)
    requires n <= |bytes| && n <= |buffer| && buffer[..n] == bytes[..n]
    requires '\n' !in got
    requires end.Some? ==> FirstAt(buffer, "\n", n, end.value)
    requires end.None? <==> forall i: nat :: !OccursAt(buffer, "\n", n, i)
    ensures end.None? ==> '\n' !in got + buffer[..n]
    ensures end.Some? ==> end.value < n && '\n' in bytes && IndexOf(got + bytes, '\n') == |got| + end.value
  {
    forall i: nat | i < n
      ensures buffer[i] == bytes[i]
      ensures OccursAt(buffer, "\n", n, i) <==> bytes[i] == '\n'
    {
      assert buffer[i] == buffer[..n][i] == bytes[..n][i];
      assert buffer[i..i + 1] == [buffer[i]];
    }
    if end.Some? {
      var k := end.value;
      assert OccursAt(buffer, "\n", n, k);
      assert forall i :: 0 <= i < k ==> !OccursAt(buffer, "\n", n, i);
      assert (got + bytes)[..|got| + k] == got + bytes[..k];
      IndexOfUnique(got + bytes, '\n', |got| + k);
    } else {
      assert forall i: nat :: i < n ==> !OccursAt(buffer, "\n", n, i);
    }
  }

  lemma TrimmedNewline(s: string, i: nat, zeros: nat)
    requires 0 < i <= |s| && IsNewline(s[i - 1])
    ensures Trimmed(s[..i]) + Zeros(zeros) == Trimmed(s[..i - 1]) + Zeros(zeros + 1)
  {
    assert s[..i][..i - 1] == s[..i - 1];
    assert [NUL] + Zeros(zeros) == Zeros(zeros + 1);
  }

  lemma TrimmedEnds(s: string)
    requires s == "" || !IsNewline(s[|s| - 1])
    ensures Trimmed(s) == s
  {
  }

  /** The trim behind the loop. It stops at the last byte that is neither CR nor LF; where there is none it
      would go on below the command's memory, and is not `inside`. */
  method Trim(command: array<char>, length: nat) returns (inside: bool)
    requires length <= command.Length
    modifies command
    ensures inside <==> exists k :: 0 <= k < length && !IsNewline(old(command[..length])[k])
    ensures command[..length] == Trimmed(old(command[..length]))
    ensures forall k :: length <= k < command.Length ==> command[k] == old(command[k])
  {
    hide Trimmed;
    var i := length;
    ghost var s := command[..length];
    assert s[..i] == s && Zeros(0) == "" && Trimmed(s) + "" == Trimmed(s);
    while i > 0 && (command[i - 1] == '\r' || command[i - 1] == '\n')
      invariant 0 <= i <= length
      invariant forall k :: 0 <= k < i ==> command[k] == s[k]
      invariant forall k :: i <= k < length ==> command[k] == NUL && IsNewline(s[k])
      invariant Trimmed(s) == Trimmed(s[..i]) + Zeros(length - i)
      invariant forall k :: length <= k < command.Length ==> command[k] == old(command[k])
      decreases i
    {
      TrimmedNewline(s, i, length - i);
      i := i - 1;
      command[i] := NUL;
    }
    inside := i > 0;
    TrimmedEnds(s[..i]);
    assert command[..length] == s[..i] + Zeros(length - i);
  }

  // ---------- one request

  /** What the trimmed command holds behind the tokens when `j` payload bytes came in the last chunk. */
  function HeaderRest(end: string, tail: string, j: nat): (r: string)
    requires j <= |tail|
    ensures |r| == |end| + j
  {
    Trimmed(end + tail[..j])
  }

  /** Reads and trims one command. `surplus` counts the payload bytes that came along. */
  method ReadCommand(pipe: Pipe, ghost args: seq<string>, ghost sp: Spacing, ghost payload: Option<string>)
    returns (command: array<char>, surplus: nat)
    requires sp.Fits(args) && AreTokens(args)
    requires pipe.bytes == Encode(args, sp, payload)
    modifies pipe
    ensures fresh(command)
    ensures surplus <= 9 && surplus <= |Tail(payload)|
    ensures pipe.bytes == Tail(payload)[surplus..]
    ensures var shown := Line(args, sp.gaps) + HeaderRest(sp.end, Tail(payload), surplus);
      command.Length == Allocated(|shown|) && command[..|shown|] == shown
  {
    ghost var line, end, tail := Line(args, sp.gaps), sp.end, Tail(payload);
    LineShape(args, sp.gaps);
    FirstLine(line, end, tail);
    hide *;
    command, surplus := ReadLine(pipe, line, end, tail);
  }

  /** The same on the line's text: `line` has no newline and does not end with a CR. */
  method ReadLine(pipe: Pipe, ghost line: string, ghost end: string, ghost tail: string)
    returns (command: array<char>, surplus: nat)
    requires line != "" && !IsNewline(line[0]) && !IsNewline(line[|line| - 1])
    requires pipe.bytes == line + end + tail
    requires '\n' in pipe.bytes && IndexOf(pipe.bytes, '\n') + 1 == |line| + |end|
    modifies pipe
    ensures fresh(command)
    ensures surplus <= 9 && surplus <= |tail| && pipe.bytes == tail[surplus..]
    ensures var shown := line + HeaderRest(end, tail, surplus);
      command.Length == Allocated(|shown|) && command[..|shown|] == shown
  {
    hide IndexOf, Block, Trimmed, Allocated;
    ghost var s := pipe.bytes;
    var length, isEnd;
    command, length, surplus, isEnd := Accumulate(pipe);
    assert s[..length] == command[..length] && s[length..] == pipe.bytes;
    assert s[..length] == line + (end + tail[..surplus]);
    assert command[0] == command[..length][0] == line[0];
    var inside := Trim(command, length);
    assert inside;
    TrimmedPrefix(line, end + tail[..surplus]);
  }

  lemma FirstLine(line: string, end: string, tail: string)
    requires '\n' !in line && IsEnd(end)
    ensures var s := line + end + tail;
      '\n' in s && IndexOf(s, '\n') == |line| + |end| - 1
  {
    var s, k := line + end + tail, |line| + |end| - 1;
    assert s[k] == end[|end| - 1];
    assert s[..k] == line + end[..|end| - 1];
    IndexOfUnique(s, '\n', k);
  }

  /** `memuncached_set`, first half: the surplus bytes, then `recv` until the payload and two more
      bytes are there. The two last bytes are replaced by NULs. */
  method ReadPayload(pipe: Pipe, command: array<char>, itr: nat, surplus: nat, length: nat)
    returns (payload: array<char>)
    requires itr + surplus <= command.Length && surplus <= length + 2
    requires length + 2 - surplus <= |pipe.bytes|
    modifies pipe
    ensures fresh(payload) && payload.Length == length + 2
    ensures payload[..length] == (command[itr..itr + surplus] + old(pipe.bytes))[..length]
    ensures payload[length] == payload[length + 1] == NUL
    ensures pipe.bytes == old(pipe.bytes)[length + 2 - surplus..]
  {
    payload := new char[length + 2](_ => NUL);
    forall i | 0 <= i < surplus {
      payload[i] := command[itr + i];
    }
    ghost var all := command[itr..itr + surplus] + pipe.bytes;
    assert payload[..surplus] == command[itr..itr + surplus];
    ghost var got := payload[..surplus];
    var left: nat := length + 2 - surplus;
    while left > 0
      invariant left <= length + 2 && left <= |pipe.bytes|
      invariant payload[..length + 2 - left] == got && got + pipe.bytes == all
      decreases left
    {
      left, got := ReadMore(pipe, payload, left, got);
    }
    assert payload[..length] == payload[..length + 2][..length] == all[..length];
    assert pipe.bytes == all[length + 2..];
    payload[length], payload[length + 1] := NUL, NUL;
  }

  method ReadMore(pipe: Pipe, payload: array<char>, left: nat, ghost got: string)
    returns (left': nat, ghost got': string)
    requires 0 < left <= payload.Length && left <= |pipe.bytes| && payload[..payload.Length - left] == got
    modifies pipe, payload
    ensures left' < left && left' <= |pipe.bytes| && payload[..payload.Length - left'] == got'
    ensures got' + pipe.bytes == got + old(pipe.bytes)
  {
    ghost var coming := pipe.bytes;
    var n := pipe.Recv(payload, payload.Length - left, left);
    left' := left - n;
    got' := got + coming[..n];
    Glue(got, coming[..n], pipe.bytes, coming);
  }

  // ---------- chunkings

  /** Chunk sizes that read a header of `header` bytes and stop at the chunk that completes it. */
  ghost predicate IsChunking(sizes: seq<nat>, header: nat, total: nat) {
    && sizes != []
    && (forall i :: 0 <= i < |sizes| ==> 1 <= sizes[i] <= CONNECTION_RECV_LENGTH)
    && Total(sizes[..|sizes| - 1]) < header <= Total(sizes) <= total
  }

  lemma {:induction false} Ones(n: nat) returns (s: seq<nat>)
    ensures |s| == n && Total(s) == n && forall i :: 0 <= i < n ==> s[i] == 1
  {
    s := [];
    if n > 0 {
      var r := Ones(n - 1);
      s := [1] + r;
      assert s[1..] == r;
    }
  }

  /** The surplus can be any number up to nine that the tail allows, and no other. */
  lemma SurplusRange(header: nat, tail: nat, j: nat)
    requires header > 0
    ensures (exists sizes: seq<nat> :: IsChunking(sizes, header, header + tail) && Total(sizes) == header + j) <==>
      j <= 9 && j <= tail
  {
    forall sizes: seq<nat> | IsChunking(sizes, header, header + tail) && Total(sizes) == header + j
      ensures j <= 9 && j <= tail
    {
      var n := |sizes| - 1;
      TotalAppend(sizes[..n], sizes[n..]);
      assert sizes == sizes[..n] + sizes[n..];
      assert sizes[n..][1..] == [];
    }
    if j <= 9 && j <= tail {
      var ones := Ones(header - 1);
      var last: seq<nat> := [1 + j];
      TotalAppend(ones, last);
      assert last[1..] == [];
      assert (ones + last)[..header - 1] == ones;
      assert IsChunking(ones + last, header, header + tail);
    }
  }
}
