/** The server: one turn of a connection's loop, from the request's bytes to the answer's. */
module Servers {
  import opened Text
  import opened Decimal
  import opened Pipes
  import opened CStrings
  import opened Tokenizer
  import opened Requests
  import opened Payloads
  import opened Bounds
  import opened Responses
  import opened Tables
  import opened Vectors
  import opened Commands
  import opened Meanings
  import Fnv

  /** A request as the protocol describes it: tokens, and the payload the tokens announce. */
  ghost predicate IsRequest(args: seq<string>, sp: Spacing, payload: Option<string>) {
    && sp.Fits(args) && AreTokens(args)
    && (payload.Some? <==> Meaning(args).Put?)
    && (payload.Some? ==> |args| == 4 && Meaning(args).length == |payload.value|)
  }

  /** The checks of SET and ADD. */
  method CheckPut(arg: seq<Option<string>>, overwrite: bool) returns (c: Command)
    requires |arg| == 3
    ensures c == InterpretPut(arg, overwrite)
  {
    if arg[0].None? {
      return Bad("The argument KEY is mandatory.");
    }
    if arg[1].None? {
      return Bad("The argument TYPE is mandatory.");
    }
    var decimal := CheckDecimalString(arg[1].value);
    if !decimal || arg[1].value[0] == '-' {
      return Bad("The argument TYPE must be positive integer.");
    }
    if arg[2].None? {
      return Bad("The argument LENGTH is mandatory.");
    }
    decimal := CheckDecimalString(arg[2].value);
    if !decimal || arg[2].value[0] == '-' {
      return Bad("The argument LENGTH must be positive integer.");
    }
    return Put(arg[0].value, arg[1].value, Atoi(arg[2].value), overwrite);
  }

  /** The checks of INC and DEC. */
  method CheckCount(arg: seq<Option<string>>, up: bool) returns (c: Command)
    requires |arg| == 3
    ensures c == InterpretCount(arg, up)
  {
    if arg[0].None? {
      return Bad("The argument KEY is mandatory.");
    }
    if arg[1].Some? {
      var number := CheckRealString(arg[1].value);
      if !number || arg[1].value[0] == '-' {
        return Bad("The argument OFFSET must be positive real number.");
      }
    }
    if arg[2].Some? {
      var number := CheckRealString(arg[2].value);
      if !number {
        return Bad("The argument INITIAL must be real number.");
      }
    }
    return Count(arg[0].value, arg[1], arg[2], up);
  }

  /** Reads the command's name and the arguments it wants, and decides what it asks for. `next` is the
      cursor behind them. */
  method ParseCommand(command: array<char>, ghost args: seq<string>, ghost gaps: seq<string>, ghost rest: string)
    returns (c: Command, next: nat)
    requires IsLine(args, gaps, rest)
    requires command[..] == Joined(args, gaps) + rest
    modifies command
    ensures c == Meaning(args)
    ensures |args| == 4 && c.Put? ==> next <= command.Length && command[next..] == rest
  {
    hide Rest, ArgAt, Tokenizer.Run, Skip, Advance, ArgsAt, AfterArgs, Bounded, Joined, InterpretPut, InterpretCount,
      IsLine;
    ghost var behind := FirstArg(args, gaps, rest);
    OtherArgs(args, gaps, rest);
    assert command[0..] == command[..];
    var name;
    name, next := NextArg(command, 0);
    assert command[next..] == behind;
    var more := command[next] != NUL;
    assert more == (behind[0] != NUL);
    var wanted, arg := Wanted(name.value), [];
    arg, next := NextArgs(command, next, wanted);
    var n := Upper(name.value);
    if n == "ADD" || n == "SET" {
      c := CheckPut(arg, n == "SET");
    } else if n == "DEC" || n == "INC" {
      c := CheckCount(arg, n == "INC");
    } else {
      c := Interpret(name.value, arg, more);
    }
  }

  /** A command that takes three arguments, with all three. */
  predicate CanCarry(args: seq<string>) {
    |args| == 4 && Wanted(args[0]) == 3
  }

  /** Tokens with the gaps behind them, and behind those the C string's end or a payload. */
  ghost predicate IsLine(args: seq<string>, gaps: seq<string>, rest: string) {
    && args != [] && |gaps| == |args| && AreTokens(args) && AreGaps(gaps, rest)
    && rest != "" && !IsDelimiter(rest[0])
    && (rest[0] == NUL || CanCarry(args))
  }

  /** The first token of a line and what is left behind it. */
  lemma FirstArg(args: seq<string>, gaps: seq<string>, rest: string) returns (behind: string)
    requires IsLine(args, gaps, rest)
    ensures |args| == |gaps| > 0
    ensures var s := Joined(args, gaps) + rest;
      s != "" && Rest(s) == behind == Joined(args[1..], gaps[1..]) + rest && ArgAt(s) == Some(args[0])
    ensures behind != "" && (behind[0] == NUL <==> |args| == 1)
  {
    behind := Joined(args[1..], gaps[1..]) + rest;
    assert IsToken(args[0]) && IsGap(gaps[0]);
    if |args| > 1 {
      assert IsToken(args[1]) && behind[0] == args[1][0];
    }
    assert Joined(args, gaps) + rest == args[0] + gaps[0] + behind;
    TokenThenGap(args[0], gaps[0], behind);
  }

  /** The other arguments. */
  lemma OtherArgs(args: seq<string>, gaps: seq<string>, rest: string)
    requires IsLine(args, gaps, rest)
    ensures var s, n := Joined(args[1..], gaps[1..]) + rest, Wanted(args[0]);
      && Bounded(s, n) && ArgsAt(s, n) == Padded(args[1..], n)
      && (|args| == 4 && n == 3 ==> AfterArgs(s, n) == rest)
  {
    TokensReadBack(args[1..], gaps[1..], rest, Wanted(args[0]));
  }

  // ---------- what lies behind the line

  lemma {:induction false} TrimmedBytes(s: string)
    ensures forall i :: 0 <= i < |s| ==> Trimmed(s)[i] == s[i] || Trimmed(s)[i] == NUL
  {
    if s != "" && IsNewline(s[|s| - 1]) {
      TrimmedBytes(s[..|s| - 1]);
    }
  }

  /** The memory behind the line starts with a delimiter or a NUL. */
  lemma MemoryStarts(end: string, tail: string, j: nat, junk: string)
    requires IsEnd(end) && j <= |tail|
    ensures var memory := HeaderRest(end, tail, j) + junk;
      Skip(memory) == 0 ==> memory[0] == NUL
  {
    TrimmedBytes(end + tail[..j]);
    assert IsDelimiter(end[0]);
  }

  /** Without a payload, delimiters and then a NUL follow the line. */
  lemma NothingBehind(end: string, junk: string)
    requires IsEnd(end)
    ensures var memory := HeaderRest(end, "", 0) + junk;
      Skip(memory) < |memory| && memory[Skip(memory)] == NUL
  {
    var blanks := EmptyShape(end, "");
    hide Trimmed;
    var memory := HeaderRest(end, "", 0) + junk;
    assert end + ""[..0] == end + "";
    var rest := Zeros(|end| - |blanks|) + junk;
    assert memory == blanks + rest;
    SkipGap(blanks, rest);
  }

  /** When the delimiters reach the end of the memory, the tokenizer leaves it. */
  lemma {:induction false} RunsOff(args: seq<string>, gaps: seq<string>)
    requires args != [] && |gaps| == |args| && AreTokens(args)
    requires forall i :: 0 <= i < |gaps| ==> gaps[i] != "" && IsGap(gaps[i])
    ensures !Bounded(Joined(args, gaps), |args|)
    decreases |args|
  {
    var s, more := Joined(args, gaps), Joined(args[1..], gaps[1..]);
    assert IsToken(args[0]) && IsGap(gaps[0]);
    if |args| == 1 {
      assert more == "" && s == args[0] + gaps[0];
      LastGap(args[0], gaps[0]);
    } else {
      assert IsToken(args[1]) && more[0] == args[1][0];
      TokenThenGap(args[0], gaps[0], more);
      RunsOff(args[1..], gaps[1..]);
    }
  }

  lemma LastGap(token: string, gap: string)
    requires IsToken(token) && IsGap(gap) && gap != ""
    ensures Rest(token + gap) == ""
  {
    var s := token + gap;
    assert s[|token|] == gap[0] && forall i :: 0 <= i < |token| ==> s[i] == token[i];
    assert Tokenizer.Run(s) == |token| && s[|token|..] == gap;
    assert Skip(gap) == |gap|;
  }

  /** The gaps between the tokens and the delimiters that start the memory behind the line. */
  function AllGaps(gaps: seq<string>, memory: string): seq<string> {
    gaps + [memory[..Skip(memory)]]
  }

  ghost predicate FormsLine(args: seq<string>, sp: Spacing, carries: bool) {
    sp.Fits(args) && AreTokens(args) && (carries ==> CanCarry(args))
  }

  lemma RequestFormsLine(args: seq<string>, sp: Spacing, payload: Option<string>)
    requires IsRequest(args, sp, payload)
    ensures FormsLine(args, sp, payload.Some?)
  {
    hide InterpretPut, InterpretCount;
  }

  lemma LineInMemory(args: seq<string>, sp: Spacing, carries: bool, memory: string)
    requires FormsLine(args, sp, carries) && (Skip(memory) == 0 ==> memory != "" && memory[0] == NUL)
    requires carries || (Skip(memory) < |memory| && memory[Skip(memory)] == NUL)
    ensures var gaps, rest := AllGaps(sp.gaps, memory), memory[Skip(memory)..];
      |gaps| == |args| && Line(args, sp.gaps) + memory == Joined(args, gaps) + rest
      && (Skip(memory) < |memory| ==> IsLine(args, gaps, rest))
    ensures Bounded(Line(args, sp.gaps) + memory, 4) <==> Skip(memory) < |memory|
  {
    hide Skip, Line, Joined, Wanted, Bounded, IsLine, AreTokens, CanCarry, AreSeparated, IsBlank, IsEnd;
    LineGaps(args, sp, carries, memory);
    MemoryJoined(args, sp.gaps, memory);
    hide AllGaps;
    BoundedIff(args, AllGaps(sp.gaps, memory), memory[Skip(memory)..]);
  }

  lemma MemoryJoined(args: seq<string>, gaps: seq<string>, memory: string)
    requires |args| == |gaps| + 1
    ensures |AllGaps(gaps, memory)| == |args|
    ensures Line(args, gaps) + memory == Joined(args, AllGaps(gaps, memory)) + memory[Skip(memory)..]
  {
    hide Skip, Line, Joined;
    var gap, rest := memory[..Skip(memory)], memory[Skip(memory)..];
    LineIsJoined(args, gaps, gap);
    assert Line(args, gaps) + memory == (Line(args, gaps) + gap) + rest;
  }

  lemma LineGaps(args: seq<string>, sp: Spacing, carries: bool, memory: string)
    requires FormsLine(args, sp, carries) && (Skip(memory) == 0 ==> memory != "" && memory[0] == NUL)
    requires carries || (Skip(memory) < |memory| && memory[Skip(memory)] == NUL)
    ensures var gaps, rest := AllGaps(sp.gaps, memory), memory[Skip(memory)..];
      if rest == "" then AreSeparated(args, gaps) else
      IsLine(args, gaps, rest) && (rest[0] != NUL ==> |args| == 4)
  {
    var gap, rest := memory[..Skip(memory)], memory[Skip(memory)..];
    assert IsGap(gap) && (rest != "" ==> !IsDelimiter(rest[0]));
    GapsFit(sp.gaps, gap, rest);
    hide Wanted, Skip, AreTokens, AreGaps, IsEnd, IsBlank, IsGap;
    assert |args| == |AllGaps(sp.gaps, memory)|;
  }

  lemma GapsFit(gaps: seq<string>, gap: string, rest: string)
    requires forall i :: 0 <= i < |gaps| ==> gaps[i] != "" && IsBlank(gaps[i])
    requires IsGap(gap) && (gap == "" ==> rest != "" && rest[0] == NUL)
    ensures AreGaps(gaps + [gap], rest)
    ensures forall i :: 0 <= i <= |gaps| ==> IsGap((gaps + [gap])[i]) && (rest == "" ==> (gaps + [gap])[i] != "")
  {
  }

  /** Four tokens with gaps behind all of them. */
  ghost predicate AreSeparated(args: seq<string>, gaps: seq<string>) {
    |args| == |gaps| == 4 && AreTokens(args) && forall i :: 0 <= i < |gaps| ==> gaps[i] != "" && IsGap(gaps[i])
  }

  lemma BoundedIff(args: seq<string>, gaps: seq<string>, rest: string)
    requires if rest == "" then AreSeparated(args, gaps) else
      IsLine(args, gaps, rest) && (rest[0] != NUL ==> |args| == 4)
    ensures |args| == |gaps| && (Bounded(Joined(args, gaps) + rest, 4) <==> rest != "")
  {
    hide Joined, Bounded, Wanted;
    if rest != "" {
      TokensReadBack(args, gaps, rest, 4);
    } else {
      assert Joined(args, gaps) + rest == Joined(args, gaps);
      RunsOff(args, gaps);
    }
  }

  /** What is stored, for any payload at all, as long as the cursor and the copy stay in the command's
      memory: the cursor's bytes, as many as came with the header, and then the rest of the payload. */
  lemma StoredIsRecovered(rest: string, end: string, payload: string, j: nat, junk: string)
    requires j <= |payload| + 2 && IsInside(end, payload, j, junk)
    requires var memory := HeaderRest(end, payload + CRLF, j) + junk;
      rest == memory[Skip(memory)..]
    ensures j <= |rest|
    ensures (rest[..j] + (payload + CRLF)[j..])[..|payload|] == Recovered(end, payload, j, junk)
  {
    hide HeaderRest, Skip;
  }

  /** What a request leaves in the server when `j` bytes of its payload came with the header and the
      command's unused memory holds `junk`. A payload comes through `inside` the command's memory or not at all. */
  ghost predicate Receives(args: seq<string>, sp: Spacing, payload: Option<string>, j: nat, junk: string,
                           inside: bool, text: string)
    requires sp.Fits(args)
  {
    var header := |Line(args, sp.gaps) + sp.end|;
    && j <= 9 && j <= |Tail(payload)| && header + j + |junk| == Allocated(header + j)
    && if payload.None? then inside && text == "" else
        && inside == IsInside(sp.end, payload.value, j, junk)
        && (inside ==> text == Recovered(sp.end, payload.value, j, junk))
  }

  /** A payload whose part of the header's last chunk is intact is received as it was sent. */
  lemma IntactReceived(args: seq<string>, sp: Spacing, payload: string, j: nat, junk: string, inside: bool,
                       text: string)
    requires sp.Fits(args) && Receives(args, sp, Some(payload), j, junk, inside, text) && IsIntact(payload, j)
    ensures inside && text == payload
  {
    hide IsIntact, Recovered, IsInside, Block, Line;
    RecoveredIntact(sp.end, payload, j, junk);
  }

  lemma SafeReceived(args: seq<string>, sp: Spacing, payload: Option<string>, j: nat, junk: string, inside: bool,
                     text: string)
    requires sp.Fits(args) && Receives(args, sp, payload, j, junk, inside, text)
    requires payload.Some? ==> IsSafe(payload.value)
    ensures inside && text == if payload.None? then "" else payload.value
  {
    if payload.Some? {
      SafeIffIntact(payload.value);
      hide IsSafe, IsIntact, Recovered, IsInside, Block, Line;
      IntactReceived(args, sp, payload.value, j, junk, inside, text);
    }
  }

  /** A SET of the single byte LF whose header comes in a chunk of ten bytes, and its last byte and the payload
      in another of at least two: a NUL is stored, whatever the eight unused bytes of the command hold. */
  lemma NewlineIsLost(junk: string, inside: bool, text: string)
    requires |junk| == 8
    ensures var args, sp, payload := ["SET", "k", "2", "1"], SingleSpaces(4), Some("\n");
      && IsRequest(args, sp, payload)
      && Line(args, sp.gaps) + sp.end == "SET k 2 1" + CRLF
      && IsChunking([10, 2], 11, 14) && Total([10, 2]) == 12
      && (Receives(args, sp, payload, 1, junk, inside, text) <==> inside && text == [NUL])
  {
    hide *;
    NewlineRequest();
    NewlineReceived(junk, inside, text);
    TenAndTwo();
  }

  /** A SET of three spaces and a letter whose header comes in a chunk of ten bytes and with all four payload bytes
      in one of nine: nineteen bytes leave one unused, and the copy starts three bytes further on. */
  lemma SpacesLeave(junk: string, inside: bool, text: string)
    requires |junk| == 1
    ensures var args, sp, payload := ["SET", "keyke", "2", "4"], SingleSpaces(4), Some("   a");
      && IsRequest(args, sp, payload)
      && Line(args, sp.gaps) + sp.end == "SET keyke 2 4" + CRLF
      && IsChunking([10, 9], 15, 21) && Total([10, 9]) == 19
      && (Receives(args, sp, payload, 4, junk, inside, text) <==> !inside)
  {
    hide *;
    SpacesRequest();
    SpacesReceived(junk, inside, text);
    TenAndNine();
  }

  lemma SpacesRequest()
    ensures IsRequest(["SET", "keyke", "2", "4"], SingleSpaces(4), Some("   a"))
  {
    hide Meaning, PrintNat;
    assert SingleSpaces(4).Fits(["SET", "keyke", "2", "4"]);
    SetMeaning("keyke", 4, "4");
  }

  lemma SpacesReceived(junk: string, inside: bool, text: string)
    requires |junk| == 1
    ensures var args, sp := ["SET", "keyke", "2", "4"], SingleSpaces(4);
      && sp.Fits(args) && Line(args, sp.gaps) + sp.end == "SET keyke 2 4" + CRLF
      && (Receives(args, sp, Some("   a"), 4, junk, inside, text) <==> !inside)
  {
    SpacesLine();
    SpacesLead();
    TenAndNine();
    assert IsEnd(CRLF);
    hide Line, Recovered, IsInside, Block, SingleSpaces, IsChunking, Lead, IsEnd, Spacing.Fits;
    InsideIff(CRLF, "   a", 4, junk);
    PayloadReceived(["SET", "keyke", "2", "4"], SingleSpaces(4), "   a", 4, junk, inside, text);
  }

  lemma SpacesLine()
    ensures var args, sp := ["SET", "keyke", "2", "4"], SingleSpaces(4);
      sp.Fits(args) && sp.end == CRLF && Line(args, sp.gaps) + sp.end == "SET keyke 2 4" + CRLF
  {
    assert SingleSpaces(4).gaps == [" ", " ", " "];
    FourTokens("SET", "keyke", "2", "4");
    hide Line;
  }

  lemma SpacesLead()
    ensures Lead("   a", 4) == 3
  {
    assert ("   a" + CRLF)[..4] == "   a";
    assert Strip("   a") == "   a";
  }

  lemma TenAndNine()
    ensures IsChunking([10, 9], 15, 21) && Total([10, 9]) == 19 && Allocated(19) == 20
  {
    assert [10, 9][..1] == [10] && [10, 9][1..] == [9] && [10][1..] == [] && [9][1..] == [];
    assert Block(19, 10) == Block(19, 20) == 20;
  }

  lemma NewlineRequest()
    ensures IsRequest(["SET", "k", "2", "1"], SingleSpaces(4), Some("\n"))
  {
    hide Meaning, PrintNat;
    assert SingleSpaces(4).Fits(["SET", "k", "2", "1"]);
    SetMeaning("k", 1, "1");
  }

  lemma SetMeaning(key: string, n: nat, digit: string)
    requires n < 10 && digit == [('0' as int + n) as char]
    ensures Meaning(["SET", key, "2", digit]) == Put(key, "2", n, true)
  {
    assert PrintNat(2) == "2" && PrintNat(n) == digit;
    hide Meaning, PrintNat;
    PutInterpreted(true, key, 2, n);
  }

  lemma NewlineReceived(junk: string, inside: bool, text: string)
    requires |junk| == 8
    ensures var args, sp := ["SET", "k", "2", "1"], SingleSpaces(4);
      && sp.Fits(args) && Line(args, sp.gaps) + sp.end == "SET k 2 1" + CRLF
      && (Receives(args, sp, Some("\n"), 1, junk, inside, text) <==> inside && text == [NUL])
  {
    NewlineLine();
    NewlineRecovered(junk);
    TenAndTwo();
    hide Line, Recovered, IsInside, Block, SingleSpaces, IsChunking, Spacing.Fits;
    PayloadReceived(["SET", "k", "2", "1"], SingleSpaces(4), "\n", 1, junk, inside, text);
  }

  lemma NewlineLine()
    ensures var args, sp := ["SET", "k", "2", "1"], SingleSpaces(4);
      sp.Fits(args) && sp.end == CRLF && Line(args, sp.gaps) + sp.end == "SET k 2 1" + CRLF
  {
    assert SingleSpaces(4).gaps == [" ", " ", " "];
    FourTokens("SET", "k", "2", "1");
    hide Line;
  }

  lemma TenAndTwo()
    ensures IsChunking([10, 2], 11, 14) && Total([10, 2]) == 12 && Allocated(12) == 20
  {
    assert [10, 2][..1] == [10] && [10, 2][1..] == [2] && [10][1..] == [] && [2][1..] == [];
    assert Block(12, 10) == Block(12, 20) == 20;
  }

  lemma NewlineRecovered(junk: string)
    requires |junk| == 8
    ensures IsInside(CRLF, "\n", 1, junk) && Recovered(CRLF, "\n", 1, junk) == [NUL]
  {
    TrimmedParts("", "\r\n\n");
    assert "" + "\r\n\n" == CRLF + ("\n" + CRLF)[..1];
    var memory := HeaderRest(CRLF, "\n" + CRLF, 1) + junk;
    assert memory == "" + memory && memory[0] == NUL;
    hide Trimmed, HeaderRest;
    SkipGap("", memory);
    assert memory[0..] == memory && memory[..1] == [NUL];
  }

  lemma FourTokens(a: string, b: string, c: string, d: string)
    ensures Line([a, b, c, d], [" ", " ", " "]) == a + " " + b + " " + c + " " + d
  {
    var sp := " ";
    assert [a, b, c, d][1..] == [b, c, d] && [b, c, d][1..] == [c, d] && [c, d][1..] == [d];
    assert [sp, sp, sp][1..] == [sp, sp] && [sp, sp][1..] == [sp] && [sp][1..] == [];
    assert Line([d], []) == d;
    assert Line([c, d], [sp]) == c + " " + d;
    assert Line([b, c, d], [sp, sp]) == b + " " + Line([c, d], [sp]);
    assert Line([a, b, c, d], [sp, sp, sp]) == a + " " + Line([b, c, d], [sp, sp]);
  }

  lemma PayloadReceived(args: seq<string>, sp: Spacing, payload: string, j: nat, junk: string, inside: bool,
                        text: string)
    requires sp.Fits(args) && j <= 9 && j <= |payload + CRLF|
    requires var n := |Line(args, sp.gaps) + sp.end| + j;
      n + |junk| == Allocated(n)
    ensures Receives(args, sp, Some(payload), j, junk, inside, text) <==>
      && inside == IsInside(sp.end, payload, j, junk)
      && (inside ==> text == Recovered(sp.end, payload, j, junk))
  {
    hide Recovered, IsInside, Block, Line;
  }

  /** The command as it lies in memory, and behind its line what is not part of it. */
  method ReceiveLine(up: Pipe, ghost args: seq<string>, ghost sp: Spacing, ghost payload: Option<string>)
    returns (command: array<char>, surplus: nat, ghost memory: string, ghost junk: string)
    requires sp.Fits(args) && AreTokens(args) && up.bytes == Encode(args, sp, payload)
    modifies up
    ensures fresh(command) && command[..] == Line(args, sp.gaps) + memory
    ensures surplus <= 9 && surplus <= |Tail(payload)| && up.bytes == Tail(payload)[surplus..]
    ensures memory == HeaderRest(sp.end, Tail(payload), surplus) + junk
    ensures var n := |Line(args, sp.gaps) + sp.end| + surplus;
      n + |junk| == Allocated(n)
    ensures Skip(memory) == 0 ==> memory != "" && memory[0] == NUL
    ensures payload.None? ==> Skip(memory) < |memory| && memory[Skip(memory)] == NUL
  {
    assert IsEnd(sp.end) && |args| == |sp.gaps| + 1;
    assert payload.None? ==> Tail(payload) == "";
    hide Meaning, AreTokens, IsEnd, Line, Skip, Tail, Block, Spacing.Fits, HeaderRest, Encode;
    command, surplus := ReadCommand(up, args, sp, payload);
    ghost var line, behind := Line(args, sp.gaps), HeaderRest(sp.end, Tail(payload), surplus);
    junk := command[|line + behind|..];
    memory := behind + junk;
    assert command[..] == (line + behind) + junk == line + memory;
    MemoryStarts(sp.end, Tail(payload), surplus, junk);
    if payload.None? {
      NothingBehind(sp.end, junk);
    }
  }

  /** However a request's bytes arrive, the server recovers the command they spell and the payload, or what
      the last chunk left of it, and consumes exactly those bytes, unless the payload's copy leaves the
      command's memory. */
  method ReceiveRequest(up: Pipe, ghost args: seq<string>, ghost sp: Spacing, ghost payload: Option<string>)
    returns (inside: bool, c: Command, text: string, ghost j: nat, ghost junk: string)
    requires IsRequest(args, sp, payload) && up.bytes == Encode(args, sp, payload)
    modifies up
    ensures Receives(args, sp, payload, j, junk, inside, text)
    ensures payload.Some? ==> (inside <==>
      var lead := Lead(payload.value, j);
      if j == 0 || lead < j then lead <= |junk| else Skip(junk) + j <= |junk|)
    ensures inside ==> c == Meaning(args) && up.bytes == ""
  {
    assert IsEnd(sp.end);
    hide Meaning, AreTokens, Wanted, Line, Skip, HeaderRest, Encode, Block, AreGaps, Spacing.Fits, Bounded, Joined,
      Recovered, IsEnd, IsInside, Lead, IsLine, Receives;
    var command, surplus;
    ghost var memory;
    command, surplus, memory, junk := ReceiveLine(up, args, sp, payload);
    j := surplus;
    RequestFormsLine(args, sp, payload);
    LineInMemory(args, sp, payload.Some?, memory);
    inside, c, text := Bounded(command[..], 4), Bad(""), "";
    if inside {
      c, inside, text := ReceiveInside(up, command, surplus, args, sp, payload, memory, junk);
    }
    if payload.Some? {
      PayloadReceived(args, sp, payload.value, j, junk, inside, text);
      InsideIff(sp.end, payload.value, j, junk);
    } else {
      assert payload == None && inside && text == "";
      NothingReceived(args, sp, j, junk);
    }
  }

  lemma NothingReceived(args: seq<string>, sp: Spacing, j: nat, junk: string)
    requires sp.Fits(args) && j == 0
    requires var n := |Line(args, sp.gaps) + sp.end| + j;
      n + |junk| == Allocated(n)
    ensures Receives(args, sp, None, j, junk, true, "")
  {
    hide Line, Block;
  }

  method ReceiveInside(up: Pipe, command: array<char>, surplus: nat,
                       ghost args: seq<string>, ghost sp: Spacing, ghost payload: Option<string>,
                       ghost memory: string, ghost junk: string)
    returns (c: Command, inside: bool, text: string)
    requires IsRequest(args, sp, payload) && surplus <= |Tail(payload)| && up.bytes == Tail(payload)[surplus..]
    requires Skip(memory) < |memory| && memory == HeaderRest(sp.end, Tail(payload), surplus) + junk
    requires var gaps, rest := AllGaps(sp.gaps, memory), memory[Skip(memory)..];
      |gaps| == |args| && command[..] == Joined(args, gaps) + rest && IsLine(args, gaps, rest)
    modifies up, command
    ensures c == Meaning(args)
    ensures if payload.None? then inside && text == "" else
      && inside == IsInside(sp.end, payload.value, surplus, junk)
      && (inside ==> text == Recovered(sp.end, payload.value, surplus, junk))
    ensures inside ==> up.bytes == ""
  {
    hide Meaning, AreTokens, Wanted, Line, Skip, HeaderRest, AreGaps, Spacing.Fits, Joined, Recovered, IsLine;
    ghost var rest := memory[Skip(memory)..];
    var next;
    c, next := ParseCommand(command, args, AllGaps(sp.gaps, memory), rest);
    inside, text := true, "";
    if c.Put? {
      inside := next + surplus <= command.Length;
      assert |command[next..]| == command.Length - next;
      if inside {
        StoredIsRecovered(rest, sp.end, payload.value, surplus, junk);
        text := ReceivePayload(up, command, next, surplus, c.length, rest, payload.value);
      }
    }
  }

  /** The payload's buffer: the first bytes are those that start `rest`, the others are still to come. */
  method ReceivePayload(up: Pipe, command: array<char>, next: nat, surplus: nat, length: nat,
                        ghost rest: string, ghost payload: string)
    returns (text: string)
    requires next <= command.Length && command[next..] == rest && surplus <= |rest|
    requires length == |payload| && surplus <= length + 2 && up.bytes == (payload + CRLF)[surplus..]
    modifies up
    ensures text == (rest[..surplus] + (payload + CRLF)[surplus..])[..length] && up.bytes == ""
  {
    assert command[next..next + surplus] == rest[..surplus];
    var buffer := ReadPayload(up, command, next, surplus, length);
    text := buffer[..length];
  }

  lemma PutHasKind(args: seq<string>)
    requires args != [] && Meaning(args).Put?
    ensures Meaning(args).kind != ""
  {
  }

  class Server {
    const table: HashTable
    const clients: Vector<Connection>
    const doubles: Doubles

    constructor (table: HashTable, clients: Vector<Connection>, doubles: Doubles)
      ensures this.table == table && this.clients == clients && this.doubles == doubles
    {
      this.table, this.clients, this.doubles := table, clients, doubles;
    }

    ghost predicate Valid()
      reads table, table.slots, clients, clients.cells
    {
      table.Valid() && clients.Valid()
    }

    /** `memuncached_set` behind the payload's arrival. */
    method PerformPut(c: Command, payload: string) returns (r: Response)
      requires table.Valid() && c.Put? && c.kind != ""
      modifies table, table.slots
      ensures table.Valid()
      ensures (table.View(), r) == ExecutePut(doubles, old(table.View()), table.Index(c.key), c, payload)
    {
      if !c.overwrite {
        var found := table.Get(c.key);
        if found.Some? {
          return KEY_EXISTS;
        }
      }
      var _ := table.Del(c.key);
      var kind := TypeOf(c.kind);
      if kind == 0 {
        table.Set(c.key, Number(Atoll(payload)));
      } else if kind == 1 {
        table.Set(c.key, Real(doubles.atof(CString(payload))));
      } else if kind == 2 {
        table.Set(c.key, Str(payload));
      } else {
        return BadRequest(INVALID_TYPE);
      }
      return Success("");
    }

    /** `memuncached_inc` and `memuncached_dec`. */
    method PerformCount(c: Command) returns (r: Response)
      requires table.Valid() && c.Count?
      modifies table, table.slots
      ensures table.Valid()
      ensures (table.View(), r) == ExecuteCount(doubles, old(table.View()), table.Index(c.key), c)
    {
      var offset := if c.offset.None? then 1.0 else doubles.atof(c.offset.value);
      var counted := table.Bump(doubles, c.key, offset, c.up);
      if counted.None? {
        table.Set(c.key, InitialValue(doubles, c.initial));
      }
      var slot := table.Get(c.key);
      r := SlotResponse(doubles, slot);
    }

    /** `handle_command` behind its argument checks. */
    method Perform(c: Command, payload: string) returns (r: Response)
      requires Valid() && (c.Put? ==> c.kind != "")
      modifies table, table.slots
      ensures Valid()
      ensures (table.View(), r) == Execute(doubles, old(table.View()), clients.count, c, payload)
    {
      hide ExecutePut, ExecuteCount, SlotResponse, Statistics, Fnv.Slot;
      match c
      case Put(_, _, _, _) =>
        r := PerformPut(c, payload);
      case Count(_, _, _, _) =>
        r := PerformCount(c);
      case Get(key) =>
        var slot := table.Get(key);
        r := SlotResponse(doubles, slot);
      case Del(key) =>
        var slot := table.Get(key);
        r := SlotResponse(doubles, slot);
        var _ := table.Del(key);
      case Stt =>
        r := Success(Statistics(clients.count, table.count));
      case Ver =>
        r := Success(VERSION);
      case Bye =>
        r := Success("bye.");
      case Bad(message) =>
        r := BadRequest(message);
    }

    /** One turn of `handle_connection`: however the request's bytes arrive, exactly they are consumed, and the
        table and the answer are those of the command they spell, on the text that was received. */
    method Serve(up: Pipe, down: Pipe, ghost args: seq<string>, ghost sp: Spacing, ghost payload: Option<string>)
      returns (inside: bool, ghost reply: Response, ghost text: string, ghost j: nat, ghost junk: string)
      requires Valid() && up != down
      requires IsRequest(args, sp, payload) && up.bytes == Encode(args, sp, payload)
      modifies up, down, table, table.slots
      ensures Valid() && Receives(args, sp, payload, j, junk, inside, text)
      ensures inside ==>
        && up.bytes == ""
        && (table.View(), reply) == Execute(doubles, old(table.View()), clients.count, Meaning(args), text)
        && down.bytes == old(down.bytes) + reply.Encode()
    {
      if Meaning(args).Put? {
        PutHasKind(args);
      }
      hide Meaning, Execute, Receives;
      var c, received;
      inside, c, received, j, junk := ReceiveRequest(up, args, sp, payload);
      text := received;
      reply := NOT_FOUND;
      if inside {
        var r := Perform(c, received);
        down.Write(r.Encode());
        reply := r;
      }
    }
  }
}
