/** The client library talking to the server over one connection, from call to result. */
module Sessions {
  import opened Text
  import opened Decimal
  import opened Pipes
  import opened CStrings
  import opened Tokenizer
  import opened Requests
  import opened Payloads
  import opened Responses
  import opened Clients
  import opened Tables
  import opened Commands
  import opened Meanings
  import opened Servers
  import Fnv

  /** Longest body whose response fits the client's `int` sizes. */
  const MAX_BODY := MAX_RESPONSE - 100

  lemma SmallResponseIsValid(r: Response)
    requires r.code in {200, 400, 404, 409}
    requires NUL !in r.description && '\n' !in r.description && |r.description| <= 20
    requires (r.bodyType.Some? ==> r.bodyType.value <= 2) && |r.body| <= MAX_BODY
    ensures r.Valid()
  {
    PrintNatWidth3(r.code);
    assert Pow10(10) == 10000000000;
    PrintNatLength(|r.body|, 10);
    if r.bodyType.Some? {
      PrintNatLength(r.bodyType.value, 1);
    }
  }

  lemma PrintIntLength(n: Int64)
    ensures |PrintInt(n)| <= 20
  {
    assert Pow10(10) == 10000000000;
    assert Pow10(19) == 10000000000000000000;
    assert IsInt64(n);
    var v: int := n;
    var size: nat := if v < 0 then -v else v;
    assert size <= 9223372036854775808;
    PrintNatLength(size, 19);
  }

  lemma ValueResponseIsValid(d: Doubles, v: Value)
    requires (v.Str? ==> |v.bytes| <= MAX_BODY) && (v.Real? ==> |d.format(v.r)| <= MAX_BODY)
    ensures ValueResponse(d, v).Valid()
  {
    if v.Number? {
      PrintIntLength(v.decimal);
    }
    SmallResponseIsValid(ValueResponse(d, v));
  }

  /** The four tokens of a SET or ADD mean what the client intends. */
  lemma PutMeaning(overwrite: bool, key: string, kind: nat, payload: string)
    requires IsToken(key) && kind <= 2 && |payload| <= INT32_MAX
    ensures var args := PutArgs(overwrite, key, kind, payload);
      && IsRequest(args, SingleSpaces(4), Some(payload)) && SingleSpaces(4).Fits(args)
      && Meaning(args) == Put(key, PrintInt(kind), |payload|, overwrite)
      && TypeOf(PrintInt(kind)) == kind
  {
    hide Meaning, PrintInt, TypeOf, IsToken, AreTokens, Spacing.Fits, SingleSpaces;
    PutInterpreted(overwrite, key, kind, |payload|);
    PutTokens(overwrite, key, kind, payload);
  }

  lemma PutTokens(overwrite: bool, key: string, kind: nat, payload: string)
    requires IsToken(key)
    ensures var args := PutArgs(overwrite, key, kind, payload);
      AreTokens(args) && SingleSpaces(4).Fits(args)
  {
    hide PrintInt;
    assert PrintInt(kind) != "" && PrintInt(|payload|) != "";
  }

  function PutArgs(overwrite: bool, key: string, kind: nat, payload: string): seq<string> {
    [if overwrite then "SET" else "ADD", key, PrintInt(kind), PrintInt(|payload|)]
  }

  function KeyCommand(key: string, delete: bool): Command {
    if delete then Command.Del(key) else Command.Get(key)
  }

  lemma KeyMeaning(key: string, delete: bool)
    requires IsToken(key)
    ensures var args := [if delete then "DEL" else "GET", key];
      && IsRequest(args, SingleSpaces(2), None) && Meaning(args) == KeyCommand(key, delete)
      && !KeyCommand(key, delete).Put?
      && Encode(args, SingleSpaces(2), None) == (if delete then "DEL " else "GET ") + key + CRLF
  {
    var args := [if delete then "DEL" else "GET", key];
    KeyInterpreted(key, delete);
    hide Meaning;
    assert args[1..] == [key];
    assert SingleSpaces(2).gaps == [" "] && [" "][1..] == [];
    assert Line(args, [" "]) == args[0] + " " + Line([key], []);
  }

  lemma KeyInterpreted(key: string, delete: bool)
    ensures Meaning([if delete then "DEL" else "GET", key]) == KeyCommand(key, delete)
  {
    var args := [if delete then "DEL" else "GET", key];
    assert args[1..] == [key];
    assert Upper("GET") == "GET" && Upper("DEL") == "DEL";
    hide InterpretPut, InterpretCount;
  }

  /** The client reports success exactly when it got a value. */
  lemma KeyAnswer(d: Doubles, t: Table, clients: nat, key: string, delete: bool)
    requires t.slots != []
    ensures var r := Execute(d, t, clients, KeyCommand(key, delete), "").1;
      Decode(d, r).Some? <==> r.code == 200
  {
  }

  lemma SttMeaning()
    ensures IsRequest(["STT"], SingleSpaces(1), None) && Meaning(["STT"]) == Stt
  {
    assert Upper("STT") == "STT";
  }

  /** `atoll`, `memcpy` and `sstrstr` on the client's buffer see the response's body. */
  lemma BodyInMemory(memory: string, at: nat, body: string)
    requires at + |body| < |memory| && memory[at..at + |body|] == body && memory[at + |body|] == NUL
    ensures Atoll(memory[at..]) == Atoll(body) && CString(memory[at..]) == CString(body)
  {
    var end := memory[at + |body|..];
    assert memory[at..] == body + end;
    ReadIntToBreak(body, end);
    CStringToNul(body, end);
  }

  /** A client, the two directions of its connection, and the server. No request is outstanding. */
  class Session {
    const client: Client
    const server: Server
    const up: Pipe
    const down: Pipe

    constructor (client: Client, server: Server, up: Pipe, down: Pipe)
      ensures this.client == client && this.server == server && this.up == up && this.down == down
    {
      this.client, this.server, this.up, this.down := client, server, up, down;
    }

    ghost predicate Valid()
      reads client, server.table, server.table.slots, server.clients, server.clients.cells, up, down
    {
      client.Valid() && server.Valid() && up != down && up.bytes == "" && down.bytes == ""
    }

    ghost function State(): (t: Table)
      requires Valid()
      reads client, server.table, server.table.slots, server.clients, server.clients.cells, up, down
      ensures t.slots != []
    {
      server.table.View()
    }

    /** The answer's size is one that the client's `int` sizes can hold. */
    ghost predicate Fits(c: Command, payload: string)
      requires Valid() && (c.Put? ==> c.kind != "")
      reads client, server.table, server.table.slots, server.clients, server.clients.cells, up, down
    {
      Execute(server.doubles, State(), server.clients.count, c, payload).1.Valid()
    }

    /** The server's turn and then the client's `memuncached_recv`. Nothing is promised when the server's
        copy of the payload leaves the command's memory. */
    method Exchange(ghost args: seq<string>, ghost sp: Spacing, ghost payload: Option<string>, ghost c: Command)
      returns (ok: bool, inside: bool, ghost reply: Response, ghost text: string, ghost j: nat, ghost junk: string)
      requires client.Valid() && server.Valid() && up != down && down.bytes == ""
      requires IsRequest(args, sp, payload) && up.bytes == Encode(args, sp, payload)
      requires c == Meaning(args) && (c.Put? ==> c.kind != "")
      requires forall t :: (payload.None? ==> t == "") ==>
        Execute(server.doubles, server.table.View(), server.clients.count, c, t).1.Valid()
      modifies client, client.buffer, server.table, server.table.slots, up, down
      ensures client.buffer == old(client.buffer) || fresh(client.buffer)
      ensures Receives(args, sp, payload, j, junk, inside, text)
      ensures inside ==>
        && Valid() && client.Holds(reply) && reply.Valid() && (ok <==> reply.code == 200)
        && (State(), reply) == Execute(server.doubles, old(server.table.View()), server.clients.count, c, text)
    {
      hide Meaning, Execute, Recovered, IsInside, Block, Line, Response.Valid;
      inside, reply, text, j, junk := server.Serve(up, down, args, sp, payload);
      ok := false;
      if inside {
        var received, _, _ := client.Receive(down, reply);
        ok := received && client.code == 200;
      }
    }

    /** An exchange without a payload. */
    method Asked(ghost args: seq<string>, ghost sp: Spacing, ghost c: Command) returns (ok: bool, ghost reply: Response)
      requires client.Valid() && server.Valid() && up != down && down.bytes == ""
      requires IsRequest(args, sp, None) && up.bytes == Encode(args, sp, None) && c == Meaning(args) && !c.Put?
      requires Execute(server.doubles, server.table.View(), server.clients.count, c, "").1.Valid()
      modifies client, client.buffer, server.table, server.table.slots, up, down
      ensures Valid() && (client.buffer == old(client.buffer) || fresh(client.buffer))
      ensures (State(), reply) == Execute(server.doubles, old(server.table.View()), server.clients.count, c, "")
      ensures client.Holds(reply) && reply.Valid() && (ok <==> reply.code == 200)
    {
      hide Meaning, Execute, Receives, Response.Valid;
      var inside;
      ghost var text, j, junk;
      ok, inside, reply, text, j, junk := Exchange(args, sp, None, c);
      SafeReceived(args, sp, None, j, junk, inside, text);
    }

    /** `__memuncached_set` and `__memuncached_add`. */
    method Put(overwrite: bool, key: string, kind: int, payload: string)
      returns (ok: bool, inside: bool, ghost text: string, ghost j: nat, ghost junk: string)
      requires Valid() && IsToken(key) && |payload| <= MAX_BODY
      modifies client, client.buffer, server.table, server.table.slots, up, down
      ensures client.buffer == old(client.buffer) || fresh(client.buffer)
      ensures !(0 <= kind <= 2) ==> !ok && inside && Valid() && State() == old(State())
      ensures 0 <= kind <= 2 ==>
        && Receives(PutArgs(overwrite, key, kind, payload), SingleSpaces(4), Some(payload), j, junk, inside, text)
        && (IsSafe(payload) ==> inside && text == payload)
      ensures 0 <= kind <= 2 && inside ==>
        var c := Command.Put(key, PrintInt(kind), |payload|, overwrite);
        var (t, r) := Execute(server.doubles, old(State()), server.clients.count, c, text);
        Valid() && State() == t && (ok <==> r.code == 200)
    {
      hide Execute, IsRequest, IsSafe, PutArgs, Meaning, IsToken, Encode, Response.Valid, Receives;
      if kind < 0 || kind > 2 {
        ok, inside, text, j, junk := false, true, payload, 0, "";
        return;
      }
      ghost var args := PutArgs(overwrite, key, kind, payload);
      PutMeaning(overwrite, key, kind, payload);
      up.Write((if overwrite then "SET " else "ADD ") + key + " " + PrintInt(kind) + " " + PrintInt(|payload|) + CRLF);
      up.Write(payload);
      up.Write(CRLF);
      PutBytes(overwrite, key, kind, payload);
      ghost var c := Command.Put(key, PrintInt(kind), |payload|, overwrite);
      ghost var t, clients := server.table.View(), server.clients.count;
      forall text
        ensures Execute(server.doubles, t, clients, c, text).1.Valid()
      {
        PutReplyIsValid(server.doubles, t, clients, c, text);
      }
      ghost var reply;
      ok, inside, reply, text, j, junk := Exchange(args, SingleSpaces(4), Some(payload), c);
      if IsSafe(payload) {
        SafeReceived(args, SingleSpaces(4), Some(payload), j, junk, inside, text);
      }
    }

    /** `memuncached_get`, and `memuncached_del`, which also removes what it returns. */
    method Ask(key: string, delete: bool) returns (ok: bool, value: Option<Value>)
      requires Valid() && IsToken(key) && Fits(KeyCommand(key, delete), "")
      modifies client, client.buffer, server.table, server.table.slots, up, down
      ensures Valid() && (client.buffer == old(client.buffer) || fresh(client.buffer))
      ensures var (t, r) := Execute(server.doubles, old(State()), server.clients.count, KeyCommand(key, delete), "");
        State() == t && value == Decode(server.doubles, r)
      ensures ok <==> value.Some?
    {
      hide Execute, IsRequest, Meaning, IsToken, Response.Valid, Decode, Encode, KeyCommand;
      ghost var name := if delete then "DEL" else "GET";
      KeyMeaning(key, delete);
      KeyAnswer(server.doubles, server.table.View(), server.clients.count, key, delete);
      up.Write((if delete then "DEL " else "GET ") + key + CRLF);
      ghost var reply;
      ok, reply := Asked([name, key], SingleSpaces(2), KeyCommand(key, delete));
      value := None;
      if ok {
        value := ReadValue(reply);
      }
    }

    /** `memuncached_stt`: the two counts, parsed off the printed text. */
    method Stats() returns (ok: bool, clients: int, keys: int)
      requires Valid() && server.clients.count <= INT32_MAX && server.table.slots.Length <= INT32_MAX
      modifies client, client.buffer, server.table, server.table.slots, up, down
      ensures Valid() && (client.buffer == old(client.buffer) || fresh(client.buffer))
      ensures State() == old(State())
      ensures ok && clients == server.clients.count && keys == Occupied(old(State()).slots)
    {
      ghost var c, k := server.clients.count, Occupied(server.table.slots[..]);
      OccupiedBound(server.table.slots[..]);
      SttMeaning();
      StatisticsFit(c, k);
      assert Success(Statistics(c, k)).code == 200;
      hide Execute, IsRequest, Meaning, Response.Valid, Encode, Occupied, Statistics, Success;
      up.Write("STT" + CRLF);
      SttAnswer(server.doubles, server.table.View(), c);
      ghost var reply;
      ok, reply := Asked(["STT"], SingleSpaces(1), Stt);
      clients, keys := ReadCounts(reply, c, k);
    }

    method ReadCounts(ghost reply: Response, ghost c: nat, ghost k: nat) returns (clients: int, keys: int)
      requires client.Holds(reply) && reply == Success(Statistics(c, k)) && c <= INT32_MAX && k <= INT32_MAX
      ensures clients == c && keys == k
    {
      hide Statistics, Response.Encode, Response.Marked;
      var memory := client.buffer[client.body..];
      clients, keys := ReadStatistics(memory, client.bodySize, c, k);
    }

    /** How the client reads a value off its buffer. */
    method ReadValue(ghost reply: Response) returns (value: Option<Value>)
      requires client.Holds(reply) && reply.code == 200
      ensures value == Decode(server.doubles, reply)
    {
      var memory := client.buffer[..];
      BodyInMemory(memory, client.body, reply.body);
      if client.bodyType == 0 {
        value := Some(Number(Atoll(memory[client.body..])));
      } else if client.bodyType == 1 {
        value := Some(Real(server.doubles.atof(CString(memory[client.body..]))));
      } else if client.bodyType == 2 {
        value := Some(Str(memory[client.body..client.body + client.bodySize]));
      } else {
        value := None;
      }
    }
  }

  /** The two searches of `memuncached_stt` in the body, and `atoi` behind them. */
  method ReadStatistics(memory: string, size: nat, ghost c: nat, ghost k: nat) returns (clients: int, keys: int)
    requires c <= INT32_MAX && k <= INT32_MAX
    requires size < |memory| && memory[..size] == Statistics(c, k) && memory[size] == NUL
    ensures clients == c && keys == k
  {
    ghost var at := StatisticsInMemory(memory, size, c, k);
    hide Statistics, Atoi, OccursAt, FirstAt;
    var first := Sstrstr(memory, "Client-Count: ", size);
    SameFirst(memory, "Client-Count: ", size, first, 0);
    var second := Sstrstr(memory, "Key-Count: ", size);
    SameFirst(memory, "Key-Count: ", size, second, at);
    clients := Atoi(memory[first.value + 14..]);
    keys := Atoi(memory[second.value + 11..]);
  }

  /** The labels and the numbers behind them, in memory whose first `size` bytes are the statistics. */
  lemma StatisticsInMemory(memory: string, size: nat, c: nat, k: nat) returns (at: nat)
    requires c <= INT32_MAX && k <= INT32_MAX
    requires size < |memory| && memory[..size] == Statistics(c, k) && memory[size] == NUL
    ensures FirstAt(memory, "Client-Count: ", size, 0) && 14 <= |memory| && Atoi(memory[14..]) == c
    ensures FirstAt(memory, "Key-Count: ", size, at) && at + 11 <= |memory| && Atoi(memory[at + 11..]) == k
  {
    var body, rest := Statistics(c, k), memory[size..];
    at := 15 + |PrintInt(c)|;
    LabelsFound(c, k);
    assert memory == body + rest;
    StatisticsRead(c, k, rest);
    hide Statistics, PrintInt, Atoi;
    FoundInPrefix(memory, body, "Client-Count: ", 0);
    FoundInPrefix(memory, body, "Key-Count: ", at);
  }

  /** A search finds what comes first. */
  lemma SameFirst(s: string, needle: string, length: nat, found: Option<nat>, i: nat)
    requires length <= |s| && FirstAt(s, needle, length, i)
    requires found.Some? ==> FirstAt(s, needle, length, found.value)
    requires found.None? <==> forall k: nat :: !OccursAt(s, needle, length, k)
    ensures found == Some(i)
  {
  }

  lemma FoundInPrefix(memory: string, body: string, needle: string, i: nat)
    requires body <= memory && FirstAt(body, needle, |body|, i)
    ensures FirstAt(memory, needle, |body|, i)
  {
    forall k: nat
      ensures OccursAt(memory, needle, |body|, k) <==> OccursAt(body, needle, |body|, k)
    {
      if k + |needle| <= |body| {
        assert memory[k..k + |needle|] == body[k..k + |needle|];
      }
    }
  }

  lemma StatisticsFit(clients: nat, keys: nat)
    requires clients <= INT32_MAX && keys <= INT32_MAX
    ensures Success(Statistics(clients, keys)).Valid()
  {
    assert Pow10(10) == 10000000000;
    PrintNatLength(clients, 10);
    PrintNatLength(keys, 10);
    SmallResponseIsValid(Success(Statistics(clients, keys)));
  }

  lemma SttAnswer(d: Doubles, t: Table, clients: nat)
    requires t.slots != []
    ensures Encode(["STT"], SingleSpaces(1), None) == "STT" + CRLF
    ensures Execute(d, t, clients, Stt, "") == (t, Success(Statistics(clients, t.count)))
  {
  }

  lemma {:induction false} OccupiedBound(slots: seq<Option<Value>>)
    ensures Occupied(slots) <= |slots|
  {
    if slots != [] {
      OccupiedBound(slots[1..]);
    }
  }

  // ---------- end to end

  /** For every 64-bit number and every key, what is set is what a later get returns, however the bytes
      arrive in either direction. */
  method SetThenGetDecimal(session: Session, key: string, n: Int64) returns (ok: bool, value: Option<Value>)
    requires session.Valid() && IsToken(key)
    modifies session.client, session.client.buffer, session.server.table, session.server.table.slots,
             session.up, session.down
    ensures session.Valid()
    ensures ok && value == Some(Number(n))
  {
    NumberPayload(n);
    ghost var d, t, clients := session.server.doubles, session.State(), session.server.clients.count;
    DecimalPayload(d, n);
    SetGet(d, t, clients, key, 0, PrintInt(n), Number(n));
    hide Execute, IsSafe, IsToken, Response.Valid, Decode, PrintInt, PayloadValue, Receives, PutArgs, KeyCommand;
    var stored, _, _, _, _ := session.Put(true, key, 0, PrintInt(n));
    var got;
    got, value := session.Ask(key, false);
    ok := stored && got;
  }

  /** The same for every string that arrives unchanged. */
  method SetThenGetString(session: Session, key: string, text: string) returns (ok: bool, value: Option<Value>)
    requires session.Valid() && IsToken(key) && IsSafe(text) && |text| <= MAX_BODY
    modifies session.client, session.client.buffer, session.server.table, session.server.table.slots,
             session.up, session.down
    ensures session.Valid()
    ensures ok && value == Some(Str(text))
  {
    ghost var d, t, clients := session.server.doubles, session.State(), session.server.clients.count;
    StringPayload(d, text);
    SetGet(d, t, clients, key, 2, text, Str(text));
    hide Execute, IsSafe, IsToken, Response.Valid, Decode, PrintInt, PayloadValue, Receives, PutArgs, KeyCommand;
    var stored, _, _, _, _ := session.Put(true, key, 2, text);
    var got;
    got, value := session.Ask(key, false);
    ok := stored && got;
  }

  lemma NumberPayload(n: Int64)
    ensures IsSafe(PrintInt(n)) && |PrintInt(n)| <= 20
  {
    PrintIntLength(n);
  }

  /** A SET and a GET of one key: the answers, and what a client makes of the second. */
  lemma SetGet(d: Doubles, t: Table, clients: nat, key: string, kind: nat, payload: string, v: Value)
    requires t.slots != [] && PrintInt(kind) != "" && PayloadValue(d, PrintInt(kind), payload) == Some(v)
    requires !v.Real? && (v.Str? ==> |v.bytes| <= MAX_BODY)
    ensures var (t', r) := Execute(d, t, clients, Command.Put(key, PrintInt(kind), |payload|, true), payload);
      var answer := Execute(d, t', clients, KeyCommand(key, false), "").1;
      r == Success("") && answer.Valid() && Decode(d, answer) == Some(v)
  {
    var c := Command.Put(key, PrintInt(kind), |payload|, true);
    hide Execute, Decode, ValueResponse, Response.Valid, PrintInt, Fnv.Slot;
    PutExecuted(d, t, clients, c, payload, v);
    GetExecuted(d, Execute(d, t, clients, c, payload).0, clients, key);
    ValueResponseIsValid(d, v);
    DecodeValue(d, v);
  }

  lemma DecimalPayload(d: Doubles, n: Int64)
    ensures PayloadValue(d, PrintInt(0), PrintInt(n)) == Some(Number(n))
  {
    assert PrintInt(n) + "" == PrintInt(n);
    AtollPrinted(n, "");
    hide Atoll;
  }

  lemma StringPayload(d: Doubles, text: string)
    ensures PayloadValue(d, PrintInt(2), text) == Some(Str(text))
  {
  }

  lemma PutBytes(overwrite: bool, key: string, kind: nat, payload: string)
    ensures (if overwrite then "SET " else "ADD ") + key + " " + PrintInt(kind) + " " + PrintInt(|payload|) + CRLF
      + payload + CRLF
      == Encode(PutArgs(overwrite, key, kind, payload), SingleSpaces(4), Some(payload))
  {
    var name, k, n := if overwrite then "SET" else "ADD", PrintInt(kind), PrintInt(|payload|);
    FourTokens(name, key, k, n);
    assert SingleSpaces(4).gaps == [" ", " ", " "];
    hide PrintInt, Line;
    assert (if overwrite then "SET " else "ADD ") == name + " ";
  }

  /** No answer of this server fits the buffer that a new client starts with: its header alone is longer.
      So the first `memuncached_recv` always reallocates while it still needs `line_start`. */
  lemma FirstAnswerOutgrowsBuffer(d: Doubles, t: Table, clients: nat, c: Command, payload: string)
    requires CanExecute(t, c)
    ensures INITIAL_BUFFER_SIZE < Execute(d, t, clients, c, payload).1.LineStart(2)
  {
    var r := Execute(d, t, clients, c, payload).1;
    AnswerShape(d, t, clients, c, payload);
    hide Execute;
    PrintNatWidth3(r.code);
  }

  lemma AnswerShape(d: Doubles, t: Table, clients: nat, c: Command, payload: string)
    requires CanExecute(t, c)
    ensures var r := Execute(d, t, clients, c, payload).1;
      100 <= r.code <= 999 && |r.description| >= 2
  {
    hide Fnv.Slot, PrintInt, Statistics;
  }

  lemma PutReplyIsValid(d: Doubles, t: Table, clients: nat, c: Command, payload: string)
    requires CanExecute(t, c) && c.Put?
    ensures Execute(d, t, clients, c, payload).1.Valid()
  {
    SmallResponseIsValid(Success(""));
    SmallResponseIsValid(KEY_EXISTS);
    SmallResponseIsValid(BadRequest(INVALID_TYPE));
  }
}
