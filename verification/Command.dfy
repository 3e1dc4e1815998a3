/** What a request line asks for, and what executing it does to the table and answers. */
module Commands {
  import opened Text
  import opened Decimal
  import opened CStrings
  import opened Responses
  import opened Tables
  import Fnv

  // ---------- parsing

  datatype Command =
    | Put(key: string, kind: string, length: int, overwrite: bool)
    | Count(key: string, offset: Option<string>, initial: Option<string>, up: bool)
    | Get(key: string)
    | Del(key: string)
    | Stt
    | Ver
    | Bye
    | Bad(message: string)

  function Upper(s: string): (r: string)
    ensures |r| == |s|
  {
    if s == "" then "" else [if 'a' <= s[0] <= 'z' then (s[0] as int - 32) as char else s[0]] + Upper(s[1..])
  }

  /** A number without a minus sign. */
  predicate IsLength(s: string) {
    s != "" && s[0] != '-' && IsDecimalString(s)
  }

  predicate IsOffset(s: string) {
    s != "" && s[0] != '-' && IsRealString(s)
  }

  /** How many arguments `handle_command` asks for after the command's name. */
  function Wanted(name: string): nat {
    var n := Upper(name);
    if n == "ADD" || n == "SET" || n == "DEC" || n == "INC" then 3
    else if n == "DEL" || n == "GET" then 1
    else 0
  }

  function InterpretPut(arg: seq<Option<string>>, overwrite: bool): Command
    requires |arg| == 3
  {
    if arg[0].None? then Bad("The argument KEY is mandatory.")
    else if arg[1].None? then Bad("The argument TYPE is mandatory.")
    else if !IsLength(arg[1].value) then Bad("The argument TYPE must be positive integer.")
    else if arg[2].None? then Bad("The argument LENGTH is mandatory.")
    else if !IsLength(arg[2].value) then Bad("The argument LENGTH must be positive integer.")
    else Put(arg[0].value, arg[1].value, Atoi(arg[2].value), overwrite)
  }

  function InterpretCount(arg: seq<Option<string>>, up: bool): Command
    requires |arg| == 3
  {
    if arg[0].None? then Bad("The argument KEY is mandatory.")
    else if arg[1].Some? && !IsOffset(arg[1].value) then Bad("The argument OFFSET must be positive real number.")
    else if arg[2].Some? && !IsRealString(arg[2].value) then Bad("The argument INITIAL must be real number.")
    else Count(arg[0].value, arg[1], arg[2], up)
  }

  /** The command that a name and its next arguments form; `more` tells whether text is left. */
  function Interpret(name: string, arg: seq<Option<string>>, more: bool): Command
    requires |arg| == Wanted(name)
  {
    var n := Upper(name);
    if n == "ADD" then InterpretPut(arg, false)
    else if n == "BYE" then (if more then Bad("The command does not take arguments.") else Bye)
    else if n == "DEC" then InterpretCount(arg, false)
    else if n == "DEL" then (if arg[0].None? then Bad("The argument KEY is mandatory.") else Command.Del(arg[0].value))
    else if n == "INC" then InterpretCount(arg, true)
    else if n == "GET" then (if arg[0].None? then Bad("The argument KEY is mandatory.") else Command.Get(arg[0].value))
    else if n == "SET" then InterpretPut(arg, true)
    else if n == "STT" then (if more then Bad("The command does not take arguments.") else Stt)
    else if n == "VER" then (if more then Bad("The command does not take arguments.") else Ver)
    else Bad("Invalid command.")
  }

  // ---------- answers

  function Success(body: string): Response {
    Response(200, "OK", None, body)
  }

  function BadRequest(message: string): Response {
    Response(400, "BAD REQUEST", None, message)
  }

  const NOT_FOUND := Response(404, "NOT FOUND", None, "")
  const KEY_EXISTS := Response(409, "KEY EXISTS", None, "")
  const VERSION := "1.0"
  const INVALID_TYPE := "The argument LENGTH must be 0, 1, or 2."

  function ValueResponse(d: Doubles, v: Value): Response {
    match v
    case Number(n) => Response(200, "OK", Some(0), PrintInt(n))
    case Real(r) => Response(200, "OK", Some(1), d.format(r))
    case Str(bytes) => Response(200, "OK", Some(2), bytes)
  }

  function SlotResponse(d: Doubles, slot: Option<Value>): Response {
    if slot.None? then NOT_FOUND else ValueResponse(d, slot.value)
  }

  function Statistics(clients: nat, keys: int): string {
    "Client-Count: " + PrintInt(clients) + "\nKey-Count: " + PrintInt(keys)
  }

  // ---------- execution

  /** The type is the first byte of its argument, as an `unsigned char` above '0'. */
  function TypeOf(kind: string): nat
    requires kind != ""
  {
    (kind[0] as int - '0' as int) % 256
  }

  function PayloadValue(d: Doubles, kind: string, payload: string): Option<Value>
    requires kind != ""
  {
    if TypeOf(kind) == 0 then Some(Number(Atoll(payload)))
    else if TypeOf(kind) == 1 then Some(Real(d.atof(CString(payload))))
    else if TypeOf(kind) == 2 then Some(Str(payload))
    else None
  }

  function InitialValue(d: Doubles, initial: Option<string>): Value {
    if initial.None? then Number(1)
    else if |initial.value| < 2 || initial.value[1] != '.' then Number(Atoll(initial.value))
    else Real(d.atof(initial.value))
  }

  predicate HasKey(c: Command) {
    c.Put? || c.Count? || c.Get? || c.Del?
  }

  function SlotOf(t: Table, c: Command): (i: nat)
    requires t.slots != [] && HasKey(c)
    ensures i < |t.slots|
  {
    Fnv.Slot(c.key, |t.slots|)
  }

  function ExecutePut(d: Doubles, t: Table, i: nat, c: Command, payload: string): (Table, Response)
    requires i < |t.slots| && c.Put? && c.kind != ""
  {
    if !c.overwrite && t.slots[i].Some? then (t, KEY_EXISTS)
    else
      var erased, v := Erase(t, i), PayloadValue(d, c.kind, payload);
      if v.None? then (erased, BadRequest(INVALID_TYPE)) else (Store(erased, i, v.value), Success(""))
  }

  function ExecuteCount(d: Doubles, t: Table, i: nat, c: Command): (Table, Response)
    requires i < |t.slots| && c.Count?
  {
    var (bumped, r) := Bumped(d, t, i, if c.offset.None? then 1.0 else d.atof(c.offset.value), c.up);
    var t' := if r.None? then Store(bumped, i, InitialValue(d, c.initial)) else bumped;
    (t', SlotResponse(d, t'.slots[i]))
  }

  predicate CanExecute(t: Table, c: Command) {
    t.slots != [] && (c.Put? ==> c.kind != "")
  }

  function Execute(d: Doubles, t: Table, clients: nat, c: Command, payload: string): (r: (Table, Response))
    requires CanExecute(t, c)
    ensures |r.0.slots| == |t.slots|
  {
    match c
    case Put(_, _, _, _) => ExecutePut(d, t, SlotOf(t, c), c, payload)
    case Count(_, _, _, _) => ExecuteCount(d, t, SlotOf(t, c), c)
    case Get(_) => (t, SlotResponse(d, t.slots[SlotOf(t, c)]))
    case Del(_) => (Erase(t, SlotOf(t, c)), SlotResponse(d, t.slots[SlotOf(t, c)]))
    case Stt => (t, Success(Statistics(clients, t.count)))
    case Ver => (t, Success(VERSION))
    case Bye => (t, Success("bye."))
    case Bad(m) => (t, BadRequest(m))
  }

  // ---------- whole runs

  datatype Event = Event(command: Command, payload: string, clients: nat)

  ghost predicate CanRun(t: Table, events: seq<Event>) {
    forall i :: 0 <= i < |events| ==> CanExecute(t, events[i].command)
  }

  /** The table after the first `k` events. */
  ghost function StateAt(d: Doubles, t: Table, events: seq<Event>, k: nat): (r: Table)
    requires CanRun(t, events) && k <= |events|
    ensures |r.slots| == |t.slots|
  {
    if k == 0 then t
    else
      var s, e := StateAt(d, t, events, k - 1), events[k - 1];
      Execute(d, s, e.clients, e.command, e.payload).0
  }

  ghost function ReplyAt(d: Doubles, t: Table, events: seq<Event>, k: nat): Response
    requires CanRun(t, events) && k < |events|
  {
    var e := events[k];
    Execute(d, StateAt(d, t, events, k), e.clients, e.command, e.payload).1
  }

  ghost predicate CountIsRight(t: Table) {
    t.count == Occupied(t.slots)
  }

  lemma StoreCounts(t: Table, i: nat, v: Value)
    requires i < |t.slots| && CountIsRight(t)
    ensures CountIsRight(Store(t, i, v)) && CountIsRight(Erase(t, i))
  {
    OccupiedUpdate(t.slots, i, Some(v));
    OccupiedUpdate(t.slots, i, None);
  }

  lemma ExecuteCounts(d: Doubles, t: Table, clients: nat, c: Command, payload: string)
    requires CanExecute(t, c) && CountIsRight(t)
    ensures CountIsRight(Execute(d, t, clients, c, payload).0)
  {
    hide Fnv.Slot, Occupied, Statistics, SlotResponse, ExecutePut, ExecuteCount, CountIsRight;
    if HasKey(c) {
      var i := SlotOf(t, c);
      StoreCounts(t, i, Number(0));
      if c.Put? {
        PutCounts(d, t, i, c, payload);
      } else if c.Count? {
        CountCounts(d, t, i, c);
      }
    }
  }

  lemma PutCounts(d: Doubles, t: Table, i: nat, c: Command, payload: string)
    requires i < |t.slots| && c.Put? && c.kind != "" && CountIsRight(t)
    ensures CountIsRight(ExecutePut(d, t, i, c, payload).0)
  {
    hide Occupied, PayloadValue, CountIsRight;
    StoreCounts(t, i, Number(0));
    var v := PayloadValue(d, c.kind, payload);
    if v.Some? {
      StoreCounts(Erase(t, i), i, v.value);
    }
  }

  lemma CountCounts(d: Doubles, t: Table, i: nat, c: Command)
    requires i < |t.slots| && c.Count? && CountIsRight(t)
    ensures CountIsRight(ExecuteCount(d, t, i, c).0)
  {
    hide Occupied, InitialValue, Counted, SlotResponse;
    StoreCounts(t, i, InitialValue(d, c.initial));
    var r := Bumped(d, t, i, if c.offset.None? then 1.0 else d.atof(c.offset.value), c.up).1;
    OccupiedUpdate(t.slots, i, r);
  }

  /** In every reachable state the counter is the number of occupied slots, and STT reports it. */
  lemma {:induction false} CountConserved(d: Doubles, t: Table, events: seq<Event>, k: nat)
    requires CanRun(t, events) && k <= |events| && CountIsRight(t)
    ensures CountIsRight(StateAt(d, t, events, k))
    ensures k < |events| && events[k].command.Stt? ==>
      ReplyAt(d, t, events, k) == Success(Statistics(events[k].clients, Occupied(StateAt(d, t, events, k).slots)))
  {
    hide Statistics, Occupied, ExecutePut, ExecuteCount, SlotOf;
    if k > 0 {
      CountConserved(d, t, events, k - 1);
      var s, e := StateAt(d, t, events, k - 1), events[k - 1];
      ExecuteCounts(d, s, e.clients, e.command, e.payload);
    }
  }

  /** 409 is the answer to an ADD on an occupied slot, to nothing else, and it changes nothing. */
  lemma ConflictIffOccupied(d: Doubles, t: Table, clients: nat, c: Command, payload: string)
    requires CanExecute(t, c)
    ensures var (t', r) := Execute(d, t, clients, c, payload);
      && (r.code == 409 <==> c.Put? && !c.overwrite && t.slots[SlotOf(t, c)].Some?)
      && (r.code == 409 ==> t' == t)
  {
  }

  ghost predicate AddsTo(d: Doubles, t: Table, events: seq<Event>, k: nat, slot: nat)
    requires CanRun(t, events) && k < |events|
  {
    var c := events[k].command;
    c.Put? && !c.overwrite && SlotOf(t, c) == slot && ReplyAt(d, t, events, k).code == 200
  }

  /** Only a DEL of the slot or a SET on it that is rejected for its type. */
  ghost predicate Frees(d: Doubles, t: Table, events: seq<Event>, k: nat, slot: nat)
    requires CanRun(t, events) && k < |events|
  {
    var c := events[k].command;
    && HasKey(c) && SlotOf(t, c) == slot
    && (c.Del? || (c.Put? && c.overwrite && ReplyAt(d, t, events, k).code == 400))
  }

  /** Nothing else empties an occupied slot. */
  lemma StaysOccupied(d: Doubles, t: Table, events: seq<Event>, k: nat, slot: nat)
    requires CanRun(t, events) && k < |events| && slot < |t.slots|
    requires StateAt(d, t, events, k).slots[slot].Some? && !Frees(d, t, events, k, slot)
    ensures StateAt(d, t, events, k + 1).slots[slot].Some?
  {
    var s, e := StateAt(d, t, events, k), events[k];
    assert StateAt(d, t, events, k + 1) == Execute(d, s, e.clients, e.command, e.payload).0;
    assert HasKey(e.command) ==> SlotOf(t, e.command) == SlotOf(s, e.command);
    hide StateAt, Execute, SlotOf;
    StepKeeps(d, s, e.clients, e.command, e.payload, slot);
  }

  lemma StepKeeps(d: Doubles, t: Table, clients: nat, c: Command, payload: string, slot: nat)
    requires CanExecute(t, c) && slot < |t.slots| && t.slots[slot].Some?
    requires HasKey(c) && SlotOf(t, c) == slot ==>
      !c.Del? && !(c.Put? && c.overwrite && Execute(d, t, clients, c, payload).1.code == 400)
    ensures Execute(d, t, clients, c, payload).0.slots[slot].Some?
  {
    if !HasKey(c) || SlotOf(t, c) != slot {
      OtherSlotsStay(d, t, clients, c, payload, slot);
    }
    hide Fnv.Slot, InitialValue, ValueResponse, Statistics, Counted;
  }

  lemma {:induction false} StaysOccupiedUntil(d: Doubles, t: Table, events: seq<Event>, i: nat, j: nat, slot: nat)
    requires CanRun(t, events) && i <= j <= |events| && slot < |t.slots|
    requires StateAt(d, t, events, i).slots[slot].Some?
    requires forall k :: i <= k < j ==> !Frees(d, t, events, k, slot)
    ensures StateAt(d, t, events, j).slots[slot].Some?
    decreases j - i
  {
    hide StateAt, Frees;
    if i < j {
      StaysOccupied(d, t, events, i, slot);
      StaysOccupiedUntil(d, t, events, i + 1, j, slot);
    }
  }

  /** Between two successful ADDs on one slot, something freed it. */
  lemma AddIsExclusive(d: Doubles, t: Table, events: seq<Event>, i: nat, j: nat, slot: nat)
    requires CanRun(t, events) && i < j < |events| && slot < |t.slots|
    requires AddsTo(d, t, events, i, slot) && AddsTo(d, t, events, j, slot)
    ensures exists k :: i < k < j && Frees(d, t, events, k, slot)
  {
    hide *;
    AddNeedsFreeSlot(d, t, events, i, slot);
    AddNeedsFreeSlot(d, t, events, j, slot);
    if forall k :: i < k < j ==> !Frees(d, t, events, k, slot) {
      StaysOccupiedUntil(d, t, events, i + 1, j, slot);
    }
  }

  lemma AddNeedsFreeSlot(d: Doubles, t: Table, events: seq<Event>, k: nat, slot: nat)
    requires CanRun(t, events) && k < |events| && slot < |t.slots| && AddsTo(d, t, events, k, slot)
    ensures StateAt(d, t, events, k).slots[slot].None? && StateAt(d, t, events, k + 1).slots[slot].Some?
  {
    var s, e := StateAt(d, t, events, k), events[k];
    assert SlotOf(t, e.command) == SlotOf(s, e.command);
    assert StateAt(d, t, events, k + 1) == Execute(d, s, e.clients, e.command, e.payload).0;
    ConflictIffOccupied(d, s, e.clients, e.command, e.payload);
    hide Fnv.Slot, StateAt, Statistics, ExecuteCount;
  }

  // ---------- what a client reads back

  /** `memuncached_get` and `memuncached_del`: the value a response carries. */
  function Decode(d: Doubles, r: Response): Option<Value> {
    if r.code != 200 then None
    else
      var bodyType := if r.bodyType.None? then 0 else r.bodyType.value;
      if bodyType == 0 then Some(Number(Atoll(r.body)))
      else if bodyType == 1 then Some(Real(d.atof(CString(r.body))))
      else if bodyType == 2 then Some(Str(r.body))
      else None
  }

  /** Every stored number and string is read back as it is. */
  lemma DecodeValue(d: Doubles, v: Value)
    requires !v.Real?
    ensures Decode(d, ValueResponse(d, v)) == Some(v)
  {
    if v.Number? {
      assert PrintInt(v.decimal) + "" == PrintInt(v.decimal);
      AtollPrinted(v.decimal, "");
    }
  }

  /** After a successful SET or ADD, a GET of any key yields that value if the keys share a slot, and
      otherwise what it yielded before. */
  lemma PutThenGet(d: Doubles, t: Table, clients: nat, put: Command, payload: string, key: string)
    requires CanExecute(t, put) && put.Put? && (put.overwrite || t.slots[SlotOf(t, put)].None?)
    requires TypeOf(put.kind) == 0 || TypeOf(put.kind) == 2
    ensures var (t', r) := Execute(d, t, clients, put, payload);
      && r == Success("")
      && Decode(d, Execute(d, t', clients, Command.Get(key), "").1)
         == if Fnv.Slot(key, |t.slots|) != SlotOf(t, put) then Decode(d, Execute(d, t, clients, Command.Get(key), "").1)
            else if TypeOf(put.kind) == 0 then Some(Number(Atoll(payload)))
            else Some(Str(payload))
  {
    var v := if TypeOf(put.kind) == 0 then Number(Atoll(payload)) else Str(payload);
    assert PayloadValue(d, put.kind, payload) == Some(v);
    hide Execute, Decode, ValueResponse, Fnv.Slot, Atoll, TypeOf, PayloadValue;
    PutExecuted(d, t, clients, put, payload, v);
    GetExecuted(d, Execute(d, t, clients, put, payload).0, clients, key);
    GetExecuted(d, t, clients, key);
    DecodeValue(d, v);
  }

  lemma GetExecuted(d: Doubles, t: Table, clients: nat, key: string)
    requires t.slots != []
    ensures Execute(d, t, clients, Command.Get(key), "") == (t, SlotResponse(d, t.slots[Fnv.Slot(key, |t.slots|)]))
  {
  }

  lemma PutExecuted(d: Doubles, t: Table, clients: nat, c: Command, payload: string, v: Value)
    requires CanExecute(t, c) && c.Put? && PayloadValue(d, c.kind, payload) == Some(v)
    ensures var ((t', r), i) := (Execute(d, t, clients, c, payload), SlotOf(t, c));
      if c.overwrite || t.slots[i].None? then t'.slots == t.slots[i := Some(v)] && r == Success("")
      else t' == t && r == KEY_EXISTS
  {
    hide PayloadValue, Fnv.Slot;
  }

  /** A SET whose type is none of the three is refused, and has removed the value all the same. */
  lemma RejectedSetErases(d: Doubles, t: Table, clients: nat, c: Command, payload: string)
    requires CanExecute(t, c) && c.Put? && c.overwrite
    ensures var (t', r) := Execute(d, t, clients, c, payload);
      && (r.code == 400 <==> TypeOf(c.kind) > 2)
      && (r.code == 400 ==> t'.slots[SlotOf(t, c)].None?)
  {
    hide Fnv.Slot;
  }

  /** No command touches a slot other than its key's, and those without a key touch none. */
  lemma OtherSlotsStay(d: Doubles, t: Table, clients: nat, c: Command, payload: string, k: nat)
    requires CanExecute(t, c) && k < |t.slots| && (HasKey(c) ==> k != SlotOf(t, c))
    ensures Execute(d, t, clients, c, payload).0.slots[k] == t.slots[k]
  {
    hide Fnv.Slot, InitialValue, PayloadValue, SlotResponse;
  }

  // ---------- INC and DEC

  /** Where there is no number, INC and DEC store the initial value, by default 1, and answer it. */
  lemma CountInserts(d: Doubles, t: Table, clients: nat, c: Command, n: Int64)
    requires CanExecute(t, c) && c.Count?
    requires if c.initial.None? then n == 1 else !IsPointedAt1(c.initial.value) && n == Atoll(c.initial.value)
    requires t.slots[SlotOf(t, c)].None? || t.slots[SlotOf(t, c)].value.Str?
    ensures var (t', r) := Execute(d, t, clients, c, "");
      t'.slots[SlotOf(t, c)] == Some(Number(n)) && Decode(d, r) == Some(Number(n))
  {
    assert InitialValue(d, c.initial) == Number(n);
    CountFallsBack(d, t, SlotOf(t, c), c);
    hide Fnv.Slot, Decode, ValueResponse, PrintInt, Atoll, InitialValue, ExecuteCount, ExecutePut, IsPointedAt1;
    DecodeValue(d, Number(n));
  }

  lemma CountFallsBack(d: Doubles, t: Table, i: nat, c: Command)
    requires i < |t.slots| && c.Count? && (t.slots[i].None? || t.slots[i].value.Str?)
    ensures var v := InitialValue(d, c.initial);
      ExecuteCount(d, t, i, c) == (Store(t, i, v), ValueResponse(d, v))
  {
    hide InitialValue, ValueResponse;
  }

  /** The second byte is a dot. */
  predicate IsPointedAt1(text: string) {
    |text| >= 2 && text[1] == '.'
  }

  /** An initial value is kept as a real exactly when its second byte is the dot; otherwise the number in
      front of the dot is stored, or the whole number where there is no dot. */
  lemma FractionalInitial(d: Doubles, text: string)
    requires IsRealString(text)
    ensures var v := InitialValue(d, Some(text));
      && (v.Real? <==> IsPointedAt1(text))
      && v == if v.Real? then Real(d.atof(text)) else Number(Atoll(text[..IndexOf(text, '.')]))
  {
    AtollToDot(text);
    hide Atoll, IndexOf, IsPointed;
  }

  lemma AtollToDot(text: string)
    ensures Atoll(text) == Atoll(text[..IndexOf(text, '.')])
  {
    var dot := IndexOf(text, '.');
    var number, rest := text[..dot], text[dot..];
    assert text == number + rest;
    hide IndexOf, ReadInt;
    if rest != "" {
      ReadIntToBreak(number, rest);
    } else {
      assert text == number;
    }
  }

  /** A sign moves the dot: these initial values are accepted, and lose their fractions. */
  lemma SignedInitial(d: Doubles, key: string, up: bool, sign: char)
    requires sign == '-' || sign == '+'
    ensures var text := [sign] + "1.5";
      && InterpretCount([Some(key), None, Some(text)], up) == Count(key, None, Some(text), up)
      && InitialValue(d, Some(text)) == Number(if sign == '-' then -1 else 1)
  {
    var text := [sign] + "1.5";
    assert AfterSign(text) == "1.5" && IsPointed("1.5", 1);
    assert text[..2] == [sign] + "1" && text[2..] == ".5" && text == text[..2] + text[2..];
    ReadIntToBreak(text[..2], text[2..]);
    assert text[..2][1..] == "1" && "1"[1..] == "";
    assert ReadDigits("1", 0) == ReadDigits("", 1) == 1;
    assert text[1] == '1';
  }

  ghost function CountRun(d: Doubles, t: Table, key: string, changes: seq<Change>): (r: Table)
    requires t.slots != []
    ensures |r.slots| == |t.slots|
    decreases |changes|
  {
    if changes == [] then t
    else
      var c := Count(key, changes[0].offset, None, changes[0].up);
      CountRun(d, Execute(d, t, 0, c, "").0, key, changes[1..])
  }

  /** What a key's slot holds, and the slots with something else there. */
  function At(t: Table, key: string): Option<Value>
    requires t.slots != []
  {
    t.slots[Fnv.Slot(key, |t.slots|)]
  }

  function With(t: Table, key: string, v: Option<Value>): seq<Option<Value>>
    requires t.slots != []
  {
    t.slots[Fnv.Slot(key, |t.slots|) := v]
  }

  lemma AtWith(t: Table, key: string, v: Option<Value>, t': Table, w: Option<Value>)
    requires t.slots != [] && t'.slots == With(t, key, v)
    ensures |t'.slots| == |t.slots| && At(t', key) == v && With(t', key, w) == With(t, key, w)
    ensures With(t, key, At(t, key)) == t.slots
  {
  }

  /** INC and DEC commands on one key change its slot as the same changes one after another on its value. */
  lemma {:induction false} CountRunFollows(d: Doubles, t: Table, key: string, v: Value, changes: seq<Change>)
    requires t.slots != [] && At(t, key) == Some(v) && CountAll(d, v, changes).Some?
    ensures CountRun(d, t, key, changes).slots == With(t, key, CountAll(d, v, changes))
    decreases |changes|
  {
    hide Counted, At, With, Change.Real, Execute;
    AtWith(t, key, None, Table(With(t, key, None), 0), None);
    if changes != [] {
      var c := changes[0];
      var next := Counted(d, v, c.Real(d), c.up);
      CountStep(d, t, key, v, c);
      var t' := Execute(d, t, 0, Count(key, c.offset, None, c.up), "").0;
      AtWith(t, key, next, t', CountAll(d, v, changes));
      CountRunFollows(d, t', key, next.value, changes[1..]);
    }
  }

  lemma CountStep(d: Doubles, t: Table, key: string, v: Value, c: Change)
    requires t.slots != [] && At(t, key) == Some(v)
    requires Counted(d, v, c.Real(d), c.up).Some?
    ensures Execute(d, t, 0, Count(key, c.offset, None, c.up), "").0.slots
         == With(t, key, Counted(d, v, c.Real(d), c.up))
  {
    hide Fnv.Slot, Counted;
  }

  /** Hence a run of whole INCs and DECs on a number leaves it plus the INCs minus the DECs. */
  lemma CountRunAdds(d: Doubles, t: Table, key: string, start: Int64, changes: seq<Change>)
    requires t.slots != [] && At(t, key) == Some(Number(start))
    requires StaysExact(start, changes) && d.ExactOnIntegers()
    ensures IsInt64(start + Sum(changes))
    ensures CountRun(d, t, key, changes).slots == With(t, key, Some(Number(start + Sum(changes))))
  {
    CountersAdd(d, start, changes);
    hide *;
    CountRunFollows(d, t, key, Number(start), changes);
  }

  // ---------- statistics

  /** The client finds both labels in the text that STT prints, at their first occurrence. */
  lemma LabelsFound(clients: nat, keys: nat)
    ensures var body := Statistics(clients, keys);
      && FirstAt(body, "Client-Count: ", |body|, 0)
      && FirstAt(body, "Key-Count: ", |body|, 15 + |PrintInt(clients)|)
  {
    var body, c, k := Statistics(clients, keys), PrintInt(clients), PrintInt(keys);
    var at := 15 + |c|;
    var rest := "\nKey-Count: " + k;
    assert body == "Client-Count: " + c + rest;
    assert body[0..14] == "Client-Count: ";
    assert rest[1..12] == "Key-Count: ";
    assert body[at..at + 11] == rest[1..12];
    assert OccursAt(body, "Client-Count: ", |body|, 0);
    forall i | 0 <= i < at
      ensures !OccursAt(body, "Key-Count: ", |body|, i)
    {
      assert body[i] != 'K' by {
        if i < 14 {
          assert body[i] == "Client-Count: "[i];
        } else if i < 14 + |c| {
          assert body[i] == c[i - 14];
        } else {
          assert body[i] == rest[0];
        }
      }
      assert i + 11 <= |body| ==> body[i..i + 11][0] == body[i];
    }
  }

  /** `atoi` behind the labels yields the two counts. */
  lemma StatisticsRead(clients: nat, keys: nat, rest: string)
    requires clients <= INT32_MAX && keys <= INT32_MAX && EndsNumber(rest)
    ensures var memory := Statistics(clients, keys) + rest;
      && Atoi(memory[14..]) == clients
      && Atoi(memory[15 + |PrintInt(clients)| + 11..]) == keys
  {
    var memory, c, k := Statistics(clients, keys) + rest, PrintInt(clients), PrintInt(keys);
    var behind := "\nKey-Count: " + k + rest;
    assert memory == "Client-Count: " + c + behind;
    assert memory[14..] == c + behind;
    AtoiPrinted(clients, behind);
    assert memory[15 + |c| + 11..] == k + rest;
    AtoiPrinted(keys, rest);
  }
}
