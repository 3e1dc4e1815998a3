/** Whole runs of calls on one connection, against a map that is keyed by slot. */
module Runs {
  import opened Text
  import opened Decimal
  import opened Tokenizer
  import opened Requests
  import opened Payloads
  import opened Responses
  import opened Tables
  import opened Commands
  import opened Meanings
  import opened Servers
  import opened Sessions
  import Fnv

  datatype Call =
    | Put(overwrite: bool, key: string, kind: int, payload: string)
    | Ask(key: string, delete: bool)
    | Stats

  datatype Answer = Stored(ok: bool) | Value(value: Option<Tables.Value>) | Counts(clients: int, keys: int)

  predicate CanCall(call: Call) {
    match call
    case Put(_, key, _, payload) => IsToken(key) && |payload| <= MAX_BODY
    case Ask(key, _) => IsToken(key)
    case Stats => true
  }

  /** Whether a call sends a payload at all. */
  predicate Sends(call: Call) {
    call.Put? && 0 <= call.kind <= 2
  }

  /** The server may receive this call's request with this text, or lose it, depending on `inside`. */
  ghost predicate MayReceive(call: Call, inside: bool, text: string)
    requires Sends(call) && CanCall(call)
  {
    var args, sp := PutArgs(call.overwrite, call.key, call.kind, call.payload), SingleSpaces(4);
    sp.Fits(args) && exists j, junk :: Receives(args, sp, Some(call.payload), j, junk, inside, text)
  }

  /** What reaches the server of a call: all of it, but for a payload that the last chunk damaged. */
  ghost predicate Hears(call: Call, heard: Call)
    requires CanCall(call)
  {
    if Sends(call) then heard.Put? && heard == call.(payload := heard.payload) && MayReceive(call, true, heard.payload)
    else heard == call
  }

  ghost predicate IsLost(call: Call)
    requires CanCall(call)
  {
    Sends(call) && exists text :: MayReceive(call, false, text)
  }

  predicate IsSafeCall(call: Call) {
    call.Put? ==> IsSafe(call.payload)
  }

  /** Safe payloads are heard as they were sent. */
  lemma SafeHeard(call: Call, heard: Call)
    requires CanCall(call) && IsSafeCall(call)
    ensures Hears(call, heard) ==> heard == call
    ensures !IsLost(call)
  {
    if Sends(call) {
      var args, sp := PutArgs(call.overwrite, call.key, call.kind, call.payload), SingleSpaces(4);
      hide Receives, IsSafe, PutArgs, SingleSpaces, Spacing.Fits;
      forall j, junk, inside, text | sp.Fits(args) && Receives(args, sp, Some(call.payload), j, junk, inside, text)
        ensures inside && text == call.payload
      {
        SafeReceived(args, sp, Some(call.payload), j, junk, inside, text);
      }
    }
  }

  lemma HeardIsNoLonger(call: Call, text: string)
    requires Sends(call) && CanCall(call) && MayReceive(call, true, text)
    ensures |text| <= |call.payload|
  {
    hide HeaderRest, Skip, IsInside, Line, Block;
  }

  // ---------- the map's account of a call

  /** The value that a payload of kind 0, 1 or 2 spells. */
  function Spelled(d: Doubles, kind: int, payload: string): Tables.Value {
    if kind == 0 then Number(Atoll(payload))
    else if kind == 1 then Real(d.atof(CString(payload)))
    else Str(payload)
  }

  /** A value on its way to a client: a real travels as its printed decimals. */
  function Sent(d: Doubles, v: Tables.Value): Tables.Value {
    if v.Real? then Real(d.atof(CString(d.format(v.r)))) else v
  }

  ghost function CallStep(d: Doubles, size: nat, clients: nat, m: map<nat, Tables.Value>, call: Call)
    : (map<nat, Tables.Value>, Answer)
    requires size > 0
  {
    match call
    case Put(overwrite, key, kind, payload) =>
      var i := Fnv.Slot(key, size);
      if !(0 <= kind <= 2) || (!overwrite && i in m) then (m, Stored(false))
      else (m[i := Spelled(d, kind, payload)], Stored(true))
    case Ask(key, delete) =>
      var i := Fnv.Slot(key, size);
      (if delete then m - {i} else m, Value(if i in m then Some(Sent(d, m[i])) else None))
    case Stats => (m, Counts(clients, |m|))
  }

  ghost function CallAnswers(d: Doubles, size: nat, clients: nat, m: map<nat, Tables.Value>,
                             calls: seq<Call>)
    : seq<Answer>
    requires size > 0
    decreases |calls|
  {
    if calls == [] then []
    else
      var (m', a) := CallStep(d, size, clients, m, calls[0]);
      [a] + CallAnswers(d, size, clients, m', calls[1..])
  }

  /** The map they lead to. */
  ghost function CallsState(d: Doubles, size: nat, clients: nat, m: map<nat, Tables.Value>, calls: seq<Call>)
    : map<nat, Tables.Value>
    requires size > 0
    decreases |calls|
  {
    if calls == [] then m else CallsState(d, size, clients, CallStep(d, size, clients, m, calls[0]).0, calls[1..])
  }

  lemma {:induction false} CallsAppend(d: Doubles, size: nat, clients: nat, m: map<nat, Tables.Value>,
                                       calls: seq<Call>, call: Call)
    requires size > 0
    ensures var (m', a) := CallStep(d, size, clients, CallsState(d, size, clients, m, calls), call);
      && CallsState(d, size, clients, m, calls + [call]) == m'
      && CallAnswers(d, size, clients, m, calls + [call]) == CallAnswers(d, size, clients, m, calls) + [a]
    decreases |calls|
  {
    hide CallStep;
    if calls == [] {
      assert calls + [call] == [call] && [call][1..] == [];
    } else {
      assert (calls + [call])[1..] == calls[1..] + [call];
      CallsAppend(d, size, clients, CallStep(d, size, clients, m, calls[0]).0, calls[1..], call);
    }
  }

  /** The map a table stands for. */
  ghost function Contents(slots: seq<Option<Tables.Value>>): map<nat, Tables.Value> {
    map i: nat | i < |slots| && slots[i].Some? :: slots[i].value
  }

  lemma {:induction false} OccupiedIsSize(slots: seq<Option<Tables.Value>>)
    ensures |Contents(slots)| == Occupied(slots)
  {
    if slots == [] {
      assert Contents(slots) == map[];
    } else {
      var n := |slots| - 1;
      var init, m := slots[..n], Contents(slots[..n]);
      OccupiedIsSize(init);
      assert slots == init + [slots[n]];
      OccupiedAppend(init, slots[n]);
      if slots[n].Some? {
        assert Contents(slots) == m[n := slots[n].value];
      } else {
        assert Contents(slots) == m;
      }
    }
  }

  lemma {:induction false} OccupiedAppend(slots: seq<Option<Tables.Value>>, v: Option<Tables.Value>)
    ensures Occupied(slots + [v]) == Occupied(slots) + if v.Some? then 1 else 0
  {
    if slots == [] {
      assert [v][1..] == [];
    } else {
      assert (slots + [v])[1..] == slots[1..] + [v];
      OccupiedAppend(slots[1..], v);
    }
  }

  // ---------- one call

  /** Every stored text and every printed real fits a response. */
  ghost predicate AllFit(d: Doubles, slots: seq<Option<Tables.Value>>) {
    && (forall r: real :: |d.format(r)| <= MAX_BODY)
    && forall i :: 0 <= i < |slots| && slots[i].Some? && slots[i].value.Str? ==> |slots[i].value.bytes| <= MAX_BODY
  }

  lemma PutRefines(d: Doubles, t: Table, clients: nat, overwrite: bool, key: string, kind: nat, length: nat,
                   payload: string)
    requires t.slots != [] && kind <= 2 && AllFit(d, t.slots) && |payload| <= MAX_BODY
    ensures var (t', r) := Execute(d, t, clients, Command.Put(key, PrintInt(kind), length, overwrite), payload);
      && (Contents(t'.slots), Stored(r.code == 200))
         == CallStep(d, |t.slots|, clients, Contents(t.slots), Call.Put(overwrite, key, kind, payload))
      && AllFit(d, t'.slots)
  {
    hide Execute, PrintInt, Fnv.Slot, Spelled;
    var i := Fnv.Slot(key, |t.slots|);
    var v := Spelled(d, kind, payload);
    KindIsSpelled(d, kind, payload);
    PutExecuted(d, t, clients, Command.Put(key, PrintInt(kind), length, overwrite), payload, v);
    assert Contents(t.slots[i := Some(v)]) == Contents(t.slots)[i := v];
  }

  lemma KindIsSpelled(d: Doubles, kind: nat, payload: string)
    requires kind <= 2
    ensures PrintInt(kind) != "" && PayloadValue(d, PrintInt(kind), payload) == Some(Spelled(d, kind, payload))
    ensures Spelled(d, kind, payload).Str? ==> Spelled(d, kind, payload).bytes == payload
  {
    PutInterpreted(true, "", kind, 0);
    hide PrintInt, Atoll, CString;
  }

  lemma AskRefines(d: Doubles, t: Table, clients: nat, key: string, delete: bool)
    requires t.slots != [] && AllFit(d, t.slots)
    ensures var (t', r) := Execute(d, t, clients, KeyCommand(key, delete), "");
      && r.Valid() && AllFit(d, t'.slots)
      && (Contents(t'.slots), Value(Decode(d, r)))
        == CallStep(d, |t.slots|, clients, Contents(t.slots), Ask(key, delete))
  {
    hide Execute, Fnv.Slot, SlotResponse, Decode, Sent, Response.Valid;
    var i := Fnv.Slot(key, |t.slots|);
    var slot := t.slots[i];
    KeyExecuted(d, t, clients, key, delete);
    SlotIsSent(d, slot);
    ErasedContents(t, i);
  }

  lemma KeyExecuted(d: Doubles, t: Table, clients: nat, key: string, delete: bool)
    requires t.slots != []
    ensures var i := Fnv.Slot(key, |t.slots|);
      Execute(d, t, clients, KeyCommand(key, delete), "")
        == (if delete then Erase(t, i) else t, SlotResponse(d, t.slots[i]))
  {
    hide Fnv.Slot, SlotResponse, Erase;
  }

  lemma ErasedContents(t: Table, i: nat)
    requires i < |t.slots|
    ensures Contents(Erase(t, i).slots) == Contents(t.slots) - {i}
    ensures t.slots[i].Some? <==> i in Contents(t.slots)
    ensures t.slots[i].Some? ==> Contents(t.slots)[i] == t.slots[i].value
  {
  }

  lemma SlotIsSent(d: Doubles, slot: Option<Tables.Value>)
    requires slot.Some? && slot.value.Str? ==> |slot.value.bytes| <= MAX_BODY
    requires slot.Some? && slot.value.Real? ==> |d.format(slot.value.r)| <= MAX_BODY
    ensures SlotResponse(d, slot).Valid()
    ensures Decode(d, SlotResponse(d, slot)) == if slot.None? then None else Some(Sent(d, slot.value))
  {
    if slot.None? {
      SmallResponseIsValid(NOT_FOUND);
    } else {
      ValueResponseIsValid(d, slot.value);
      if !slot.value.Real? {
        DecodeValue(d, slot.value);
      }
    }
  }

  /** One call answers as the map does on what was heard, and leaves the table the map it leads to. */
  method Perform(session: Session, call: Call) returns (inside: bool, answer: Answer, ghost heard: Call)
    requires session.Valid() && CanCall(call) && AllFit(session.server.doubles, session.State().slots)
    requires session.server.clients.count <= INT32_MAX && session.server.table.slots.Length <= INT32_MAX
    modifies session.client, session.client.buffer, session.server.table, session.server.table.slots,
             session.up, session.down
    ensures session.client.buffer == old(session.client.buffer) || fresh(session.client.buffer)
    ensures inside ==>
      && session.Valid() && Hears(call, heard) && AllFit(session.server.doubles, session.State().slots)
      && (Contents(session.State().slots), answer)
        == CallStep(session.server.doubles, session.server.table.slots.Length, session.server.clients.count,
                    Contents(old(session.State().slots)), heard)
    ensures !inside ==> IsLost(call)
  {
    ghost var d, t, clients := session.server.doubles, session.State(), session.server.clients.count;
    hide AllFit, IsToken, Contents, Execute, Response.Valid, Decode, Fnv.Slot, PrintInt, KeyCommand, Receives;
    inside, heard := true, call;
    match call
    case Put(overwrite, key, kind, payload) =>
      var ok;
      ok, inside, heard := PerformPut(session, overwrite, key, kind, payload);
      answer := Stored(ok);
    case Ask(key, delete) =>
      AskRefines(d, t, clients, key, delete);
      var _, value := session.Ask(key, delete);
      answer := Value(value);
    case Stats =>
      OccupiedIsSize(t.slots);
      var _, connected, keys := session.Stats();
      answer := Counts(connected, keys);
  }

  method PerformPut(session: Session, overwrite: bool, key: string, kind: int, payload: string)
    returns (ok: bool, inside: bool, ghost heard: Call)
    requires session.Valid() && IsToken(key) && |payload| <= MAX_BODY
    requires AllFit(session.server.doubles, session.State().slots)
    modifies session.client, session.client.buffer, session.server.table, session.server.table.slots,
             session.up, session.down
    ensures session.client.buffer == old(session.client.buffer) || fresh(session.client.buffer)
    ensures var call := Call.Put(overwrite, key, kind, payload);
      if !inside then IsLost(call) else
      && session.Valid() && Hears(call, heard) && AllFit(session.server.doubles, session.State().slots)
      && (Contents(session.State().slots), Stored(ok))
        == CallStep(session.server.doubles, session.server.table.slots.Length, session.server.clients.count,
                    Contents(old(session.State().slots)), heard)
  {
    ghost var d, t, clients := session.server.doubles, session.State(), session.server.clients.count;
    ghost var call := Call.Put(overwrite, key, kind, payload);
    hide AllFit, IsToken, IsSafe, Contents, Execute, Response.Valid, Fnv.Slot, PrintInt, Receives;
    ghost var text, j, junk;
    ok, inside, text, j, junk := session.Put(overwrite, key, kind, payload);
    heard := call;
    if 0 <= kind <= 2 {
      assert MayReceive(call, inside, text);
      if inside {
        heard := call.(payload := text);
        HeardIsNoLonger(call, text);
        PutRefines(d, t, clients, overwrite, key, kind, |payload|, text);
      }
    }
  }

  /** Any sequence of calls, however the bytes of any of them arrive, answers as a map keyed by slot does on what
      the server heard, up to a call whose payload is lost. If all payloads are safe, that is all of every call. */
  method PerformAll(session: Session, calls: seq<Call>) returns (answers: seq<Answer>, ghost heard: seq<Call>)
    requires session.Valid() && AllFit(session.server.doubles, session.State().slots)
    requires forall i :: 0 <= i < |calls| ==> CanCall(calls[i])
    requires session.server.clients.count <= INT32_MAX && session.server.table.slots.Length <= INT32_MAX
    modifies session.client, session.client.buffer, session.server.table, session.server.table.slots,
             session.up, session.down
    ensures |heard| <= |calls| && forall i :: 0 <= i < |heard| ==> Hears(calls[i], heard[i])
    ensures if |heard| == |calls| then session.Valid() else IsLost(calls[|heard|])
    ensures answers
      == CallAnswers(session.server.doubles, session.server.table.slots.Length, session.server.clients.count,
                     Contents(old(session.State().slots)), heard)
    ensures (forall i :: 0 <= i < |calls| ==> IsSafeCall(calls[i])) ==> heard == calls
  {
    hide AllFit, CanCall, Contents, CallStep, Session.Valid, Hears, IsLost, IsSafeCall;
    answers, heard := [], [];
    ghost var d, size, clients := session.server.doubles, session.server.table.slots.Length,
      session.server.clients.count;
    ghost var m := Contents(session.State().slots);
    var i := 0;
    while i < |calls|
      invariant 0 <= i == |heard| <= |calls| && session.server.clients.count == clients
      invariant session.Valid() && AllFit(d, session.State().slots)
      invariant session.client.buffer == old(session.client.buffer) || fresh(session.client.buffer)
      invariant forall k :: 0 <= k < i ==> Hears(calls[k], heard[k])
      invariant answers == CallAnswers(d, size, clients, m, heard)
      invariant Contents(session.State().slots) == CallsState(d, size, clients, m, heard)
    {
      var inside, answer;
      ghost var one;
      inside, answer, one := Perform(session, calls[i]);
      if !inside {
        break;
      }
      CallsAppend(d, size, clients, m, heard, one);
      answers, heard := answers + [answer], heard + [one];
      i := i + 1;
    }
    AllHeard(calls, heard);
  }

  lemma AllHeard(calls: seq<Call>, heard: seq<Call>)
    requires |heard| <= |calls| && forall i :: 0 <= i < |calls| ==> CanCall(calls[i])
    requires forall i :: 0 <= i < |heard| ==> Hears(calls[i], heard[i])
    requires |heard| < |calls| ==> IsLost(calls[|heard|])
    ensures (forall i :: 0 <= i < |calls| ==> IsSafeCall(calls[i])) ==> heard == calls
  {
    hide CanCall, Hears, IsLost, IsSafeCall;
    if forall i :: 0 <= i < |calls| ==> IsSafeCall(calls[i]) {
      forall i | 0 <= i < |heard|
        ensures heard[i] == calls[i]
      {
        SafeHeard(calls[i], heard[i]);
      }
      if |heard| < |calls| {
        SafeHeard(calls[|heard|], calls[|heard|]);
      }
    }
  }
}
