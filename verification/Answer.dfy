/** What every command answers, and the bytes of each answer. */
module Answers {
  import opened Text
  import opened Decimal
  import opened Tokenizer
  import opened Responses
  import opened Tables
  import opened Commands
  import Fnv

  // ---------- status

  /** The type argument starts with one of the three types. */
  predicate HasKnownType(kind: string) {
    kind != "" && (kind[0] == '0' || kind[0] == '1' || kind[0] == '2')
  }

  ghost predicate IsOccupied(t: Table, key: string)
    requires t.slots != []
  {
    t.slots[Fnv.Slot(key, |t.slots|)].Some?
  }

  /** The status of every answer, from the command and its key's slot. A type argument consists of bytes. */
  lemma AnswerCode(d: Doubles, t: Table, clients: nat, c: Command, payload: string)
    requires CanExecute(t, c) && (c.Put? ==> c.kind[0] as int < 256)
    ensures var code := Execute(d, t, clients, c, payload).1.code;
      && (code == 409 <==> c.Put? && !c.overwrite && IsOccupied(t, c.key))
      && (code == 404 <==> (c.Get? || c.Del?) && !IsOccupied(t, c.key))
      && (code == 400 <==> c.Bad? || (c.Put? && (c.overwrite || !IsOccupied(t, c.key)) && !HasKnownType(c.kind)))
      && (code == 200 || code == 400 || code == 404 || code == 409)
  {
    hide Fnv.Slot, Statistics, PrintInt, InitialValue, Counted, Atoll, CString;
  }

  /** Status and description go together. */
  lemma AnswerDescription(d: Doubles, t: Table, clients: nat, c: Command, payload: string)
    requires CanExecute(t, c)
    ensures var r := Execute(d, t, clients, c, payload).1;
      r.description == (if r.code == 200 then "OK" else if r.code == 400 then "BAD REQUEST"
        else if r.code == 404 then "NOT FOUND" else "KEY EXISTS")
  {
    hide Fnv.Slot, Statistics, PrintInt, InitialValue, Counted, PayloadValue;
  }

  /** What the commands without a key do: nothing to the table, and this text is their answer. */
  lemma KeylessAnswers(d: Doubles, t: Table, clients: nat, message: string)
    requires t.slots != []
    ensures Execute(d, t, clients, Bad(message), "") == (t, Response(400, "BAD REQUEST", None, message))
    ensures Execute(d, t, clients, Ver, "") == (t, Response(200, "OK", None, "1.0"))
    ensures Execute(d, t, clients, Bye, "") == (t, Response(200, "OK", None, "bye."))
    ensures Execute(d, t, clients, Stt, "") == (t, Response(200, "OK", None,
      "Client-Count: " + PrintInt(clients) + "\nKey-Count: " + PrintInt(t.count)))
  {
    hide PrintInt;
  }

  /** A SET or ADD on a slot it may fill: the value is stored, or for an unknown type the slot is emptied. */
  lemma PutAnswers(d: Doubles, t: Table, clients: nat, c: Command, payload: string)
    requires CanExecute(t, c) && c.Put? && c.kind[0] as int < 256 && (c.overwrite || !IsOccupied(t, c.key))
    ensures var (t', r) := Execute(d, t, clients, c, payload);
      && At(t', c.key) == (if c.kind[0] == '0' then Some(Number(Atoll(payload)))
           else if c.kind[0] == '1' then Some(Real(d.atof(CString(payload))))
           else if c.kind[0] == '2' then Some(Str(payload))
           else None)
      && r == if HasKnownType(c.kind) then Response(200, "OK", None, "")
           else Response(400, "BAD REQUEST", None, "The argument LENGTH must be 0, 1, or 2.")
  {
    hide Fnv.Slot, Atoll, CString;
  }

  // ---------- INC and DEC

  /** What INC and DEC answer is what a GET answers afterwards, and that is a value. */
  lemma CountAnswers(d: Doubles, t: Table, clients: nat, c: Command)
    requires CanExecute(t, c) && c.Count?
    ensures var (t', r) := Execute(d, t, clients, c, "");
      r == Execute(d, t', clients, Command.Get(c.key), "").1 && r.code == 200
  {
    hide Fnv.Slot, InitialValue, Counted, PrintInt;
  }

  /** On a number or a real they store and answer the sum or the difference; numbers are converted and
      cut back, and the offset is 1 where none is given. */
  lemma CountChanges(d: Doubles, t: Table, clients: nat, c: Command)
    requires CanExecute(t, c) && c.Count? && IsOccupied(t, c.key)
    ensures var (t', r), v := Execute(d, t, clients, c, ""), At(t, c.key).value;
      var offset := if c.offset.None? then 1.0 else d.atof(c.offset.value);
      && (v.Real? ==>
        var x := if c.up then d.add(v.r, offset) else d.sub(v.r, offset);
        t'.slots == With(t, c.key, Some(Real(x))) && r == Response(200, "OK", Some(1), d.format(x)))
      && (v.Number? ==>
        var n := d.toInt(if c.up then d.add(d.ofInt(v.decimal), offset) else d.sub(d.ofInt(v.decimal), offset));
        t'.slots == With(t, c.key, Some(Number(n))) && r == Response(200, "OK", Some(0), PrintInt(n)))
  {
    hide Fnv.Slot, InitialValue, PrintInt;
  }

  /** After any whole INCs and DECs on a number, the last answer is the start plus the INCs minus the DECs. */
  lemma LastCountAnswers(d: Doubles, t: Table, key: string, start: Int64, changes: seq<Change>)
    requires t.slots != [] && At(t, key) == Some(Number(start)) && changes != []
    requires StaysExact(start, changes) && d.ExactOnIntegers()
    ensures IsInt64(start + Tables.Sum(changes))
    ensures var before, c := CountRun(d, t, key, changes[..|changes| - 1]), changes[|changes| - 1];
      Execute(d, before, 0, Count(key, c.offset, None, c.up), "").1
        == Response(200, "OK", Some(0), PrintInt(start + Tables.Sum(changes)))
  {
    hide *;
    var init, c := changes[..|changes| - 1], changes[|changes| - 1];
    CountRunAdds(d, t, key, start, changes);
    CountRunEnds(d, t, key, changes);
    LastStepAnswers(d, t, key, CountRun(d, t, key, init), c, start + Tables.Sum(changes));
  }

  lemma CountRunEnds(d: Doubles, t: Table, key: string, changes: seq<Change>)
    requires t.slots != [] && changes != []
    ensures var before, c := CountRun(d, t, key, changes[..|changes| - 1]), changes[|changes| - 1];
      CountRun(d, t, key, changes) == Execute(d, before, 0, Count(key, c.offset, None, c.up), "").0
  {
    hide *;
    CountRunAppends(d, t, key, changes[..|changes| - 1], changes[|changes| - 1]);
    assert changes[..|changes| - 1] + [changes[|changes| - 1]] == changes;
  }

  lemma LastStepAnswers(d: Doubles, t: Table, key: string, before: Table, c: Change, n: Int64)
    requires t.slots != [] && before.slots != []
    requires var command := Count(key, c.offset, None, c.up);
      Execute(d, before, 0, command, "").0.slots == With(t, key, Some(Number(n)))
    ensures Execute(d, before, 0, Count(key, c.offset, None, c.up), "").1 == Response(200, "OK", Some(0), PrintInt(n))
  {
    var command := Count(key, c.offset, None, c.up);
    CountAnswers(d, before, 0, command);
    hide Execute, PrintInt, Fnv.Slot, SlotResponse;
    var after := Execute(d, before, 0, command, "").0;
    GetExecuted(d, after, 0, key);
    NumberAnswer(d, t, key, after, n);
  }

  lemma {:induction false} CountRunAppends(d: Doubles, t: Table, key: string, changes: seq<Change>, c: Change)
    requires t.slots != []
    ensures CountRun(d, t, key, changes + [c])
      == Execute(d, CountRun(d, t, key, changes), 0, Count(key, c.offset, None, c.up), "").0
    decreases |changes|
  {
    hide Execute;
    if changes == [] {
      assert changes + [c] == [c] && [c][1..] == [];
    } else {
      assert (changes + [c])[1..] == changes[1..] + [c];
      var first := Count(key, changes[0].offset, None, changes[0].up);
      CountRunAppends(d, Execute(d, t, 0, first, "").0, key, changes[1..], c);
    }
  }

  lemma NumberAnswer(d: Doubles, t: Table, key: string, t': Table, n: Int64)
    requires t.slots != [] && t'.slots == With(t, key, Some(Number(n)))
    ensures SlotResponse(d, t'.slots[Fnv.Slot(key, |t'.slots|)]) == Response(200, "OK", Some(0), PrintInt(n))
  {
    hide Fnv.Slot, PrintInt;
  }

  // ---------- bytes

  /** The format of every response. */
  lemma EncodedIs(r: Response)
    ensures r.Encode()
      == PrintNat(r.code) + " " + r.description + "\r\n"
        + PrintNat(|r.body|) + (if r.bodyType.None? then "" else " " + PrintNat(r.bodyType.value)) + "\r\n"
        + r.body + "\0\r\n"
  {
    hide PrintNat;
  }

  lemma StatusBytes()
    ensures PrintNat(200) == "200" && PrintNat(400) == "400" && PrintNat(404) == "404" && PrintNat(409) == "409"
    ensures PrintNat(0) == "0" && PrintNat(1) == "1" && PrintNat(2) == "2" && PrintNat(3) == "3"
  {
  }

  /** The bytes of the answers that carry no value. */
  lemma PlainBytes(body: string)
    ensures BadRequest(body).Encode() == "400 BAD REQUEST" + "\r\n" + PrintNat(|body|) + "\r\n" + body + "\0\r\n"
    ensures Success(body).Encode() == "200 OK" + "\r\n" + PrintNat(|body|) + "\r\n" + body + "\0\r\n"
  {
    StatusLines();
    hide *;
    EncodedPlain(400, "BAD REQUEST", body, "400 BAD REQUEST");
    EncodedPlain(200, "OK", body, "200 OK");
    AnswersAre(body);
  }

  lemma AnswersAre(body: string)
    ensures BadRequest(body) == Response(400, "BAD REQUEST", None, body)
    ensures Success(body) == Response(200, "OK", None, body)
  {
  }

  lemma StatusLines()
    ensures PrintNat(400) + " " + "BAD REQUEST" == "400 BAD REQUEST" && PrintNat(200) + " " + "OK" == "200 OK"
  {
    StatusBytes();
    hide PrintNat;
  }

  lemma EncodedPlain(code: nat, description: string, body: string, status: string)
    requires status == PrintNat(code) + " " + description
    ensures Response(code, description, None, body).Encode()
      == status + "\r\n" + PrintNat(|body|) + "\r\n" + body + "\0\r\n"
  {
    hide PrintNat, Response.Encode;
    EncodedAs(Response(code, description, None, body), status);
    assert status + "\r\n" + PrintNat(|body|) + "" == status + "\r\n" + PrintNat(|body|);
  }

  lemma EmptyBytes()
    ensures NOT_FOUND.Encode() == "404 NOT FOUND\r\n0\r\n\0\r\n"
    ensures KEY_EXISTS.Encode() == "409 KEY EXISTS\r\n0\r\n\0\r\n"
    ensures Success("").Encode() == "200 OK\r\n0\r\n\0\r\n"
  {
    StatusBytes();
    hide PrintNat, Response.Encode;
    EmptyAs(NOT_FOUND, "404 NOT FOUND");
    EmptyAs(KEY_EXISTS, "409 KEY EXISTS");
    EmptyAs(Success(""), "200 OK");
  }

  lemma EmptyAs(r: Response, status: string)
    requires status == PrintNat(r.code) + " " + r.description && r.bodyType.None? && r.body == ""
    ensures r.Encode() == status + "\r\n0\r\n\0\r\n"
  {
    StatusBytes();
    hide PrintNat, Response.Encode;
    EncodedAs(r, status);
    assert "0" + "\r\n" + "" + "\0\r\n" == "0\r\n\0\r\n";
  }

  lemma EncodedAs(r: Response, status: string)
    requires status == PrintNat(r.code) + " " + r.description
    ensures var kind := if r.bodyType.None? then "" else " " + PrintNat(r.bodyType.value);
      r.Encode() == status + "\r\n" + PrintNat(|r.body|) + kind + "\r\n" + r.body + "\0\r\n"
  {
    EncodedIs(r);
    hide PrintNat, Response.Encode;
  }

  /** The bytes of a value: its size, its type, and its text. */
  lemma ValueBytes(d: Doubles, v: Value)
    ensures var (text, kind) := match v
        case Number(n) => (PrintInt(n), "0")
        case Real(x) => (d.format(x), "1")
        case Str(bytes) => (bytes, "2");
      ValueResponse(d, v).Encode() == "200 OK\r\n" + PrintNat(|text|) + " " + kind + "\r\n" + text + "\0\r\n"
  {
    StatusBytes();
    hide PrintNat, PrintInt, Response.Encode;
    assert "200" + " " + "OK" == "200 OK";
    EncodedAs(ValueResponse(d, v), "200 OK");
  }

  /** The documentation's example: the version. */
  lemma VersionBytes()
    ensures Success(VERSION).Encode() == "200 OK\r\n3\r\n1.0\0\r\n"
  {
    StatusBytes();
    hide PrintNat, Response.Encode;
    PlainBytes(VERSION);
    assert "200 OK" + "\r\n" + "3" + "\r\n" + VERSION + "\0\r\n" == "200 OK\r\n3\r\n1.0\0\r\n";
  }

  // ---------- words

  lemma {:induction false} WordsSplit(a: string, gap: char, b: string, word: string)
    requires IsDelimiter(gap)
    ensures Words(a + [gap] + b, word) == Words(a, word) + Words(b, "")
    decreases |a|
  {
    if a == "" {
      assert "" + [gap] + b == [gap] + b;
      assert ([gap] + b)[1..] == b;
    } else {
      assert (a + [gap] + b)[1..] == a[1..] + [gap] + b;
      WordsSplit(a[1..], gap, b, if IsDelimiter(a[0]) then "" else word + [a[0]]);
    }
  }

  lemma WordsOfLine(line: string, rest: string)
    ensures Words(line + "\r\n" + rest, "") == Words(line, "") + Words(rest, "")
  {
    assert line + "\r\n" + rest == line + ['\r'] + ("\n" + rest);
    WordsSplit(line, '\r', "\n" + rest, "");
    assert "\n" + rest == "" + ['\n'] + rest;
    WordsSplit("", '\n', rest, "");
  }

  lemma WordsOfNat(n: nat)
    ensures Words(PrintNat(n), "") == [PrintNat(n)]
  {
    var s := PrintNat(n);
    assert s + "" == s && "" + s == s;
    hide PrintNat;
    WordsOfRun(s, "", "");
  }

  /** The words of a response's two header lines are its fields in order, and one space follows the code. */
  lemma HeaderWords(r: Response)
    ensures var header := r.Encode()[..r.LineStart(2)];
      && Words(header, "") == [PrintNat(r.code)] + Words(r.description, "") + [PrintNat(|r.body|)]
           + (if r.bodyType.None? then [] else [PrintNat(r.bodyType.value)])
      && header[|PrintNat(r.code)|] == ' '
      && r.Encode()[r.LineStart(2)..] == r.body + "\0\r\n"
  {
    var code, size := PrintNat(r.code), PrintNat(|r.body|);
    var status, length := code + " " + r.description, size + r.TypeField(' ');
    assert r.Encode() == (status + "\r\n" + (length + "\r\n" + "")) + (r.body + "\0\r\n");
    assert |status + "\r\n" + (length + "\r\n" + "")| == r.LineStart(2);
    LengthWords(r);
    hide PrintNat, Response.Encode, Response.LineStart, Response.TypeField, Words;
    WordsOfNat(r.code);
    WordsSplit(code, ' ', r.description, "");
    assert code + [' '] + r.description == status;
    WordsOfLine(status, length + "\r\n" + "");
    WordsOfLine(length, "");
    NoWords();
  }

  lemma NoWords()
    ensures Words("", "") == []
  {
  }

  lemma LengthWords(r: Response)
    ensures Words(PrintNat(|r.body|) + r.TypeField(' '), "")
      == [PrintNat(|r.body|)] + (if r.bodyType.None? then [] else [PrintNat(r.bodyType.value)])
  {
    var size := PrintNat(|r.body|);
    hide PrintNat, Words;
    WordsOfNat(|r.body|);
    if r.bodyType.Some? {
      var kind := PrintNat(r.bodyType.value);
      WordsOfNat(r.bodyType.value);
      WordsSplit(size, ' ', kind, "");
      assert size + [' '] + kind == size + r.TypeField(' ');
    } else {
      assert size + r.TypeField(' ') == size;
    }
  }
}
