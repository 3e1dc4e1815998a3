/** What a line's tokens mean: the commands' names, in any letter case, and the checks of their arguments. */
module Meanings {
  import opened Text
  import opened Decimal
  import opened CStrings
  import opened Tokenizer
  import opened Commands

  /** The command a token list stands for. */
  function Meaning(args: seq<string>): Command
    requires args != []
  {
    Interpret(args[0], Padded(args[1..], Wanted(args[0])), |args| > 1)
  }

  // ---------- names

  /** Equal, or the same letter in different case. */
  predicate SameLetter(a: char, b: char) {
    || a == b
    || ('a' <= a <= 'z' && b as int == a as int - 32)
    || ('a' <= b <= 'z' && a as int == b as int - 32)
  }

  /** `strcasecmp` in the C locale finds no difference. */
  predicate Spells(a: string, b: string) {
    |a| == |b| && forall i :: 0 <= i < |a| ==> SameLetter(a[i], b[i])
  }

  lemma {:induction false} SpellsIffUpper(a: string, b: string)
    ensures Spells(a, b) <==> Upper(a) == Upper(b)
  {
    if |a| == |b| && a != "" {
      SpellsIffUpper(a[1..], b[1..]);
      UpperHead(a);
      UpperHead(b);
      hide Upper;
      assert Spells(a, b) <==> SameLetter(a[0], b[0]) && Spells(a[1..], b[1..]) by {
        assert forall i :: 1 <= i < |a| ==> a[i] == a[1..][i - 1] && b[i] == b[1..][i - 1];
      }
    }
  }

  lemma UpperHead(s: string)
    requires s != ""
    ensures Upper(s)[1..] == Upper(s[1..])
    ensures Upper(s)[0] == if 'a' <= s[0] <= 'z' then (s[0] as int - 32) as char else s[0]
  {
  }

  /** Two spellings of a name mean the same, whatever arguments follow. */
  lemma CaseDoesNotMatter(a: string, b: string, rest: seq<string>)
    requires Spells(a, b)
    ensures Meaning([a] + rest) == Meaning([b] + rest)
  {
    SpellsIffUpper(a, b);
    hide InterpretPut, InterpretCount, Upper;
    assert ([a] + rest)[1..] == rest == ([b] + rest)[1..];
  }

  lemma CapitalsAreUpper()
    ensures Upper("ADD") == "ADD" && Upper("SET") == "SET" && Upper("INC") == "INC" && Upper("DEC") == "DEC"
    ensures Upper("GET") == "GET" && Upper("DEL") == "DEL"
    ensures Upper("STT") == "STT" && Upper("VER") == "VER" && Upper("BYE") == "BYE"
  {
  }

  /** What a name is, if it is one. */
  lemma NameIs(name: string)
    ensures forall n :: n in NAMES ==> (Spells(name, n) <==> Upper(name) == n)
  {
    CapitalsAreUpper();
    hide Upper, Spells;
    SpellsIffUpper(name, "ADD");
    SpellsIffUpper(name, "SET");
    SpellsIffUpper(name, "INC");
    SpellsIffUpper(name, "DEC");
    SpellsIffUpper(name, "GET");
    SpellsIffUpper(name, "DEL");
    SpellsIffUpper(name, "STT");
    SpellsIffUpper(name, "VER");
    SpellsIffUpper(name, "BYE");
  }

  /** GET and DEL take the first argument as key and ignore others. */
  lemma KeyNamesMean(args: seq<string>)
    requires args != []
    ensures var name, c, alone := args[0], Meaning(args), |args| == 1;
      && (Spells(name, "GET") ==> c == if alone then Bad("The argument KEY is mandatory.") else Command.Get(args[1]))
      && (Spells(name, "DEL") ==> c == if alone then Bad("The argument KEY is mandatory.") else Command.Del(args[1]))
  {
    hide Upper, Spells, InterpretPut, InterpretCount;
    NameIs(args[0]);
  }

  /** STT, VER and BYE refuse any argument. */
  lemma LoneNamesMean(args: seq<string>)
    requires args != []
    ensures var name, c, alone := args[0], Meaning(args), |args| == 1;
      && (Spells(name, "STT") ==> c == if alone then Stt else Bad("The command does not take arguments."))
      && (Spells(name, "VER") ==> c == if alone then Ver else Bad("The command does not take arguments."))
      && (Spells(name, "BYE") ==> c == if alone then Bye else Bad("The command does not take arguments."))
  {
    hide Upper, Spells, InterpretPut, InterpretCount;
    NameIs(args[0]);
  }

  /** Any other name is refused. */
  lemma OtherNamesMean(args: seq<string>)
    requires args != [] && forall n :: n in NAMES ==> !Spells(args[0], n)
    ensures Meaning(args) == Bad("Invalid command.")
  {
    hide Upper, Spells, InterpretPut, InterpretCount;
    NameIs(args[0]);
    forall i | 0 <= i < 9
      ensures Upper(args[0]) != NAMES[i]
    {
      assert NAMES[i] in NAMES;
    }
    assert NAMES[0] == "ADD" && NAMES[1] == "SET" && NAMES[2] == "INC" && NAMES[3] == "DEC" && NAMES[4] == "GET"
        && NAMES[5] == "DEL" && NAMES[6] == "STT" && NAMES[7] == "VER" && NAMES[8] == "BYE";
  }

  const NAMES := ["ADD", "SET", "INC", "DEC", "GET", "DEL", "STT", "VER", "BYE"]

  /** The documentation's example in lower case. */
  lemma LowerCaseGet(key: string)
    ensures Meaning(["get", key]) == Command.Get(key)
  {
    assert Spells("get", "GET");
    KeyNamesMean(["get", key]);
    hide *;
  }

  lemma PutInterpreted(overwrite: bool, key: string, kind: nat, length: nat)
    requires kind <= 2 && length <= INT32_MAX
    ensures Meaning([if overwrite then "SET" else "ADD", key, PrintInt(kind), PrintInt(length)])
      == Put(key, PrintInt(kind), length, overwrite)
    ensures TypeOf(PrintInt(kind)) == kind
  {
    var name := if overwrite then "SET" else "ADD";
    var tokens := [key, PrintInt(kind), PrintInt(length)];
    assert [name, key, PrintInt(kind), PrintInt(length)][1..] == tokens;
    LengthOfNat(kind);
    LengthOfNat(length);
    PutByName(overwrite, Padded(tokens, 3));
    hide PrintInt, IsLength, Atoi, Interpret, Wanted;
  }

  lemma PutByName(overwrite: bool, arg: seq<Option<string>>)
    requires |arg| == 3
    ensures var name := if overwrite then "SET" else "ADD";
      Wanted(name) == 3 && Interpret(name, arg, true) == InterpretPut(arg, overwrite)
  {
    hide InterpretPut;
    assert Upper("SET") == "SET" && Upper("ADD") == "ADD";
  }

  lemma LengthOfNat(n: nat)
    requires n <= INT32_MAX
    ensures IsLength(PrintInt(n)) && Atoi(PrintInt(n)) == n
  {
    assert PrintInt(n) + "" == PrintInt(n);
    AtoiPrinted(n, "");
  }

  // ---------- argument checks

  /** Digits, with an optional plus sign in front, behind which they may be missing. */
  predicate IsUnsigned(s: string) {
    s != "" && AllDigits(if s[0] == '+' then s[1..] else s)
  }

  /** Digits and at most one dot, not in front, where one of the signs may be. */
  predicate IsNumber(s: string, signs: set<char>) {
    && s != "" && s[0] != '.' && multiset(s)['.'] <= 1
    && forall i :: 0 <= i < |s| ==> IsDigit(s[i]) || s[i] == '.' || (i == 0 && s[i] in signs)
  }

  /** What SET and ADD demand of argument `i`. */
  predicate PutTakes(args: seq<string>, i: nat) {
    i < |args| && (i > 1 ==> IsUnsigned(args[i]))
  }

  /** What INC and DEC demand of argument `i`; all but the key may be missing. */
  predicate CountTakes(args: seq<string>, i: nat) {
    if i >= |args| then i != 1 else i == 1 || IsNumber(args[i], if i == 2 then {'+'} else {'+', '-'})
  }

  /** The refusal is the complaint about the first argument that is not taken. */
  ghost predicate Blames(message: string, complaints: seq<string>, taken: seq<bool>)
    requires |complaints| == |taken|
  {
    exists i :: 0 <= i < |taken| && !taken[i] && (forall k :: 0 <= k < i ==> taken[k]) && message == complaints[i]
  }

  /** A SET or ADD line is accepted if and only if all three arguments are there and TYPE and LENGTH are
      unsigned; a refusal names the first argument at fault. */
  lemma PutAccepted(args: seq<string>)
    requires args != [] && (Spells(args[0], "SET") || Spells(args[0], "ADD"))
    ensures var c, taken := Meaning(args), [PutTakes(args, 1), PutTakes(args, 2), PutTakes(args, 3)];
      if taken == [true, true, true]
      then c == Put(args[1], args[2], Atoi(args[3]), Spells(args[0], "SET"))
      else c.Bad? && Blames(c.message, PutComplaints(|args|), taken)
  {
    NameIs(args[0]);
    hide Spells, Upper, Atoi, IsUnsigned, IsLength, InterpretPut, InterpretCount, Blames;
    ArgumentsOf(args);
    if |args| > 2 {
      UnsignedIsLength(args[2]);
    }
    if |args| > 3 {
      UnsignedIsLength(args[3]);
    }
    hide Meaning;
    PutJudged(Padded(args[1..], 3), Spells(args[0], "SET"), |args|);
  }

  /** Of `n` words: an argument is missing or wrong. */
  function PutComplaints(n: nat): (r: seq<string>)
    ensures |r| == 3
  {
    ["The argument KEY is mandatory.",
     if n > 2 then "The argument TYPE must be positive integer." else "The argument TYPE is mandatory.",
     if n > 3 then "The argument LENGTH must be positive integer." else "The argument LENGTH is mandatory."]
  }

  const COUNT_COMPLAINTS := ["The argument KEY is mandatory.", "The argument OFFSET must be positive real number.",
                             "The argument INITIAL must be real number."]

  lemma PutJudged(arg: seq<Option<string>>, overwrite: bool, n: nat)
    requires |arg| == 3 && (n > 2 <==> arg[1].Some?) && (n > 3 <==> arg[2].Some?)
    ensures var c := InterpretPut(arg, overwrite);
      var taken := [arg[0].Some?, arg[1].Some? && IsLength(arg[1].value), arg[2].Some? && IsLength(arg[2].value)];
      if taken == [true, true, true] then c == Put(arg[0].value, arg[1].value, Atoi(arg[2].value), overwrite)
      else c.Bad? && Blames(c.message, PutComplaints(n), taken)
  {
    hide IsLength, Atoi;
    var c := InterpretPut(arg, overwrite);
    var taken := [arg[0].Some?, arg[1].Some? && IsLength(arg[1].value), arg[2].Some? && IsLength(arg[2].value)];
    var i := if !taken[0] then 0 else if !taken[1] then 1 else 2;
    assert !taken[i] ==> c.message == PutComplaints(n)[i];
  }

  lemma CountJudged(arg: seq<Option<string>>, up: bool)
    requires |arg| == 3
    ensures var c := InterpretCount(arg, up);
      var taken := [arg[0].Some?, arg[1].None? || IsOffset(arg[1].value), arg[2].None? || IsRealString(arg[2].value)];
      if taken == [true, true, true] then c == Count(arg[0].value, arg[1], arg[2], up)
      else c.Bad? && Blames(c.message, COUNT_COMPLAINTS, taken)
  {
    hide IsOffset, IsRealString;
    var c := InterpretCount(arg, up);
    var taken := [arg[0].Some?, arg[1].None? || IsOffset(arg[1].value), arg[2].None? || IsRealString(arg[2].value)];
    var i := if !taken[0] then 0 else if !taken[1] then 1 else 2;
    assert !taken[i] ==> c.message == COUNT_COMPLAINTS[i];
  }

  /** Both families want three arguments, those that are missing being NULL. */
  lemma ArgumentsOf(args: seq<string>)
    requires args != [] && Wanted(args[0]) == 3
    ensures var arg, n := Padded(args[1..], 3), Upper(args[0]);
      && (n == "SET" || n == "ADD" ==> Meaning(args) == InterpretPut(arg, n == "SET"))
      && (n == "INC" || n == "DEC" ==> Meaning(args) == InterpretCount(arg, n == "INC"))
      && forall i :: 0 <= i < 3 ==> arg[i] == Padded(args, 4)[i + 1]
  {
    hide InterpretPut, InterpretCount, Upper;
  }

  lemma UnsignedIsLength(s: string)
    ensures IsUnsigned(s) <==> IsLength(s)
  {
    assert s != "" ==> (IsDecimalString(s) ==> s[0] == '-' || IsUnsigned(s));
  }

  /** An INC or DEC line is accepted if and only if it has a key and the other arguments, where they are
      there, are real numbers, the OFFSET without a minus; a refusal names the first argument at fault. */
  lemma CountAccepted(args: seq<string>)
    requires args != [] && (Spells(args[0], "INC") || Spells(args[0], "DEC"))
    ensures var c, arg := Meaning(args), Padded(args, 4);
      var taken := [CountTakes(args, 1), CountTakes(args, 2), CountTakes(args, 3)];
      if taken == [true, true, true]
      then c == Count(args[1], arg[2], arg[3], Spells(args[0], "INC"))
      else c.Bad? && Blames(c.message, COUNT_COMPLAINTS, taken)
  {
    NameIs(args[0]);
    hide Spells, Upper, IsNumber, IsRealString, IsOffset, InterpretPut, InterpretCount, Blames;
    ArgumentsOf(args);
    if |args| > 2 {
      NumberIsReal(args[2]);
    }
    if |args| > 3 {
      NumberIsReal(args[3]);
    }
    hide Meaning;
    CountJudged(Padded(args[1..], 3), Spells(args[0], "INC"));
  }

  /** What the two checks accept, told by counting dots. */
  lemma NumberIsReal(s: string)
    ensures IsNumber(s, {'+', '-'}) <==> IsRealString(s)
    ensures IsNumber(s, {'+'}) <==> IsOffset(s)
  {
    if IsNumber(s, {'+', '-'}) {
      var text := AfterSign(s);
      var dot := IndexOf(text, '.');
      NumberIsPointed(s, dot);
    }
    if IsRealString(s) {
      var dot: nat :| dot <= |AfterSign(s)| && IsPointed(AfterSign(s), dot);
      PointedIsNumber(s, dot);
    }
  }

  lemma NumberIsPointed(s: string, dot: nat)
    requires IsNumber(s, {'+', '-'}) && dot == IndexOf(AfterSign(s), '.')
    ensures IsPointed(AfterSign(s), dot)
  {
    var text := AfterSign(s);
    var shift := |s| - |text|;
    forall i | 0 <= i < |text| && i != dot
      ensures IsDigit(text[i])
    {
      assert text[i] == s[i + shift];
      if i < dot {
        assert text[..dot][i] == text[i];
      } else if text[i] == '.' {
        TwoOccur(s, '.', dot + shift, i + shift);
      }
    }
  }

  lemma PointedIsNumber(s: string, dot: nat)
    requires s != "" && s[0] != '.' && IsPointed(AfterSign(s), dot)
    ensures IsNumber(s, {'+', '-'})
  {
    var text := AfterSign(s);
    var shift := |s| - |text|;
    forall i | shift <= i < |s|
      ensures if i - shift == dot then s[i] == '.' else IsDigit(s[i])
    {
      assert s[i] == text[i - shift];
      PointedBytes(text, dot, i - shift);
    }
    OnceOccurs(s, '.', dot + shift);
  }

  lemma TwoOccur(s: string, c: char, i: nat, j: nat)
    requires i < j < |s| && s[i] == s[j] == c
    ensures multiset(s)[c] >= 2
  {
    assert s == s[..j] + s[j..];
    assert s[..j][i] == c && s[j..][0] == c;
  }

  lemma {:induction false} OnceOccurs(s: string, c: char, at: int)
    requires forall i :: 0 <= i < |s| && i != at ==> s[i] != c
    ensures multiset(s)[c] <= 1
  {
    if s != "" {
      var n := |s| - 1;
      assert s == s[..n] + [s[n]];
      if n == at {
        assert c !in s[..n];
      } else {
        OnceOccurs(s[..n], c, at);
      }
    }
  }
}
