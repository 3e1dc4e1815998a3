/** The response format: `CODE DESCRIPTION\r\nLENGTH [TYPE]\r\nPAYLOAD\0\r\n`. */
module Responses {
  import opened Text
  import opened Decimal

  const TRAILER := "\0\r\n"

  /** Longest response for which the client's `int` sizes do not overflow while its buffer doubles. */
  const MAX_RESPONSE := 0x4000_0000

  datatype Response = Response(code: nat, description: string, bodyType: Option<nat>, body: string) {

    predicate Valid() {
      && 100 <= code <= 999
      && NUL !in description
      && '\n' !in description
      && (bodyType.Some? ==> bodyType.value <= 127)
      && |Encode()| <= MAX_RESPONSE
    }

    function StatusLine(): string {
      PrintNat(code) + " " + description + CRLF
    }

    function TypeField(separator: char): string {
      if bodyType.None? then "" else [separator] + PrintNat(bodyType.value)
    }

    function LengthLine(): string {
      PrintNat(|body|) + TypeField(' ') + CRLF
    }

    /** The status line with its two fields ended by NULs. */
    function StatusEnded(): (s: string)
      ensures |s| == |StatusLine()|
    {
      PrintNat(code) + "\0" + description + "\0\n"
    }

    /** The length line with its fields ended by NULs. */
    function LengthEnded(): (s: string)
      ensures |s| == |LengthLine()|
    {
      PrintNat(|body|) + TypeField(NUL) + "\0\n"
    }

    function Payload(): string {
      body + TRAILER
    }

    function Encode(): string {
      StatusLine() + LengthLine() + Payload()
    }

    /** The same bytes after the client has ended the fields of the first `lines` lines
        with NULs, in place. */
    function Marked(lines: nat): (s: string)
      ensures |s| == |Encode()|
    {
      (if lines < 1 then StatusLine() else StatusEnded()) + (if lines < 2 then LengthLine() else LengthEnded())
        + Payload()
    }

    /** Where line number `line` starts; line 2 is the payload. */
    function LineStart(line: nat): nat {
      if line == 0 then 0
      else if line == 1 then |StatusLine()|
      else |StatusLine()| + |LengthLine()|
    }
  }

  /** The status line has one newline, its last byte. */
  lemma StatusLineShape(r: Response)
    requires r.Valid()
    ensures var s, m := r.Marked(0), r.LineStart(1);
      6 <= m <= |s| && forall i :: 0 <= i < m ==> (s[i] == '\n' <==> i == m - 1)
  {
    PrintNatWidth3(r.code);
    var s, m, line := r.Marked(0), r.LineStart(1), r.StatusLine();
    assert s[..m] == line;
    forall i | 0 <= i < m
      ensures s[i] == '\n' <==> i == m - 1
    {
      assert s[i] == line[i];
      if i < 3 {
        assert line[i] == PrintNat(r.code)[i];
      } else if 4 <= i < m - 2 {
        assert line[i] == r.description[i - 4];
      }
    }
  }

  /** The length line has one newline, its last byte, and a space exactly before a type. */
  lemma LengthLineShape(r: Response)
    requires r.Valid()
    ensures var s, m, n, d := r.Marked(1), r.LineStart(1), r.LineStart(2), r.LineStart(1) + |PrintNat(|r.body|)|;
      && m + 2 < n <= |s|
      && forall i :: m <= i < n ==> (s[i] == '\n' <==> i == n - 1) && (s[i] == ' ' <==> i == d && r.bodyType.Some?)
  {
    PrintNatWidth3(r.code);
    var line, digits, field := r.LengthLine(), PrintNat(|r.body|), r.TypeField(' ');
    var s, m, n, d := r.Marked(1), r.LineStart(1), r.LineStart(2), |digits|;
    assert s[m..n] == line;
    forall i | m <= i < n
      ensures s[i] == '\n' <==> i == n - 1
      ensures s[i] == ' ' <==> i == m + d && r.bodyType.Some?
    {
      assert s[i] == line[i - m];
      if i - m < d {
        assert line[i - m] == digits[i - m];
      } else if i < n - 2 {
        assert line[i - m] == field[i - m - d];
      }
    }
  }

  lemma UpdateInside(before: string, text: string, after: string, i: nat)
    requires i < |text|
    ensures (before + text + after)[|before| + i := NUL] == before + text[i := NUL] + after
  {
  }

  /** Ending the status line's fields writes two NULs: over its first space and over its CR. */
  lemma StatusEndedIs(r: Response)
    requires r.Valid()
    ensures |r.StatusLine()| >= 6
    ensures r.StatusEnded() == r.StatusLine()[|r.StatusLine()| - 2 := NUL][3 := NUL]
  {
    PrintNatWidth3(r.code);
  }

  lemma MarkedStatus(r: Response)
    requires r.Valid()
    ensures var n := r.LineStart(1);
      6 <= n <= |r.Marked(0)| && r.Marked(1) == r.Marked(0)[n - 2 := NUL][3 := NUL]
  {
    StatusEndedIs(r);
    hide Response.StatusLine, Response.StatusEnded, Response.LengthLine, Response.Payload;
    var line, after := r.StatusLine(), r.LengthLine() + r.Payload();
    UpdateInside("", line, after, |line| - 2);
    UpdateInside("", line[|line| - 2 := NUL], after, 3);
    assert r.Marked(0) == "" + line + after;
    assert r.Marked(1) == "" + r.StatusEnded() + after;
  }

  /** Ending the length line's fields writes NULs over its CR and, before a type, over the space. */
  lemma LengthEndedIs(r: Response)
    ensures var line, d := r.LengthLine(), |PrintNat(|r.body|)|;
      && 0 < d < |line| - 1
      && r.LengthEnded() == (if r.bodyType.Some? then line[|line| - 2 := NUL][d := NUL] else line[|line| - 2 := NUL])
  {
    var digits := PrintNat(|r.body|);
    if r.bodyType.Some? {
      var number := PrintNat(r.bodyType.value);
      assert r.LengthLine() == digits + ([' '] + number) + CRLF;
      assert r.LengthEnded() == digits + ([NUL] + number) + "\0\n";
      hide *;
      TwoUpdates(digits, ' ', number);
    } else {
      assert r.LengthLine() == digits + "" + CRLF;
      assert r.LengthEnded() == digits + "" + "\0\n";
      hide *;
      assert (digits + "" + CRLF)[|digits| := NUL] == digits + "" + "\0\n";
    }
  }

  lemma TwoUpdates(digits: string, space: char, number: string)
    ensures var line := digits + ([space] + number) + CRLF;
      line[|line| - 2 := NUL][|digits| := NUL] == digits + ([NUL] + number) + "\0\n"
  {
  }

  lemma MarkedLength(r: Response)
    requires r.Valid()
    ensures var m, n, d := r.LineStart(1), r.LineStart(2), r.LineStart(1) + |PrintNat(|r.body|)|;
      && m + 2 < n <= |r.Marked(1)| && d < n - 1
      && r.Marked(2) == (if r.bodyType.Some? then r.Marked(1)[n - 2 := NUL][d := NUL] else r.Marked(1)[n - 2 := NUL])
  {
    LengthEndedIs(r);
    hide Response.StatusLine, Response.StatusEnded, Response.LengthLine, Response.LengthEnded, Response.Payload,
      PrintNat;
    var first, line, after, d := r.StatusEnded(), r.LengthLine(), r.Payload(), |PrintNat(|r.body|)|;
    UpdateInside(first, line, after, |line| - 2);
    UpdateInside(first, line[|line| - 2 := NUL], after, d);
    assert r.Marked(1) == first + line + after;
    assert r.Marked(2) == first + r.LengthEnded() + after;
  }

  /** `text` is found in `s` at `at`. */
  ghost predicate Continues(s: string, at: nat, text: string) {
    at + |text| <= |s| && forall i :: 0 <= i < |text| ==> text[i] == s[at + i]
  }

  /** A text that a NUL ends is found in `s` at `at`. */
  ghost predicate HasField(s: string, at: nat, text: string) {
    Continues(s, at, text + [NUL])
  }

  /** What is found in one of three parts is found in the whole. */
  lemma FoundInPart(a: string, b: string, c: string, at: nat, text: string)
    ensures HasField(a, at, text) ==> HasField(a + b + c, at, text)
    ensures HasField(b, at, text) ==> HasField(a + b + c, |a| + at, text)
    ensures HasField(c, at, text) ==> HasField(a + b + c, |a| + |b| + at, text)
  {
    var s := a + b + c;
    assert forall i :: 0 <= i < |a| ==> s[i] == a[i];
    assert forall i :: 0 <= i < |b| ==> s[|a| + i] == b[i];
    assert forall i :: 0 <= i < |c| ==> s[|a| + |b| + i] == c[i];
  }

  /** Where the type field of the length line starts. */
  function TypeAt(r: Response): nat {
    |PrintNat(|r.body|)| + 1
  }

  /** Where the fields of the parts are. */
  lemma PartFields(r: Response)
    requires r.Valid()
    ensures |PrintNat(r.code)| == 3 && |r.StatusLine()| == 6 + |r.description|
    ensures HasField(r.StatusEnded(), 0, PrintNat(r.code)) && HasField(r.StatusEnded(), 4, r.description)
    ensures HasField(r.LengthEnded(), 0, PrintNat(|r.body|))
    ensures r.bodyType.Some? ==> HasField(r.LengthEnded(), TypeAt(r), PrintNat(r.bodyType.value))
    ensures HasField(r.Payload(), 0, r.body)
  {
    PrintNatWidth3(r.code);
  }

  /** Where the fields of the marked response are. */
  lemma MarkedFields(r: Response)
    requires r.Valid()
    ensures HasField(r.Marked(1), 0, PrintNat(r.code))
    ensures HasField(r.Marked(2), 4, r.description)
    ensures HasField(r.Marked(2), r.LineStart(1), PrintNat(|r.body|))
    ensures r.bodyType.Some? ==> HasField(r.Marked(2), r.LineStart(1) + TypeAt(r), PrintNat(r.bodyType.value))
    ensures HasField(r.Marked(2), r.LineStart(2), r.body)
  {
    PartFields(r);
    hide Response.Valid, Response.Encode, Response.StatusLine, Response.StatusEnded, Response.LengthLine,
      Response.LengthEnded, Response.Payload, PrintNat, HasField, TypeAt;
    var a, b, c := r.StatusEnded(), r.LengthEnded(), r.Payload();
    FoundInPart(a, r.LengthLine(), c, 0, PrintNat(r.code));
    FoundInPart(a, b, c, 4, r.description);
    FoundInPart(a, b, c, 0, PrintNat(|r.body|));
    FoundInPart(a, b, c, 0, r.body);
    if r.bodyType.Some? {
      FoundInPart(a, b, c, TypeAt(r), PrintNat(r.bodyType.value));
    }
  }

  /** What the client's line machine sees of a response: the bytes before, between and after
      its two in-place edits, where the lines end, and the numbers in the fields. */
  datatype Layout = Layout(marked: seq<string>, m: nat, n: nat, space: Option<nat>,
                           code: nat, size: nat, bodyType: nat) {

    function LineStart(line: nat): nat {
      if line == 0 then 0 else if line == 1 then m else n
    }

    function Length(): nat {
      n + size + |TRAILER|
    }

    ghost predicate Valid() {
      Sized() && ValidStatus() && ValidLength()
    }

    ghost predicate Sized() {
      && 6 <= m && m + 2 < n
      && |marked| == 3 && |marked[0]| == |marked[1]| == |marked[2]| == Length() <= MAX_RESPONSE
      && code <= 999 && bodyType <= 127 && (space.None? ==> bodyType == 0)
    }

    ghost predicate ValidStatus()
      requires Sized()
    {
      && (forall i :: 0 <= i < m ==> (marked[0][i] == '\n' <==> i == m - 1))
      && marked[1] == marked[0][m - 2 := NUL][3 := NUL]
      && HasField(marked[1], 0, PrintNat(code)) && |PrintNat(code)| == 3
    }

    ghost predicate ValidLength()
      requires Sized()
    {
      && (forall i :: m <= i < n ==>
            (marked[1][i] == '\n' <==> i == n - 1) && (marked[1][i] == ' ' <==> space == Some(i)))
      && (space.Some? ==> m < space.value < n - 2)
      && marked[2] == (if space.Some? then marked[1][n - 2 := NUL][space.value := NUL] else marked[1][n - 2 := NUL])
      && HasField(marked[2], m, PrintNat(size)) && m + |PrintNat(size)| < n
      && (space.Some? ==>
            && HasField(marked[2], space.value + 1, PrintNat(bodyType))
            && space.value + 1 + |PrintNat(bodyType)| < n)
    }
  }

  ghost function LayoutOf(r: Response): Layout {
    Layout([r.Marked(0), r.Marked(1), r.Marked(2)], r.LineStart(1), r.LineStart(2),
           if r.bodyType.Some? then Some(r.LineStart(1) + |PrintNat(|r.body|)|) else None,
           r.code, |r.body|, if r.bodyType.Some? then r.bodyType.value else 0)
  }

  lemma LayoutSizes(v: Layout)
    requires v.Valid()
    ensures 6 <= v.m && v.m + 2 < v.n && v.Length() <= MAX_RESPONSE
    ensures |v.marked| == 3 && |v.marked[0]| == |v.marked[1]| == |v.marked[2]| == v.Length()
    ensures v.space.None? ==> v.bodyType == 0
  {
  }

  /** Where the two edits write. */
  lemma MarkedBytes(v: Layout, k: nat)
    requires v.Valid() && k < v.Length()
    ensures |v.marked[0]| == |v.marked[1]| == |v.marked[2]| == v.Length()
    ensures v.marked[1][k] == if k == 3 || k == v.m - 2 then NUL else v.marked[0][k]
    ensures v.marked[2][k] == if v.space == Some(k) || k == v.n - 2 then NUL else v.marked[1][k]
  {
  }

  /** Marking lines leaves every byte behind them alone. */
  lemma SuffixUnmarked(v: Layout, lines: nat, at: nat, rest: string)
    requires v.Valid() && lines <= 2 && v.LineStart(lines) <= at
    ensures Continues(v.marked[0], at, rest) <==> Continues(v.marked[lines], at, rest)
  {
    assert forall k :: at <= k < v.Length() ==> v.marked[0][k] == v.marked[lines][k];
  }

  lemma LayoutIsValid(r: Response)
    requires r.Valid()
    ensures LayoutOf(r).Valid()
  {
    LayoutIsSized(r);
    LayoutStatus(r);
    LayoutLength(r);
    hide Layout.Sized, Layout.ValidStatus, Layout.ValidLength, LayoutOf;
  }

  lemma LayoutIsSized(r: Response)
    requires r.Valid()
    ensures LayoutOf(r).Sized()
  {
    assert r.bodyType.Some? ==> r.bodyType.value <= 127;
    assert r.code <= 999;
    hide Response.Valid, Response.Encode, Response.Marked, Response.LineStart, Response.StatusLine,
      Response.StatusEnded, Response.LengthLine, Response.LengthEnded, Response.Payload, Response.TypeField,
      PrintNat, HasField;
    MarkedLengths(r);
  }

  lemma LayoutStatus(r: Response)
    requires r.Valid()
    ensures LayoutOf(r).Sized() && LayoutOf(r).ValidStatus()
  {
    LayoutIsSized(r);
    LayoutFacts(r);
    hide LayoutOf, Layout.Sized, Response.Valid, Response.Encode, Response.Marked, Response.LineStart,
      Response.StatusLine, Response.StatusEnded, Response.LengthLine, Response.LengthEnded, Response.Payload,
      Response.TypeField, PrintNat, HasField;
    MarkedLengths(r);
    StatusLineShape(r);
    MarkedStatus(r);
    MarkedFields(r);
  }

  lemma LayoutLength(r: Response)
    requires r.Valid()
    ensures LayoutOf(r).Sized() && LayoutOf(r).ValidLength()
  {
    LayoutIsSized(r);
    LayoutFacts(r);
    MarkedLengths(r);
    LengthLineShape(r);
    MarkedLength(r);
    MarkedFields(r);
    hide LayoutOf, Layout.Sized, Layout.ValidLength, Response.Valid, Response.Encode, Response.Marked,
      Response.LineStart, PrintNat, HasField;
    LengthIsValid(LayoutOf(r), r.Marked(1), r.Marked(2), r.LineStart(1) + |PrintNat(|r.body|)|);
  }

  lemma LengthIsValid(v: Layout, s: string, t: string, d: nat)
    requires v.Sized() && v.marked[1] == s && v.marked[2] == t && |t| == |s|
    requires v.space == (if v.space.Some? then Some(d) else None) && v.m < d < v.n - 1 && d <= v.n - 2 <= |s|
    requires forall i :: v.m <= i < v.n ==>
      (s[i] == '\n' <==> i == v.n - 1) && (s[i] == ' ' <==> i == d && v.space.Some?)
    requires t == if v.space.Some? then s[v.n - 2 := NUL][d := NUL] else s[v.n - 2 := NUL]
    requires HasField(t, v.m, PrintNat(v.size)) && v.m + |PrintNat(v.size)| == d
    requires v.space.Some? ==> HasField(t, d + 1, PrintNat(v.bodyType)) && d + 1 + |PrintNat(v.bodyType)| == v.n - 2
    ensures v.ValidLength()
  {
    hide PrintNat, HasField;
  }

  lemma LayoutFacts(r: Response)
    requires r.Valid()
    ensures var v := LayoutOf(r);
      && v.m == r.LineStart(1) && v.n == r.LineStart(2) && |v.marked| == 3
      && v.marked[0] == r.Marked(0) == r.Encode() && v.marked[1] == r.Marked(1) && v.marked[2] == r.Marked(2)
      && v.space == (if r.bodyType.Some? then Some(r.LineStart(1) + |PrintNat(|r.body|)|) else None)
      && v.Length() == |r.Encode()|
      && v.code == r.code && v.size == |r.body|
      && v.bodyType == if r.bodyType.Some? then r.bodyType.value else 0
  {
    MarkedLengths(r);
  }

  lemma MarkedLengths(r: Response)
    requires r.Valid()
    ensures |r.Marked(0)| == |r.Marked(1)| == |r.Marked(2)| == r.LineStart(2) + |r.body| + |TRAILER| <= MAX_RESPONSE
    ensures |PrintNat(r.code)| == 3
    ensures 6 <= r.LineStart(1) && r.LineStart(1) + |PrintNat(|r.body|)| <= r.LineStart(2) - 2
    ensures r.bodyType.Some? ==> r.LineStart(1) + TypeAt(r) + |PrintNat(r.bodyType.value)| == r.LineStart(2) - 2
  {
    PrintNatWidth3(r.code);
    assert |r.Encode()| == r.LineStart(2) + |r.body| + |TRAILER|;
  }
}
