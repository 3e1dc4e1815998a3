/** The in-place tokenizer: `GET_NEXT_ARG` and `put_null_terminator_unknown_size`. */
module Tokenizer {
  import opened Text

  /** How many bytes lie before the first delimiter or NUL. */
  function Run(s: string): (n: nat)
    ensures n <= |s|
    ensures forall i :: 0 <= i < n ==> !IsStop(s[i])
    ensures n < |s| ==> IsStop(s[n])
  {
    if s == "" || IsStop(s[0]) then 0 else 1 + Run(s[1..])
  }

  /** How many delimiters come first. */
  function Skip(s: string): (n: nat)
    ensures n <= |s|
    ensures forall i :: 0 <= i < n ==> IsDelimiter(s[i])
    ensures n < |s| ==> !IsDelimiter(s[n])
  {
    if s == "" || !IsDelimiter(s[0]) then 0 else 1 + Skip(s[1..])
  }

  /** How far one argument moves the cursor. */
  function Advance(s: string): (n: nat)
    ensures Run(s) <= n <= |s|
  {
    Run(s) + Skip(s[Run(s)..])
  }

  /** What is left behind one argument. */
  function Rest(s: string): string {
    s[Advance(s)..]
  }

  function ArgAt(s: string): Option<string>
    requires s != ""
  {
    if s[0] == NUL then None else Some(s[..Run(s)])
  }

  /** Tokenizing `n` arguments stays inside the memory `s`. */
  predicate Bounded(s: string, n: nat) {
    s != "" && (n > 0 ==> Rest(s) != "" && Bounded(Rest(s), n - 1))
  }

  function ArgsAt(s: string, n: nat): (r: seq<Option<string>>)
    requires Bounded(s, n)
    ensures |r| == n
  {
    if n == 0 then [] else [ArgAt(s)] + ArgsAt(Rest(s), n - 1)
  }

  function AfterArgs(s: string, n: nat): (r: string)
    requires Bounded(s, n)
    ensures 0 < |r| <= |s|
  {
    if n == 0 then s else AfterArgs(Rest(s), n - 1)
  }

  /** One argument: only the delimiters behind it are overwritten. */
  method NextArg(a: array<char>, itr: nat) returns (arg: Option<string>, next: nat)
    requires itr <= a.Length && Rest(a[itr..]) != ""
    modifies a
    ensures arg == ArgAt(old(a[itr..]))
    ensures next == itr + Advance(old(a[itr..])) && a[next..] == Rest(old(a[itr..]))
    ensures forall k :: 0 <= k < a.Length ==> a[k] == if itr + Run(old(a[itr..])) <= k < next then NUL else old(a[k])
  {
    hide Run, Skip;
    ghost var s := a[itr..];
    assert forall k :: itr <= k < a.Length ==> a[k] == s[k - itr];
    var end := itr;
    while a[end] != NUL && !IsDelimiter(a[end])
      invariant itr <= end <= itr + Run(s)
      decreases a.Length - end
    {
      end := end + 1;
    }
    assert a[itr..end] == s[..Run(s)];
    arg := if a[itr] == NUL then None else Some(a[itr..end]);
    next := SkipDelimiters(a, end, s[end - itr..]);
    assert a[next..] == s[next - itr..];
  }

  method SkipDelimiters(a: array<char>, from: nat, ghost s: string) returns (next: nat)
    requires from < a.Length && s == a[from..] && Skip(s) < |s|
    modifies a
    ensures next == from + Skip(s)
    ensures forall k :: 0 <= k < a.Length ==> a[k] == if from <= k < next then NUL else old(a[k])
  {
    assert forall k :: from <= k < a.Length ==> a[k] == s[k - from];
    next := from;
    while IsDelimiter(a[next])
      invariant from <= next <= from + Skip(s)
      invariant forall k :: 0 <= k < a.Length ==> a[k] == if from <= k < next then NUL else old(a[k])
      decreases a.Length - next
    {
      a[next] := NUL;
      next := next + 1;
    }
  }

  /** The next `n` arguments. */
  method NextArgs(a: array<char>, itr: nat, n: nat) returns (args: seq<Option<string>>, next: nat)
    requires itr <= a.Length && Bounded(a[itr..], n)
    modifies a
    ensures args == ArgsAt(old(a[itr..]), n)
    ensures next <= a.Length && a[next..] == AfterArgs(old(a[itr..]), n)
    ensures forall k :: next <= k < a.Length ==> a[k] == old(a[k])
  {
    hide Run, Skip, Advance, ArgAt;
    args, next := [], itr;
    ghost var s := a[itr..];
    var i := 0;
    while i < n
      invariant 0 <= i <= n && itr <= next <= a.Length
      invariant forall k :: next <= k < a.Length ==> a[k] == old(a[k])
      invariant Bounded(a[next..], n - i)
      invariant args + ArgsAt(a[next..], n - i) == ArgsAt(s, n)
      invariant AfterArgs(a[next..], n - i) == AfterArgs(s, n)
    {
      ghost var rest := a[next..];
      var arg;
      arg, next := NextArg(a, next);
      assert a[next..] == Rest(rest);
      args := args + [arg];
      i := i + 1;
    }
    assert args + [] == args;
  }

  // ---------- what the arguments of a line are

  predicate IsToken(t: string) {
    t != "" && forall i :: 0 <= i < |t| ==> !IsStop(t[i])
  }

  predicate AreTokens(args: seq<string>) {
    forall i :: 0 <= i < |args| ==> IsToken(args[i])
  }

  predicate IsGap(d: string) {
    forall i :: 0 <= i < |d| ==> IsDelimiter(d[i])
  }

  /** A token, then delimiters, then something else: the token is the argument and the cursor
      lands behind the delimiters. */
  lemma TokenThenGap(t: string, d: string, rest: string)
    requires IsToken(t) && IsGap(d) && rest != "" && !IsDelimiter(rest[0])
    requires d == "" ==> rest[0] == NUL
    ensures var s := t + d + rest;
      Rest(s) == rest && ArgAt(s) == Some(t)
  {
    var s := t + d + rest;
    assert s[|t|] == if d == "" then NUL else d[0];
    assert forall i :: 0 <= i < |t| ==> s[i] == t[i];
    assert Run(s) == |t|;
    var u := s[|t|..];
    assert u == d + rest;
    assert u[|d|] == rest[0] && forall i :: 0 <= i < |d| ==> u[i] == d[i];
    assert Skip(u) == |d|;
    assert s[|t| + |d|..] == rest;
    assert s[..|t|] == t;
  }

  /** At the end of the text there are no more arguments, however often one asks. */
  lemma {:induction false} AtEnd(s: string, n: nat)
    requires s != "" && s[0] == NUL
    ensures Bounded(s, n) && AfterArgs(s, n) == s && ArgsAt(s, n) == Padded([], n)
  {
    if n > 0 {
      assert Advance(s) == 0;
      assert Rest(s) == s;
      AtEnd(s, n - 1);
      assert [None] + Padded([], n - 1) == Padded([], n);
    }
  }

  /** Tokens with the delimiters that follow each. */
  function Joined(args: seq<string>, gaps: seq<string>): string
    requires |args| == |gaps|
  {
    if args == [] then "" else args[0] + gaps[0] + Joined(args[1..], gaps[1..])
  }

  /** Every gap separates; only the last may be empty, and only before a NUL. */
  ghost predicate AreGaps(gaps: seq<string>, rest: string) {
    forall i :: 0 <= i < |gaps| ==>
      IsGap(gaps[i]) && (gaps[i] == "" ==> i == |gaps| - 1 && rest != "" && rest[0] == NUL)
  }

  function Padded(args: seq<string>, n: nat): (r: seq<Option<string>>)
    ensures |r| == n
    ensures forall i :: 0 <= i < n ==> r[i] == if i < |args| then Some(args[i]) else None
  {
    seq(n, i requires 0 <= i < n => if i < |args| then Some(args[i]) else None)
  }

  /** Tokens separated by any delimiters are read back in order; once the text ends in a NUL, nothing
      follows them, however often one asks. */
  lemma {:induction false} TokensReadBack(args: seq<string>, gaps: seq<string>, rest: string, n: nat)
    requires |args| == |gaps| && AreTokens(args) && AreGaps(gaps, rest)
    requires rest != "" && !IsDelimiter(rest[0]) && (n > |args| ==> rest[0] == NUL)
    ensures var s := Joined(args, gaps) + rest;
      && Bounded(s, n) && ArgsAt(s, n) == Padded(args, n)
      && AfterArgs(s, n) == if n >= |args| then rest else Joined(args[n..], gaps[n..]) + rest
  {
    hide Run, Skip, Advance, Rest, ArgAt, Padded;
    var s := Joined(args, gaps) + rest;
    if args == [] {
      assert s == rest;
      if n > 0 {
        AtEnd(s, n);
      }
    } else {
      var more := Joined(args[1..], gaps[1..]) + rest;
      assert s == args[0] + gaps[0] + more;
      assert |args| > 1 ==> more[0] == args[1][0];
      TokenThenGap(args[0], gaps[0], more);
      if n > 0 {
        TokensReadBack(args[1..], gaps[1..], rest, n - 1);
        assert n < |args| ==> args[1..][n - 1..] == args[n..] && gaps[1..][n - 1..] == gaps[n..];
        Prepend(args[0], args[1..], n);
        assert [args[0]] + args[1..] == args;
      }
    }
  }

  // ---------- an independent account of a line's arguments

  /** Splits a text into its maximal runs of non-delimiters, byte by byte; `word` is the run read so far. */
  function Words(text: string, word: string): seq<string>
    decreases |text|
  {
    if text == "" then (if word == "" then [] else [word])
    else if !IsDelimiter(text[0]) then Words(text[1..], word + [text[0]])
    else (if word == "" then [] else [word]) + Words(text[1..], "")
  }

  lemma {:induction false} WordsOfGap(gap: string, text: string)
    requires IsGap(gap)
    ensures Words(gap + text, "") == Words(text, "")
  {
    if gap == "" {
      assert gap + text == text;
    } else {
      assert (gap + text)[1..] == gap[1..] + text;
      WordsOfGap(gap[1..], text);
    }
  }

  lemma {:induction false} WordsOfRun(run: string, text: string, word: string)
    requires forall i :: 0 <= i < |run| ==> !IsDelimiter(run[i])
    ensures Words(run + text, word) == Words(text, word + run)
    decreases |run|
  {
    if run == "" {
      assert run + text == text && word + run == word;
    } else {
      assert (run + text)[1..] == run[1..] + text;
      assert word + [run[0]] + run[1..] == word + run;
      WordsOfRun(run[1..], text, word + [run[0]]);
    }
  }

  /** A token with its gap is one word and then the words of the rest. */
  lemma WordsOfToken(token: string, gap: string, text: string)
    requires IsToken(token) && IsGap(gap) && (gap == "" ==> text == "")
    ensures Words(token + gap + text, "") == [token] + Words(text, "")
  {
    assert token + gap + text == token + (gap + text);
    WordsOfRun(token, gap + text, "");
    assert "" + token == token;
    if gap == "" {
      assert gap + text == "";
    } else {
      assert (gap + text)[1..] == gap[1..] + text;
      WordsOfGap(gap[1..], text);
    }
  }

  /** On a C string that does not start with a delimiter, asking for arguments yields exactly its
      maximal runs of non-delimiters, in order, and then nothing for ever. */
  lemma {:induction false} ArgsAreWords(text: string, end: string, n: nat)
    requires NUL !in text && (text != "" ==> !IsDelimiter(text[0]))
    requires end != "" && end[0] == NUL
    ensures Bounded(text + end, n) && ArgsAt(text + end, n) == Padded(Words(text, ""), n)
    decreases n
  {
    if text == "" {
      assert text + end == end;
      AtEnd(end, n);
    } else if n > 0 {
      var token, gap, more := text[..Run(text)], text[Run(text)..Advance(text)], Rest(text);
      Pieces(text);
      hide Run, Skip, Advance, Rest, ArgAt, Words;
      WordsOfToken(token, gap, more);
      assert text + end == token + gap + (more + end);
      TokenThenGap(token, gap, more + end);
      ArgsAreWords(more, end, n - 1);
      Prepend(token, Words(more, ""), n);
    }
  }

  lemma Prepend(word: string, words: seq<string>, n: nat)
    requires n > 0
    ensures [Some(word)] + Padded(words, n - 1) == Padded([word] + words, n)
  {
  }

  lemma Pieces(text: string)
    requires NUL !in text && text != "" && !IsDelimiter(text[0])
    ensures var token, gap, more := text[..Run(text)], text[Run(text)..Advance(text)], Rest(text);
      && IsToken(token) && IsGap(gap) && NUL !in more
      && (more != "" ==> !IsDelimiter(more[0]))
      && (gap == "" ==> more == "") && text == token + gap + more
  {
    hide Run, Skip;
    var n, tail := Run(text), text[Run(text)..];
    var k := Skip(tail);
    forall i | 0 <= i < |text|
      ensures text[i] != NUL
    {
      assert text[i] in text;
    }
    assert Rest(text) == tail[k..] && text[n..n + k] == tail[..k];
    assert forall i :: 0 <= i < |tail| ==> tail[i] == text[n + i];
  }
}
