/** The client registry: a doubling vector with swap-removal, and the two places that shrink it. */
module Vectors {
  import opened Text

  /** Removes position `i` by moving the last element there. */
  function SwapRemove<T>(s: seq<T>, i: nat): (r: seq<T>)
    requires i < |s|
    ensures |r| == |s| - 1
  {
    s[i := s[|s| - 1]][..|s| - 1]
  }

  /** A removal takes exactly one element and moves at most one other. */
  lemma SwapRemoveEffect<T>(s: seq<T>, i: nat)
    requires i < |s|
    ensures multiset(SwapRemove(s, i)) == multiset(s) - multiset{s[i]}
    ensures forall k :: 0 <= k < |s| - 1 && k != i ==> SwapRemove(s, i)[k] == s[k]
    ensures i < |s| - 1 ==> SwapRemove(s, i)[i] == s[|s| - 1]
  {
    var last := |s| - 1;
    assert s == s[..last] + [s[last]];
    if i < last {
      assert SwapRemove(s, i) == s[..last][i := s[last]];
      assert multiset(s[..last][i := s[last]]) == multiset(s[..last]) - multiset{s[i]} + multiset{s[last]};
    } else {
      assert SwapRemove(s, i) == s[..last];
    }
  }

  datatype Operation<T> = Insert(element: T) | Remove(index: nat)

  /** The vector's contents and allocated size. */
  datatype State<T> = State(contents: seq<T>, size: nat)

  /** What one locked section does; an index out of range is not requested. */
  ghost function Step<T>(s: State<T>, op: Operation<T>): State<T> {
    match op
    case Insert(e) => State(s.contents + [e], if |s.contents| == s.size then 2 * s.size else s.size)
    case Remove(i) => if i < |s.contents| then State(SwapRemove(s.contents, i), s.size) else s
  }

  /** `vector_t` holding non-null pointers; a NULL cell is `None`. */
  class Vector<T(==)> {
    var cells: array<Option<T>>
    var count: nat

    ghost predicate Valid()
      reads this, cells
    {
      && 0 < cells.Length && count <= cells.Length
      && forall i :: 0 <= i < count ==> cells[i].Some?
    }

    ghost function Contents(): (s: seq<T>)
      requires Valid()
      reads this, cells
    {
      seq(count, i requires 0 <= i < count && Valid() reads this, cells => cells[i].value)
    }

    ghost function View(): State<T>
      requires Valid()
      reads this, cells
    {
      State(Contents(), cells.Length)
    }

    constructor (size: nat)
      requires size > 0
      ensures Valid() && fresh(cells) && View() == State([], size)
    {
      cells := new Option<T>[size](_ => None);
      count := 0;
    }

    /** `vector_at_unsafe`. Beyond `count` a cell may be uninitialised, so nothing is promised there. */
    method At(index: nat) returns (r: Option<T>)
      requires Valid()
      ensures index < count ==> r == Some(Contents()[index])
      ensures index >= cells.Length ==> r == None
    {
      r := None;
      if index < cells.Length {
        r := cells[index];
      }
    }

    /** `vector_insert_unsafe`. */
    method Insert(element: T)
      requires Valid()
      modifies this, cells
      ensures Valid() && (cells == old(cells) || fresh(cells))
      ensures View() == Step(old(View()), Operation.Insert(element))
      ensures Contents() == old(Contents()) + [element]
      ensures cells.Length == if old(count) < old(cells.Length) then old(cells.Length) else 2 * old(cells.Length)
    {
      if cells.Length == count {
        var larger := new Option<T>[cells.Length * 2];
        forall i | 0 <= i < cells.Length {
          larger[i] := cells[i];
        }
        cells := larger;
      }
      cells[count] := Some(element);
      count := count + 1;
    }

    /** `vector_remove_unsafe`. Between `count` and the size a cell may be uninitialised; what it holds is then
        returned in place of NULL, and the last element is lost. With no element at all `count` would wrap around. */
    method Remove(index: nat) returns (removed: Option<T>)
      requires Valid() && (count == 0 && index < cells.Length ==> cells[index] == None)
      modifies this`count, cells
      ensures Valid()
      ensures removed == if index < cells.Length then old(cells[index]) else None
      ensures index < old(count) ==>
        removed == Some(old(Contents())[index]) && Contents() == SwapRemove(old(Contents()), index)
      ensures index >= old(count) ==>
        Contents() == if removed == None then old(Contents()) else old(Contents())[..old(count) - 1]
      ensures index < old(count) || removed == None ==> View() == Step(old(View()), Operation.Remove(index))
    {
      if index >= cells.Length {
        return None;
      }
      removed := cells[index];
      if removed == None {
        return None;
      }
      cells[index] := None;
      count := count - 1;
      if count > 0 {
        cells[index] := cells[count];
        cells[count] := None;
      }
    }
  }

  // ---------- whole runs

  ghost function Run<T>(s: State<T>, ops: seq<Operation<T>>): State<T>
    decreases |ops|
  {
    if ops == [] then s else Run(Step(s, ops[0]), ops[1..])
  }

  ghost predicate InRange<T>(s: State<T>, ops: seq<Operation<T>>)
    decreases |ops|
  {
    ops == [] || ((ops[0].Remove? ==> ops[0].index < |s.contents|) && InRange(Step(s, ops[0]), ops[1..]))
  }

  ghost function Inserted<T>(ops: seq<Operation<T>>): multiset<T>
    decreases |ops|
  {
    if ops == [] then multiset{}
    else (if ops[0].Insert? then multiset{ops[0].element} else multiset{}) + Inserted(ops[1..])
  }

  ghost function Removed<T>(s: State<T>, ops: seq<Operation<T>>): multiset<T>
    requires InRange(s, ops)
    decreases |ops|
  {
    if ops == [] then multiset{}
    else
      var taken := if ops[0].Remove? then multiset{s.contents[ops[0].index]} else multiset{};
      taken + Removed(Step(s, ops[0]), ops[1..])
  }

  /** Over any interleaving of locked sections nothing is lost or invented. */
  lemma {:induction false} RunConserves<T>(s: State<T>, ops: seq<Operation<T>>)
    requires InRange(s, ops)
    ensures multiset(Run(s, ops).contents) + Removed(s, ops) == multiset(s.contents) + Inserted(ops)
    decreases |ops|
  {
    if ops != [] {
      var next, rest := Step(s, ops[0]), ops[1..];
      RunConserves(next, rest);
      match ops[0]
      case Insert(e) =>
        assert multiset(next.contents) == multiset(s.contents) + multiset{e};
        assert Inserted(ops) == multiset{e} + Inserted(rest);
        assert Removed(s, ops) == Removed(next, rest);
        AddToBoth(multiset(s.contents), multiset{e}, Inserted(rest));
      case Remove(i) =>
        SwapRemoveEffect(s.contents, i);
        assert s.contents[i] in s.contents;
        assert multiset(s.contents) == multiset(next.contents) + multiset{s.contents[i]};
        assert Removed(s, ops) == multiset{s.contents[i]} + Removed(next, rest);
        assert Inserted(ops) == Inserted(rest);
        TakeFromBoth(multiset(Run(s, ops).contents), Removed(next, rest),
                     multiset(next.contents), Inserted(rest), s.contents[i]);
    }
  }

  lemma AddToBoth<T>(a: multiset<T>, b: multiset<T>, c: multiset<T>)
    ensures (a + b) + c == a + (b + c)
  {
  }

  lemma TakeFromBoth<T>(left: multiset<T>, removed: multiset<T>, now: multiset<T>, inserted: multiset<T>, x: T)
    requires left + removed == now + inserted
    ensures left + (multiset{x} + removed) == (now + multiset{x}) + inserted
  {
    assert left + (multiset{x} + removed) == multiset{x} + (left + removed);
    assert (now + multiset{x}) + inserted == multiset{x} + (now + inserted);
  }

  /** The contents always fit in the allocated size, which only doublings of the initial one have made. */
  lemma {:induction false} RunFits<T>(initial: nat, s: State<T>, ops: seq<Operation<T>>)
    requires 0 < initial <= s.size && |s.contents| <= s.size && IsDoubling(initial, s.size)
    requires InRange(s, ops)
    ensures |Run(s, ops).contents| <= Run(s, ops).size
    ensures IsDoubling(initial, Run(s, ops).size)
    decreases |ops|
  {
    if ops != [] {
      DoubledAgain(initial, s.size);
      RunFits(initial, Step(s, ops[0]), ops[1..]);
    }
  }

  // ---------- the registry

  datatype Connection = Connection(socket: int, threadId: int)

  ghost predicate DistinctThreads(s: seq<Connection>) {
    forall i, j :: 0 <= i < j < |s| ==> s[i].threadId != s[j].threadId
  }

  /** A finished client thread removes the registry's first entry with its own id. */
  method RemoveOwn(clients: Vector<Connection>, threadId: int) returns (ghost at: Option<nat>)
    requires clients.Valid()
    modifies clients`count, clients.cells
    ensures clients.Valid()
    ensures at.None? ==> clients.Contents() == old(clients.Contents())
    ensures at.None? <==> forall c :: c in old(clients.Contents()) ==> c.threadId != threadId
    ensures at.Some? ==>
      && at.value < |old(clients.Contents())|
      && old(clients.Contents())[at.value].threadId == threadId
      && (forall k :: 0 <= k < at.value ==> old(clients.Contents())[k].threadId != threadId)
      && clients.Contents() == SwapRemove(old(clients.Contents()), at.value)
  {
    ghost var before := clients.Contents();
    var i := 0;
    while i < clients.count
      invariant 0 <= i <= clients.count && clients.cells == old(clients.cells)
      invariant clients.Valid() && clients.Contents() == before
      invariant forall k :: 0 <= k < i ==> before[k].threadId != threadId
    {
      var c := clients.At(i);
      if c.value.threadId == threadId {
        var _ := clients.Remove(i);
        assert before[i] in before;
        return Some(i);
      }
      i := i + 1;
    }
    return None;
  }

  /** With distinct ids, the entry removed is the only one with that id. */
  lemma OthersStay(before: seq<Connection>, i: nat, threadId: int)
    requires DistinctThreads(before) && i < |before| && before[i].threadId == threadId
    ensures var after := SwapRemove(before, i);
      && DistinctThreads(after)
      && forall c :: c in before && c.threadId != threadId <==> c in after
  {
    var after := SwapRemove(before, i);
    SwapRemoveEffect(before, i);
    assert forall k :: 0 <= k < |after| ==> after[k] == if k == i then before[|before| - 1] else before[k];
    forall c
      ensures c in before && c.threadId != threadId <==> c in after
    {
      if c in before && c.threadId != threadId {
        var k :| 0 <= k < |before| && before[k] == c;
        assert after[if k == |before| - 1 then i else k] == c;
      }
      if c in after {
        var k :| 0 <= k < |after| && after[k] == c;
        assert before[if k == i then |before| - 1 else k] == c;
      }
    }
  }

  function Reversed<T>(s: seq<T>): seq<T> {
    if s == [] then [] else [s[|s| - 1]] + Reversed(s[..|s| - 1])
  }

  /** The sweep at shutdown closes every registered client once, last first, and empties the registry. */
  method CloseAll(clients: Vector<Connection>) returns (closed: seq<Connection>)
    requires clients.Valid()
    modifies clients`count, clients.cells
    ensures clients.Valid() && clients.count == 0
    ensures closed == Reversed(old(clients.Contents()))
  {
    hide Step;
    closed := [];
    ghost var before := clients.Contents();
    var i := clients.count - 1;
    while i >= 0
      invariant clients.Valid() && i == clients.count - 1 && clients.cells == old(clients.cells)
      invariant clients.Contents() == before[..clients.count]
      invariant closed + Reversed(before[..clients.count]) == Reversed(before)
    {
      var client := clients.At(i);
      ghost var left := before[..clients.count];
      closed := closed + [client.value];
      var _ := clients.Remove(i);
      assert left[..|left| - 1] == before[..clients.count];
      i := i - 1;
    }
    assert before[..0] == [];
  }

  lemma {:induction false} ReversedKeepsAll<T>(s: seq<T>)
    ensures |Reversed(s)| == |s| && multiset(Reversed(s)) == multiset(s)
    ensures forall k :: 0 <= k < |s| ==> Reversed(s)[k] == s[|s| - 1 - k]
  {
    if s != [] {
      var init := s[..|s| - 1];
      ReversedKeepsAll(init);
      assert s == init + [s[|s| - 1]];
    }
  }
}
