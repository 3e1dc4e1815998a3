/** The store: a fixed number of slots, each with at most one value. Keys are not compared. */
module Tables {
  import opened Text
  import opened Decimal
  import opened CStrings
  import Fnv

  type Int64 = v: int | IsInt64(v)

  /** The largest range of integers that a `double` holds without gaps. */
  const EXACT := 0x20_0000_0000_0000

  predicate IsExact(v: int) {
    -EXACT <= v <= EXACT
  }

  /** The `double` operations the server relies on, left open: reading and printing text,
      conversions, addition and subtraction. */
  datatype Doubles = Doubles(
    atof: string -> real,
    format: real -> string,
    ofInt: Int64 -> real,
    toInt: real -> Int64,
    add: (real, real) -> real,
    sub: (real, real) -> real)
  {
    /** Integers up to 2^53 and their text are exact, and so are sums and differences among them. */
    ghost predicate ExactOnIntegers() {
      && (forall n: Int64 :: IsExact(n) ==> ofInt(n) == n as real && toInt(n as real) == n)
      && (forall s: string :: IsWhole(s) && IsExact(ReadInt(s)) ==> atof(s) == ReadInt(s) as real)
      && (forall m: int, n: int :: IsExact(m) && IsExact(n) && IsExact(m + n) ==>
            add(m as real, n as real) == (m + n) as real)
      && (forall m: int, n: int :: IsExact(m) && IsExact(n) && IsExact(m - n) ==>
            sub(m as real, n as real) == (m - n) as real)
    }
  }

  datatype Value = Number(decimal: Int64) | Real(r: real) | Str(bytes: string)

  /** A value after INC or DEC; strings are not counters. */
  function Counted(d: Doubles, v: Value, offset: real, up: bool): Option<Value> {
    match v
    case Str(_) => None
    case Number(n) => Some(Number(d.toInt(if up then d.add(d.ofInt(n), offset) else d.sub(d.ofInt(n), offset))))
    case Real(r) => Some(Real(if up then d.add(r, offset) else d.sub(r, offset)))
  }

  // ---------- the table and what its operations do

  datatype Table = Table(slots: seq<Option<Value>>, count: int)

  datatype Op<K> = Set(key: K, value: Value) | Get(key: K) | Bump(key: K, offset: real, up: bool) | Del(key: K)

  datatype Result = Found(value: Option<Value>) | Done(ok: bool)

  function Store(t: Table, i: nat, v: Value): Table
    requires i < |t.slots|
  {
    Table(t.slots[i := Some(v)], if t.slots[i].None? then t.count + 1 else t.count)
  }

  function Erase(t: Table, i: nat): Table
    requires i < |t.slots|
  {
    if t.slots[i].None? then t else Table(t.slots[i := None], t.count - 1)
  }

  function Bumped(d: Doubles, t: Table, i: nat, offset: real, up: bool): (Table, Option<Value>)
    requires i < |t.slots|
  {
    var r := if t.slots[i].None? then None else Counted(d, t.slots[i].value, offset, up);
    (if r.None? then t else Table(t.slots[i := r], t.count), r)
  }

  class HashTable {
    const slots: array<Option<Value>>
    var count: int

    ghost predicate Valid()
      reads this, slots
    {
      0 < slots.Length && count == Occupied(slots[..])
    }

    ghost function View(): Table
      reads this, slots
    {
      Table(slots[..], count)
    }

    /** Where a key lives. */
    function Index(key: string): (i: nat)
      requires slots.Length > 0
      ensures i < slots.Length
    {
      Fnv.Slot(key, slots.Length)
    }

    constructor (size: nat)
      requires size > 0
      ensures Valid() && View() == Table(seq(size, _ => None), 0)
    {
      slots := new Option<Value>[size](_ => None);
      count := 0;
      new;
      assert slots[..] == seq(size, _ => None);
      NoneOccupied(slots[..]);
    }

    method Set(key: string, value: Value)
      requires Valid()
      modifies this, slots
      ensures Valid() && View() == Store(old(View()), Index(key), value)
    {
      var index := Fnv.FindSlot(key, slots.Length);
      OccupiedUpdate(slots[..], index, Some(value));
      if slots[index] == None {
        count := count + 1;
      }
      slots[index] := Some(value);
    }

    method Get(key: string) returns (r: Option<Value>)
      requires Valid()
      ensures r == View().slots[Index(key)]
    {
      var index := Fnv.FindSlot(key, slots.Length);
      r := slots[index];
    }

    /** `hash_table_inc` and `hash_table_dec`. */
    method Bump(d: Doubles, key: string, offset: real, up: bool) returns (r: Option<Value>)
      requires Valid()
      modifies slots
      ensures Valid() && (View(), r) == Bumped(d, old(View()), Index(key), offset, up)
    {
      var index := Fnv.FindSlot(key, slots.Length);
      if slots[index] == None {
        return None;
      }
      match slots[index].value {
        case Str(_) =>
          return None;
        case Number(n) =>
          r := Some(Number(d.toInt(if up then d.add(d.ofInt(n), offset) else d.sub(d.ofInt(n), offset))));
        case Real(x) =>
          r := Some(Real(if up then d.add(x, offset) else d.sub(x, offset)));
      }
      OccupiedUpdate(slots[..], index, r);
      slots[index] := r;
    }

    method Del(key: string) returns (ok: bool)
      requires Valid()
      modifies this, slots
      ensures Valid() && View() == Erase(old(View()), Index(key))
      ensures ok <==> old(View()).slots[Index(key)].Some?
    {
      var index := Fnv.FindSlot(key, slots.Length);
      if slots[index] == None {
        return false;
      }
      OccupiedUpdate(slots[..], index, None);
      slots[index] := None;
      count := count - 1;
      return true;
    }
  }

  // ---------- counting

  function Occupied(slots: seq<Option<Value>>): nat {
    if slots == [] then 0 else (if slots[0].Some? then 1 else 0) + Occupied(slots[1..])
  }

  lemma {:induction false} OccupiedUpdate(slots: seq<Option<Value>>, i: nat, v: Option<Value>)
    requires i < |slots|
    ensures Occupied(slots[i := v]) == Occupied(slots) - (if slots[i].Some? then 1 else 0) + (if v.Some? then 1 else 0)
  {
    if i == 0 {
      assert slots[i := v][1..] == slots[1..];
    } else {
      assert slots[i := v][1..] == slots[1..][i - 1 := v];
      OccupiedUpdate(slots[1..], i - 1, v);
    }
  }

  lemma {:induction false} NoneOccupied(slots: seq<Option<Value>>)
    requires forall i :: 0 <= i < |slots| ==> slots[i] == None
    ensures Occupied(slots) == 0
  {
    if slots != [] {
      NoneOccupied(slots[1..]);
    }
  }

  // ---------- whole runs against an ordinary map

  ghost function TableStep<K>(d: Doubles, t: Table, slot: K -> nat, op: Op<K>): (r: (Table, Result))
    requires slot(op.key) < |t.slots|
    ensures |r.0.slots| == |t.slots|
  {
    var i := slot(op.key);
    match op
    case Set(_, v) => (Store(t, i, v), Done(true))
    case Get(_) => (t, Found(t.slots[i]))
    case Bump(_, offset, up) => var (t', r) := Bumped(d, t, i, offset, up); (t', Found(r))
    case Del(_) => (Erase(t, i), Done(t.slots[i].Some?))
  }

  ghost function Lookup<K>(m: map<K, Value>, key: K): Option<Value> {
    if key in m then Some(m[key]) else None
  }

  /** The same operation on a map. */
  ghost function MapStep<K>(d: Doubles, m: map<K, Value>, op: Op<K>): (map<K, Value>, Result) {
    match op
    case Set(k, v) => (m[k := v], Done(true))
    case Get(k) => (m, Found(Lookup(m, k)))
    case Bump(k, offset, up) =>
      var r := if k in m then Counted(d, m[k], offset, up) else None;
      (if r.Some? then m[k := r.value] else m, Found(r))
    case Del(k) => (m - {k}, Done(k in m))
  }

  ghost function TableResults<K>(d: Doubles, t: Table, slot: K -> nat, ops: seq<Op<K>>): seq<Result>
    requires forall i :: 0 <= i < |ops| ==> slot(ops[i].key) < |t.slots|
    decreases |ops|
  {
    if ops == [] then [] else
      var (t', r) := TableStep(d, t, slot, ops[0]);
      [r] + TableResults(d, t', slot, ops[1..])
  }

  ghost function MapResults<K>(d: Doubles, m: map<K, Value>, ops: seq<Op<K>>): seq<Result>
    decreases |ops|
  {
    if ops == [] then [] else
      var (m', r) := MapStep(d, m, ops[0]);
      [r] + MapResults(d, m', ops[1..])
  }

  /** No two of the keys share a slot. */
  ghost predicate Injective<K>(slot: K -> nat, keys: set<K>) {
    forall a, b :: a in keys && b in keys && slot(a) == slot(b) ==> a == b
  }

  ghost predicate Agree<K>(t: Table, m: map<K, Value>, slot: K -> nat, keys: set<K>) {
    forall k :: k in keys ==> slot(k) < |t.slots| && t.slots[slot(k)] == Lookup(m, k)
  }

  lemma StepSimulates<K>(d: Doubles, t: Table, m: map<K, Value>, slot: K -> nat, keys: set<K>, op: Op<K>)
    requires Agree(t, m, slot, keys) && Injective(slot, keys) && op.key in keys
    ensures TableStep(d, t, slot, op).1 == MapStep(d, m, op).1
    ensures Agree(TableStep(d, t, slot, op).0, MapStep(d, m, op).0, slot, keys)
  {
    var i, t', m' := slot(op.key), TableStep(d, t, slot, op).0, MapStep(d, m, op).0;
    forall k | k in keys
      ensures slot(k) < |t'.slots| && t'.slots[slot(k)] == Lookup(m', k)
    {
      assert t.slots[slot(k)] == Lookup(m, k);
      if k != op.key {
        assert slot(k) != i;
      }
    }
  }

  /** On keys that do not collide, every sequence of operations answers as a map keyed by those keys. */
  lemma {:induction false} RunSimulates<K>(d: Doubles, t: Table, m: map<K, Value>, slot: K -> nat, keys: set<K>,
                                           ops: seq<Op<K>>)
    requires Agree(t, m, slot, keys) && Injective(slot, keys)
    requires forall i :: 0 <= i < |ops| ==> ops[i].key in keys
    ensures TableResults(d, t, slot, ops) == MapResults(d, m, ops)
    decreases |ops|
  {
    if ops != [] {
      StepSimulates(d, t, m, slot, keys, ops[0]);
      RunSimulates(d, TableStep(d, t, slot, ops[0]).0, MapStep(d, m, ops[0]).0, slot, keys, ops[1..]);
    }
  }

  /** Every run over `keys` answers as the map does. */
  ghost predicate AnswersAsMap<K(!new)>(d: Doubles, t: Table, m: map<K, Value>, slot: K -> nat, keys: set<K>)
    requires forall k :: k in keys ==> slot(k) < |t.slots|
  {
    forall ops: seq<Op<K>> :: (forall i :: 0 <= i < |ops| ==> ops[i].key in keys)
      ==> TableResults(d, t, slot, ops) == MapResults(d, m, ops)
  }

  /** Two keys that share a slot: what is stored under one is read under the other. */
  lemma SharedSlotShows<K>(d: Doubles, t: Table, m: map<K, Value>, slot: K -> nat, a: K, b: K) returns (ops: seq<Op<K>>)
    requires a != b && slot(a) == slot(b) < |t.slots|
    ensures forall i :: 0 <= i < |ops| ==> ops[i].key in {a, b}
    ensures TableResults(d, t, slot, ops) != MapResults(d, m, ops)
  {
    var v := if Lookup(m, b) == Some(Number(0)) then Number(1) else Number(0);
    ops := [Set(a, v), Get(b)];
    var t', m' := TableStep(d, t, slot, ops[0]).0, MapStep(d, m, ops[0]).0;
    assert ops[1..] == [Get(b)];
    assert TableResults(d, t', slot, ops[1..])[0] == Found(Some(v));
    assert MapResults(d, m', ops[1..])[0] == Found(Lookup(m, b));
    assert TableResults(d, t, slot, ops)[1] != MapResults(d, m, ops)[1];
  }

  /** All runs over a set of keys answer as a map keyed by them if and only if no two of them share a slot. */
  lemma SimulatesIffInjective<K(!new)>(d: Doubles, t: Table, m: map<K, Value>, slot: K -> nat, keys: set<K>)
    requires Agree(t, m, slot, keys)
    ensures AnswersAsMap(d, t, m, slot, keys) <==> Injective(slot, keys)
  {
    hide TableResults, MapResults, Lookup;
    if Injective(slot, keys) {
      forall ops: seq<Op<K>> | forall i :: 0 <= i < |ops| ==> ops[i].key in keys
        ensures TableResults(d, t, slot, ops) == MapResults(d, m, ops)
      {
        RunSimulates(d, t, m, slot, keys, ops);
      }
    } else {
      var a, b :| a in keys && b in keys && slot(a) == slot(b) && a != b;
      var ops := SharedSlotShows(d, t, m, slot, a, b);
    }
  }

  // ---------- keys that share a slot

  ghost function SlotIn(size: nat): string -> nat
    requires size > 0
  {
    key => Fnv.Slot(key, size)
  }

  /** For the server's hash: every run over these keys answers as a map if and only if the remainders of the
      hashes of their C strings differ; of seven-bit C strings, these are FNV-1a hashes. */
  lemma KeysSimulate(d: Doubles, t: Table, m: map<string, Value>, keys: set<string>)
    requires t.slots != []
    requires forall k :: k in keys ==> t.slots[Fnv.Hash(CString(k)) % |t.slots|] == Lookup(m, k)
    ensures AnswersAsMap(d, t, m, SlotIn(|t.slots|), keys) <==> forall a, b :: a in keys && b in keys && a != b ==>
      Fnv.Hash(CString(a)) % |t.slots| != Fnv.Hash(CString(b)) % |t.slots|
    ensures forall k :: k in keys && NUL !in k && Fnv.AllSevenBit(k) ==>
      Fnv.Hash(CString(k)) == Fnv.ReferenceFrom(Fnv.FNV_OFFSET_64, k)
  {
    hide Fnv.HashFrom, Fnv.ReferenceFrom, Lookup;
    forall k | k in keys
      ensures NUL !in k && Fnv.AllSevenBit(k) ==> Fnv.Hash(CString(k)) == Fnv.ReferenceFrom(Fnv.FNV_OFFSET_64, k)
    {
      HashOfKey(k);
    }
    SlotsAreRemainders(t, m, keys);
    hide Fnv.Slot, Fnv.Hash, Agree, AnswersAsMap;
    SimulatesIffInjective(d, t, m, SlotIn(|t.slots|), keys);
  }

  lemma HashOfKey(key: string)
    ensures NUL !in key && Fnv.AllSevenBit(key) ==> Fnv.Hash(CString(key)) == Fnv.ReferenceFrom(Fnv.FNV_OFFSET_64, key)
  {
    hide Fnv.HashFrom, Fnv.ReferenceFrom;
    if NUL !in key && Fnv.AllSevenBit(key) {
      CStringOf(key, "");
      assert key + "" == key;
      Fnv.AgreesOnAscii(Fnv.FNV_OFFSET_64, key);
    }
  }

  lemma SlotsAreRemainders(t: Table, m: map<string, Value>, keys: set<string>)
    requires t.slots != []
    requires forall k :: k in keys ==> t.slots[Fnv.Hash(CString(k)) % |t.slots|] == Lookup(m, k)
    ensures Agree(t, m, SlotIn(|t.slots|), keys)
    ensures Injective(SlotIn(|t.slots|), keys) <==> forall a, b :: a in keys && b in keys && a != b ==>
      Fnv.Hash(CString(a)) % |t.slots| != Fnv.Hash(CString(b)) % |t.slots|
  {
    hide Fnv.Hash, CString, Lookup;
    assert forall k :: SlotIn(|t.slots|)(k) == Fnv.Hash(CString(k)) % |t.slots|;
  }

  /** More keys than slots: two of them share one. */
  lemma {:induction false} Crowded<K>(slot: K -> nat, keys: set<K>, n: nat)
    requires |keys| > n && forall k :: k in keys ==> slot(k) < n
    ensures !Injective(slot, keys)
  {
    var some :| some in keys;
    if n > 0 {
      var last := set k | k in keys && slot(k) == n - 1;
      if Injective(slot, keys) {
        assert |last| <= 1 by {
          if k :| k in last {
            assert last == {k};
          }
        }
        assert keys == last + (keys - last) && |keys - last| == |keys| - |last|;
        Crowded(slot, keys - last, n - 1);
      }
    }
  }

  /** In a table of `size` slots, no set of more than `size` keys is free of collisions, whatever they are. */
  lemma KeysCollide(keys: set<string>, size: nat)
    requires |keys| > size > 0
    ensures !Injective(SlotIn(size), keys)
  {
    Crowded(SlotIn(size), keys, size);
  }

  /** The printed numbers below `n`. */
  ghost function Printed(n: nat): (keys: set<string>)
    ensures forall k :: k in keys ==> k != "" && AllDigits(k)
  {
    set i: nat | i < n :: PrintNat(i)
  }

  lemma {:induction false} PrintedSize(n: nat)
    ensures |Printed(n)| == n
  {
    if n > 0 {
      PrintedSize(n - 1);
      forall i: nat | i < n - 1
        ensures PrintNat(i) != PrintNat(n - 1)
      {
        assert PrintNat(i) + "" == PrintNat(i) && PrintNat(n - 1) + "" == PrintNat(n - 1);
        ReadPrintedNat(i, "");
        ReadPrintedNat(n - 1, "");
      }
      hide PrintNat;
      assert Printed(n) == Printed(n - 1) + {PrintNat(n - 1)};
    }
  }

  /** So every table size has two keys of digits alone on which the store is no map keyed by keys. */
  lemma DigitsCollide(d: Doubles, t: Table, m: map<string, Value>) returns (a: string, b: string)
    requires t.slots != []
    ensures a != b && a != "" && b != "" && AllDigits(a) && AllDigits(b)
    ensures Fnv.Slot(a, |t.slots|) == Fnv.Slot(b, |t.slots|)
    ensures !AnswersAsMap(d, t, m, SlotIn(|t.slots|), {a, b})
  {
    var size := |t.slots|;
    PrintedSize(size + 1);
    KeysCollide(Printed(size + 1), size);
    hide TableResults, MapResults, Fnv.Slot;
    a, b :| a in Printed(size + 1) && b in Printed(size + 1) && SlotIn(size)(a) == SlotIn(size)(b) && a != b;
    var ops := SharedSlotShows(d, t, m, SlotIn(size), a, b);
  }

  ghost function Renamed<K>(op: Op<K>, slot: K -> nat): Op<nat> {
    match op
    case Set(k, v) => Set(slot(k), v)
    case Get(k) => Get(slot(k))
    case Bump(k, offset, up) => Op.Bump(slot(k), offset, up)
    case Del(k) => Del(slot(k))
  }

  ghost function RenamedAll<K>(ops: seq<Op<K>>, slot: K -> nat): (r: seq<Op<nat>>)
    ensures |r| == |ops| && forall i :: 0 <= i < |ops| ==> r[i] == Renamed(ops[i], slot)
  {
    if ops == [] then [] else [Renamed(ops[0], slot)] + RenamedAll(ops[1..], slot)
  }

  /** On any keys at all, every sequence of operations answers as a map keyed by slot. */
  lemma {:induction false} RunSimulatesSlots<K>(d: Doubles, t: Table, m: map<nat, Value>, slot: K -> nat,
                                                ops: seq<Op<K>>)
    requires forall i :: 0 <= i < |ops| ==> slot(ops[i].key) < |t.slots|
    requires forall i: nat :: i < |t.slots| ==> t.slots[i] == Lookup(m, i)
    ensures TableResults(d, t, slot, ops) == MapResults(d, m, RenamedAll(ops, slot))
    decreases |ops|
  {
    if ops != [] {
      var t', m' := TableStep(d, t, slot, ops[0]).0, MapStep(d, m, Renamed(ops[0], slot)).0;
      assert t.slots[slot(ops[0].key)] == Lookup(m, slot(ops[0].key));
      forall i: nat | i < |t'.slots|
        ensures t'.slots[i] == Lookup(m', i)
      {
        assert t.slots[i] == Lookup(m, i);
      }
      RunSimulatesSlots(d, t', m', slot, ops[1..]);
      assert RenamedAll(ops, slot)[1..] == RenamedAll(ops[1..], slot);
    }
  }

  // ---------- counters

  /** An INC or a DEC, by 1 where no offset is given. */
  datatype Change = Change(offset: Option<string>, up: bool) {

    function Amount(): int {
      if offset.None? then 1 else ReadInt(offset.value)
    }

    function Delta(): int {
      if up then Amount() else -Amount()
    }

    function Real(d: Doubles): real {
      if offset.None? then 1.0 else d.atof(offset.value)
    }

    ghost predicate IsExactChange() {
      (offset.Some? ==> IsWhole(offset.value)) && IsExact(Amount())
    }
  }

  ghost function Sum(changes: seq<Change>): int {
    Total(Deltas(changes))
  }

  ghost function Deltas(changes: seq<Change>): seq<int> {
    seq(|changes|, i requires 0 <= i < |changes| => changes[i].Delta())
  }

  /** Every offset is whole, and it and every value on the way stay within 2^53. */
  ghost predicate StaysExact(start: int, changes: seq<Change>)
    decreases |changes|
  {
    IsExact(start) && (changes != [] ==>
      changes[0].IsExactChange() && StaysExact(start + changes[0].Delta(), changes[1..]))
  }

  ghost function CountAll(d: Doubles, v: Value, changes: seq<Change>): Option<Value>
    decreases |changes|
  {
    if changes == [] then Some(v)
    else
      var r := Counted(d, v, changes[0].Real(d), changes[0].up);
      if r.None? then None else CountAll(d, r.value, changes[1..])
  }

  /** Any sequence of whole INCs and DECs leaves the start plus the INCs minus the DECs. */
  lemma {:induction false} CountersAdd(d: Doubles, start: Int64, changes: seq<Change>)
    requires d.ExactOnIntegers() && StaysExact(start, changes)
    ensures IsInt64(start + Sum(changes))
    ensures CountAll(d, Number(start), changes) == Some(Number(start + Sum(changes)))
    decreases |changes|
  {
    SumOfNone();
    hide Sum, Counted, Change.Delta, Change.Real, Change.IsExactChange, Doubles.ExactOnIntegers;
    if changes != [] {
      var c := changes[0];
      var next := start + c.Delta();
      assert IsExact(next) && IsInt64(next);
      ChangeExact(d, start, c);
      SumOfRest(changes);
      CountersAdd(d, next, changes[1..]);
    }
  }

  lemma ChangeExact(d: Doubles, start: Int64, c: Change)
    requires d.ExactOnIntegers() && IsExact(start) && c.IsExactChange() && IsExact(start + c.Delta())
    ensures Counted(d, Number(start), c.Real(d), c.up) == Some(Number(start + c.Delta()))
  {
    hide IsWhole, ReadInt;
    var n: int, next: Int64 := c.Amount(), start + c.Delta();
    assert c.Real(d) == n as real;
    assert d.ofInt(start) == start as real && d.toInt(next as real) == next;
    assert if c.up then d.add(start as real, n as real) == next as real
           else d.sub(start as real, n as real) == next as real;
  }

  lemma SumOfNone()
    ensures Sum([]) == 0
  {
  }

  lemma SumOfRest(changes: seq<Change>)
    requires changes != []
    ensures Sum(changes) == changes[0].Delta() + Sum(changes[1..])
  {
    SumSplits([changes[0]], changes[1..]);
    assert [changes[0]] + changes[1..] == changes;
  }

  /** Hence two orders of the same changes agree. */
  lemma OrderDoesNotMatter(d: Doubles, start: Int64, a: seq<Change>, b: seq<Change>)
    requires d.ExactOnIntegers() && StaysExact(start, a) && StaysExact(start, b)
    requires multiset(a) == multiset(b)
    ensures CountAll(d, Number(start), a) == CountAll(d, Number(start), b)
  {
    hide *;
    CountersAdd(d, start, a);
    CountersAdd(d, start, b);
    SumOfPermutation(a, b);
  }

  lemma {:induction false} SumOfPermutation(a: seq<Change>, b: seq<Change>)
    requires multiset(a) == multiset(b)
    ensures Sum(a) == Sum(b)
    decreases |a|
  {
    if a == [] {
      assert |multiset(b)| == 0;
    } else {
      assert a == [a[0]] + a[1..];
      assert a[0] in multiset(b);
      var k :| 0 <= k < |b| && b[k] == a[0];
      SameWithout(a, b, k);
      hide *;
      SumWithout(a, 0);
      SumWithout(b, k);
      assert a[..0] + a[1..] == a[1..];
      SumOfPermutation(a[1..], b[..k] + b[k + 1..]);
    }
  }

  lemma SameWithout(a: seq<Change>, b: seq<Change>, k: nat)
    requires multiset(a) == multiset(b) && a != [] && k < |b| && b[k] == a[0]
    ensures multiset(a[1..]) == multiset(b[..k] + b[k + 1..])
  {
    var x, before, after := a[0], b[..k], b[k + 1..];
    assert a == [x] + a[1..];
    assert multiset(a[1..]) == multiset(a) - multiset{x};
    assert b == before + ([x] + after);
    WithoutOne(before, x, after);
  }

  lemma SumWithout(b: seq<Change>, k: nat)
    requires k < |b|
    ensures Sum(b) == b[k].Delta() + Sum(b[..k] + b[k + 1..])
  {
    hide *;
    assert b == b[..k] + ([b[k]] + b[k + 1..]);
    SumWithoutOne(b[..k], b[k], b[k + 1..]);
  }

  lemma SumWithoutOne(before: seq<Change>, x: Change, after: seq<Change>)
    ensures Sum(before + ([x] + after)) == x.Delta() + Sum(before + after)
  {
    SumSplits([x], after);
    SumSplits(before, after);
    SumSplits(before, [x] + after);
  }

  lemma WithoutOne(before: seq<Change>, x: Change, after: seq<Change>)
    ensures multiset(before + after) == multiset(before + ([x] + after)) - multiset{x}
  {
  }

  lemma SumSplits(a: seq<Change>, b: seq<Change>)
    ensures Sum(a + b) == Sum(a) + Sum(b)
    ensures forall c :: a == [c] ==> Sum(a) == c.Delta()
  {
    assert Deltas(a + b) == Deltas(a) + Deltas(b);
    TotalAppend(Deltas(a), Deltas(b));
  }
}
