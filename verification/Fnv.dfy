/** The 64-bit hash that picks a table slot. Hashes are naturals below 2^64, with multiplication
    modulo 2^64 and bitwise exclusive or written out. */
module Fnv {
  import opened Text

  const TWO64 := 0x1_0000_0000_0000_0000
  const FNV_PRIME_64 := 1099511628211
  const FNV_OFFSET_64 := 14695981039346656037

  /** The inverse of the prime modulo 2^64. */
  const FNV_INVERSE_64 := 0xce965057aff6957b

  type Uint64 = x: nat | x < TWO64

  function Pow2(n: nat): (p: nat)
    ensures p > 0
  {
    if n == 0 then 1 else 2 * Pow2(n - 1)
  }

  /** Exclusive or of the low `bits` bits. */
  function XorBits(a: nat, b: nat, bits: nat): (x: nat)
    ensures x < Pow2(bits)
    decreases bits
  {
    if bits == 0 then 0
    else (a + b) % 2 + 2 * XorBits(a / 2, b / 2, bits - 1)
  }

  function Xor(a: Uint64, b: Uint64): Uint64 {
    Pow2Of64();
    XorBits(a, b, 64)
  }

  lemma Pow2Of64()
    ensures Pow2(64) == TWO64
  {
    assert Pow2(4) == 16;
    Pow2Sum(4, 4);
    Pow2Sum(8, 8);
    Pow2Sum(16, 16);
    Pow2Sum(32, 32);
  }

  lemma {:induction false} Pow2Sum(a: nat, b: nat)
    ensures Pow2(a + b) == Pow2(a) * Pow2(b)
  {
    if a > 0 {
      Pow2Sum(a - 1, b);
    }
  }

  function Octet(c: char): Uint64 {
    c as int % 256
  }

  /** A `char` operand of `^` is widened with its sign. */
  function Widen(c: char): Uint64 {
    if Octet(c) < 128 then Octet(c) else Octet(c) + (TWO64 - 256)
  }

  function Times(x: Uint64, factor: nat): Uint64 {
    x * factor % TWO64
  }

  function HashStep(hash: Uint64, c: char): Uint64 {
    Times(Xor(hash, Widen(c)), FNV_PRIME_64)
  }

  function HashFrom(hash: Uint64, s: string): Uint64
    decreases |s|
  {
    if s == "" then hash else HashFrom(HashStep(hash, s[0]), s[1..])
  }

  function Hash(s: string): Uint64 {
    HashFrom(FNV_OFFSET_64, s)
  }

  /** FNV-1a as section 2 of draft-eastlake-fnv defines it, on octets. */
  function ReferenceStep(hash: Uint64, c: char): Uint64 {
    Times(Xor(hash, Octet(c)), FNV_PRIME_64)
  }

  function ReferenceFrom(hash: Uint64, s: string): Uint64
    decreases |s|
  {
    if s == "" then hash else ReferenceFrom(ReferenceStep(hash, s[0]), s[1..])
  }

  /** The loop over the key, up to its NUL. */
  method Fnv1a(memory: string) returns (hash: Uint64)
    requires NUL in memory
    ensures hash == Hash(CString(memory))
  {
    hash := FNV_OFFSET_64;
    var cptr := 0;
    ghost var key := CString(memory);
    CStringEnds(memory);
    while memory[cptr] != NUL
      invariant 0 <= cptr <= |key| < |memory| && memory[|key|] == NUL
      invariant forall k :: 0 <= k < |key| ==> memory[k] != NUL
      invariant HashFrom(hash, key[cptr..]) == Hash(key)
      decreases |key| - cptr
    {
      assert key[cptr..][0] == memory[cptr] && key[cptr..][1..] == key[cptr + 1..];
      hash := HashStep(hash, memory[cptr]);
      cptr := cptr + 1;
    }
    assert key[cptr..] == "";
  }

  lemma CStringEnds(memory: string)
    requires NUL in memory
    ensures |CString(memory)| < |memory|
    ensures forall k :: 0 <= k < |CString(memory)| ==> memory[k] != NUL
  {
    var key := CString(memory);
    assert key != memory;
    assert forall k :: 0 <= k < |key| ==> key[k] in key && memory[k] == key[k];
  }

  /** Multiplication by the prime is invertible, from either side. */
  lemma TimesInverts(x: Uint64)
    ensures Times(Times(x, FNV_PRIME_64), FNV_INVERSE_64) == x
    ensures Times(Times(x, FNV_INVERSE_64), FNV_PRIME_64) == x
  {
    var unit := FNV_PRIME_64 * FNV_INVERSE_64 / TWO64;
    assert FNV_PRIME_64 * FNV_INVERSE_64 == unit * TWO64 + 1;
    var p, q := x * FNV_PRIME_64 / TWO64, x * FNV_INVERSE_64 / TWO64;
    assert Times(x, FNV_PRIME_64) * FNV_INVERSE_64 == x + TWO64 * (unit * x - p * FNV_INVERSE_64);
    assert Times(x, FNV_INVERSE_64) * FNV_PRIME_64 == x + TWO64 * (unit * x - q * FNV_PRIME_64);
    ModuloMultiple(x, unit * x - p * FNV_INVERSE_64);
    ModuloMultiple(x, unit * x - q * FNV_PRIME_64);
  }

  lemma ModuloMultiple(x: Uint64, k: int)
    ensures (x + TWO64 * k) % TWO64 == x
  {
  }

  lemma {:induction false} XorBitsTwice(a: nat, b: nat, bits: nat)
    requires a < Pow2(bits)
    ensures XorBits(XorBits(a, b, bits), b, bits) == a
    decreases bits
  {
    if bits > 0 {
      var low, high := (a + b) % 2, XorBits(a / 2, b / 2, bits - 1);
      XorBitsTwice(a / 2, b / 2, bits - 1);
      XorSplit(low, high, b, bits);
      LowBit(a, b);
    }
  }

  lemma XorSplit(low: nat, high: nat, b: nat, bits: nat)
    requires low < 2 && bits > 0
    ensures XorBits(low + 2 * high, b, bits) == (low + b) % 2 + 2 * XorBits(high, b / 2, bits - 1)
  {
    assert (low + 2 * high) / 2 == high;
    assert (low + 2 * high + b) % 2 == (low + b) % 2;
  }

  lemma LowBit(a: nat, b: nat)
    ensures ((a + b) % 2 + b) % 2 == a % 2
  {
  }

  lemma XorTwice(a: Uint64, b: Uint64)
    ensures Xor(Xor(a, b), b) == a
  {
    Pow2Of64();
    XorBitsTwice(a, b, 64);
  }

  lemma {:induction false} XorBitsCommutes(a: nat, b: nat, bits: nat)
    ensures XorBits(a, b, bits) == XorBits(b, a, bits)
    decreases bits
  {
    if bits > 0 {
      XorBitsCommutes(a / 2, b / 2, bits - 1);
    }
  }

  /** One step is a bijection on hashes: this is its inverse. */
  lemma StepInverts(hash: Uint64, c: char)
    ensures Xor(Times(HashStep(hash, c), FNV_INVERSE_64), Widen(c)) == hash
    ensures HashStep(Xor(Times(hash, FNV_INVERSE_64), Widen(c)), c) == hash
  {
    TimesInverts(Xor(hash, Widen(c)));
    XorTwice(hash, Widen(c));
    XorTwice(Times(hash, FNV_INVERSE_64), Widen(c));
    TimesInverts(hash);
  }

  lemma {:induction false} HashFromAppend(hash: Uint64, a: string, b: string)
    ensures HashFrom(hash, a + b) == HashFrom(HashFrom(hash, a), b)
    decreases |a|
  {
    if a == "" {
      assert a + b == b;
    } else {
      assert (a + b)[1..] == a[1..] + b;
      HashFromAppend(HashStep(hash, a[0]), a[1..], b);
    }
  }

  /** For a fixed text the hash is a one-to-one function of the hash it starts from. */
  lemma {:induction false} HashFromInjective(g: Uint64, h: Uint64, s: string)
    requires HashFrom(g, s) == HashFrom(h, s)
    ensures g == h
    decreases |s|
  {
    if s != "" {
      HashFromInjective(HashStep(g, s[0]), HashStep(h, s[0]), s[1..]);
      StepInverts(g, s[0]);
      StepInverts(h, s[0]);
    }
  }

  /** A common suffix neither makes nor breaks a collision. */
  lemma SuffixCancels(a: string, b: string, c: string)
    ensures Hash(a + c) == Hash(b + c) <==> Hash(a) == Hash(b)
  {
    HashFromAppend(FNV_OFFSET_64, a, c);
    HashFromAppend(FNV_OFFSET_64, b, c);
    if Hash(a + c) == Hash(b + c) {
      HashFromInjective(Hash(a), Hash(b), c);
    }
  }

  predicate AllSevenBit(s: string) {
    forall i :: 0 <= i < |s| ==> Octet(s[i]) < 128
  }

  /** On seven-bit keys the function is FNV-1a. */
  lemma {:induction false} AgreesOnAscii(hash: Uint64, s: string)
    requires AllSevenBit(s)
    ensures HashFrom(hash, s) == ReferenceFrom(hash, s)
    decreases |s|
  {
    if s != "" {
      AgreesOnAscii(HashStep(hash, s[0]), s[1..]);
    }
  }

  /** On a one-byte text it is FNV-1a exactly when the byte is seven-bit. */
  lemma AgreesOnByte(hash: Uint64, c: char)
    ensures HashFrom(hash, [c]) == ReferenceFrom(hash, [c]) <==> Octet(c) < 128
  {
    var x, y := Xor(hash, Widen(c)), Xor(hash, Octet(c));
    assert HashFrom(hash, [c]) == Times(x, FNV_PRIME_64);
    assert ReferenceFrom(hash, [c]) == Times(y, FNV_PRIME_64);
    TimesInverts(x);
    TimesInverts(y);
    XorBitsCommutes(hash, Widen(c), 64);
    XorBitsCommutes(hash, Octet(c), 64);
    XorTwice(Widen(c), hash);
    XorTwice(Octet(c), hash);
  }

  lemma {:induction false} ReferenceFromAppend(hash: Uint64, a: string, b: string)
    ensures ReferenceFrom(hash, a + b) == ReferenceFrom(ReferenceFrom(hash, a), b)
    decreases |a|
  {
    if a == "" {
      assert a + b == b;
    } else {
      assert (a + b)[1..] == a[1..] + b;
      ReferenceFromAppend(ReferenceStep(hash, a[0]), a[1..], b);
    }
  }

  /** With a single byte from 128 on, wherever it stands, a text never has its FNV-1a hash. */
  lemma OneByteDiffers(a: string, c: char, b: string)
    requires AllSevenBit(a) && AllSevenBit(b)
    ensures Hash(a + [c] + b) == ReferenceFrom(FNV_OFFSET_64, a + [c] + b) <==> Octet(c) < 128
  {
    hide HashFrom, ReferenceFrom, Octet;
    AgreesOnAscii(FNV_OFFSET_64, a);
    var g := Hash(a);
    var x, y := HashFrom(g, [c]), ReferenceFrom(g, [c]);
    AgreesOnByte(g, c);
    AgreesOnAscii(y, b);
    HashFromAppend(FNV_OFFSET_64, a, [c]);
    HashFromAppend(FNV_OFFSET_64, a + [c], b);
    ReferenceFromAppend(FNV_OFFSET_64, a, [c]);
    ReferenceFromAppend(FNV_OFFSET_64, a + [c], b);
    if HashFrom(x, b) == HashFrom(y, b) {
      HashFromInjective(x, y, b);
    }
  }

  // ---------- bytes from 128 on

  const TWO56 := 0x100_0000_0000_0000

  /** The lowest `k` bits combine apart from the others. */
  lemma {:induction false} XorParts(x: nat, y: nat, a: nat, b: nat, c: nat, d: nat, k: nat, n: nat)
    requires a < Pow2(k) && b < Pow2(k) && x == a + Pow2(k) * c && y == b + Pow2(k) * d
    ensures XorBits(x, y, k + n) == XorBits(a, b, k) + Pow2(k) * XorBits(c, d, n)
  {
    if k > 0 {
      var p, rest := Pow2(k - 1), XorBits(c, d, n);
      var x', y' := a / 2 + p * c, b / 2 + p * d;
      Doubled(a, p, c);
      Doubled(b, p, d);
      Doubled(0, p, rest);
      XorHalves(a, b, a / 2, b / 2, a, b, k);
      XorHalves(x, y, x', y', a, b, k + n);
      assert Pow2(k) == 2 * p;
      hide *;
      XorParts(x', y', a / 2, b / 2, c, d, k - 1, n);
    }
  }

  lemma Doubled(a: nat, p: nat, c: nat)
    ensures a + 2 * p * c == a % 2 + 2 * (a / 2 + p * c)
  {
  }

  lemma XorHalves(x: nat, y: nat, x': nat, y': nat, a: nat, b: nat, bits: nat)
    requires bits > 0 && x == a % 2 + 2 * x' && y == b % 2 + 2 * y'
    ensures XorBits(x, y, bits) == (a + b) % 2 + 2 * XorBits(x', y', bits - 1)
  {
    assert x / 2 == x' && y / 2 == y' && (x + y) % 2 == (a + b) % 2;
  }

  lemma {:induction false} XorZero(a: nat, n: nat)
    requires a < Pow2(n)
    ensures XorBits(a, 0, n) == a
  {
    if n > 0 {
      XorZero(a / 2, n - 1);
    }
  }

  lemma {:induction false} XorOnes(a: nat, n: nat)
    requires a < Pow2(n)
    ensures XorBits(a, Pow2(n) - 1, n) == Pow2(n) - 1 - a
  {
    if n > 0 {
      Pow2Half(n);
      var ones := Pow2(n - 1) - 1;
      hide *;
      XorOnes(a / 2, n - 1);
      XorHalves(a, 1 + 2 * ones, a / 2, ones, a, 1, n);
      Flipped(a);
    }
  }

  lemma Pow2Half(n: nat)
    requires n > 0
    ensures Pow2(n) == 2 * Pow2(n - 1)
  {
  }

  lemma Flipped(a: nat)
    ensures (a + 1) % 2 == 1 - a + 2 * (a / 2)
  {
  }

  lemma Pow2Of56()
    ensures Pow2(8) == 256 && Pow2(56) == TWO56
  {
    assert Pow2(4) == 16;
    Pow2Sum(4, 4);
    Pow2Sum(8, 8);
    Pow2Sum(16, 16);
    Pow2Sum(32, 16);
    Pow2Sum(48, 8);
  }

  /** A byte changes the lowest eight bits of a hash; widened from 128 on, it also inverts all others. */
  lemma XorByte(hash: Uint64, c: char)
    ensures var low, high := XorBits(hash % 256, Octet(c), 8), hash / 256;
      && low < 256
      && Xor(hash, Octet(c)) == low + 256 * high
      && Xor(hash, Widen(c)) == low + 256 * if Octet(c) < 128 then high else TWO56 - 1 - high
  {
    hide XorBits, Pow2;
    Pow2Of56();
    Pow2Of64();
    var a, b, high := hash % 256, Octet(c), hash / 256;
    assert b < 256 && (b < 128 ==> Widen(c) == b) && (b >= 128 ==> Widen(c) == b + 256 * (TWO56 - 1));
    hide Octet, Widen;
    assert hash == a + 256 * high && high < TWO56 && b == b + 256 * 0;
    XorParts(hash, b, a, b, high, 0, 8, 56);
    XorZero(high, 56);
    XorParts(hash, b + 256 * (TWO56 - 1), a, b, high, TWO56 - 1, 8, 56);
    XorOnes(high, 56);
  }

  /** Equal in the lowest eight bits, and in the next one as well or not. */
  predicate Apart(x: nat, y: nat, bit: nat) {
    (x - y - 256 * bit) % 512 == 0
  }

  lemma ApartBy(x: nat, y: nat, bit: nat) returns (q: int)
    requires Apart(x, y, bit)
    ensures x - y == 256 * bit + 512 * q
    ensures x % 256 == y % 256 && x / 256 - y / 256 == bit + 2 * q
  {
    q := (x - y - 256 * bit) / 512;
    var k := bit + 2 * q;
    assert x == y % 256 + 256 * (y / 256 + k);
  }

  lemma IsApart(x: nat, y: nat, bit: nat, q: int)
    requires x - y == 256 * bit + 512 * q
    ensures Apart(x, y, bit)
  {
  }

  lemma TimesApart(x: Uint64, y: Uint64, bit: nat)
    requires Apart(x, y, bit)
    ensures Apart(Times(x, FNV_PRIME_64), Times(y, FNV_PRIME_64), bit)
  {
    var q := ApartBy(x, y, bit);
    var u, v := x * FNV_PRIME_64 / TWO64, y * FNV_PRIME_64 / TWO64;
    IsApart(Times(x, FNV_PRIME_64), Times(y, FNV_PRIME_64), bit,
            q * FNV_PRIME_64 + bit * (FNV_PRIME_64 / 2) - (u - v) * (TWO64 / 512));
  }

  lemma StepApart(hash: Uint64, reference: Uint64, c: char, bit: nat)
    requires Apart(hash, reference, bit) && bit < 2
    ensures Apart(HashStep(hash, c), ReferenceStep(reference, c), if Octet(c) < 128 then bit else 1 - bit)
  {
    hide XorBits, Xor, Widen, Octet, Times;
    var next := if Octet(c) < 128 then bit else 1 - bit;
    XorByte(hash, c);
    XorByte(reference, c);
    XorApart(hash, reference, Xor(hash, Widen(c)), Xor(reference, Octet(c)),
             XorBits(hash % 256, Octet(c), 8), XorBits(reference % 256, Octet(c), 8), bit, Octet(c) >= 128);
    TimesApart(Xor(hash, Widen(c)), Xor(reference, Octet(c)), next);
  }

  lemma XorApart(hash: Uint64, reference: Uint64, x: Uint64, y: Uint64, low: nat, low': nat, bit: nat, inverts: bool)
    requires Apart(hash, reference, bit) && bit < 2 && (hash % 256 == reference % 256 ==> low == low')
    requires x == low + 256 * (if inverts then TWO56 - 1 - hash / 256 else hash / 256)
    requires y == low' + 256 * (reference / 256)
    ensures Apart(x, y, if inverts then 1 - bit else bit)
  {
    var q := ApartBy(hash, reference, bit);
    var h: int, r: int := hash / 256, reference / 256;
    hide Apart;
    if inverts {
      IsApart(x, y, 1 - bit, TWO56 / 2 - 1 - q - r);
    } else {
      IsApart(x, y, bit, q);
    }
  }

  /** How many bytes are 128 or more. */
  function HighBytes(s: string): nat {
    if s == "" then 0 else (if Octet(s[0]) < 128 then 0 else 1) + HighBytes(s[1..])
  }

  lemma {:induction false} RunApart(hash: Uint64, reference: Uint64, s: string, bit: nat)
    requires Apart(hash, reference, bit) && bit < 2
    ensures Apart(HashFrom(hash, s), ReferenceFrom(reference, s), (bit + HighBytes(s)) % 2)
    decreases |s|
  {
    hide HashStep, ReferenceStep, Apart, Octet, HashFrom, ReferenceFrom, HighBytes;
    RunUnfolds(hash, reference, s);
    if s != "" {
      var next := if Octet(s[0]) < 128 then bit else 1 - bit;
      StepApart(hash, reference, s[0], bit);
      RunApart(HashStep(hash, s[0]), ReferenceStep(reference, s[0]), s[1..], next);
      SameParity(next + HighBytes(s[1..]), bit + HighBytes(s), if Octet(s[0]) < 128 then 0 else bit);
    }
  }

  lemma RunUnfolds(hash: Uint64, reference: Uint64, s: string)
    ensures if s == ""
      then HashFrom(hash, s) == hash && ReferenceFrom(reference, s) == reference && HighBytes(s) == 0 else
      && HashFrom(hash, s) == HashFrom(HashStep(hash, s[0]), s[1..])
      && ReferenceFrom(reference, s) == ReferenceFrom(ReferenceStep(reference, s[0]), s[1..])
      && HighBytes(s) == (if Octet(s[0]) < 128 then 0 else 1) + HighBytes(s[1..])
  {
    hide HashStep, ReferenceStep, Octet;
  }

  lemma SameParity(m: nat, n: nat, k: nat)
    requires n == m + 2 * k
    ensures m % 2 == n % 2
  {
  }

  /** With an odd number of bytes from 128 on, a text never has its FNV-1a hash. */
  lemma OddBytesDiffer(s: string)
    requires HighBytes(s) % 2 == 1
    ensures Hash(s) != ReferenceFrom(FNV_OFFSET_64, s)
  {
    hide HashFrom, ReferenceFrom, HighBytes;
    RunApart(FNV_OFFSET_64, FNV_OFFSET_64, s, 0);
  }

  /** With an even number it may: here the second such byte, whatever it is, makes up for the first. */
  lemma TwoBytesAgree(c: char)
    requires Octet(c) >= 128
    ensures var s := [0xA5 as char, c];
      HighBytes(s) == 2 && Hash(s) == ReferenceFrom(FNV_OFFSET_64, s)
  {
    var a, s := 0xA5 as char, [0xA5 as char, c];
    assert s[1..] == [c] && [c][1..] == "";
    assert Octet(a) == 0xA5;
    assert HighBytes("") == 0;
    assert HighBytes([c]) == 1;
    assert HighBytes(s) == 2;
    hide HashFrom, ReferenceFrom, HashStep, ReferenceStep, HighBytes, Octet;
    TwoSteps(FNV_OFFSET_64, a, c);
    FirstStep(FNV_OFFSET_64, a);
    SecondStep(HashStep(FNV_OFFSET_64, a), ReferenceStep(FNV_OFFSET_64, a), c);
  }

  lemma TwoSteps(hash: Uint64, a: char, c: char)
    ensures HashFrom(hash, [a, c]) == HashStep(HashStep(hash, a), c)
    ensures ReferenceFrom(hash, [a, c]) == ReferenceStep(ReferenceStep(hash, a), c)
  {
    hide HashStep, ReferenceStep;
    assert [a, c][1..] == [c] && [c][1..] == "";
    var h, r := HashStep(hash, a), ReferenceStep(hash, a);
    assert HashFrom(h, [c]) == HashStep(h, c) && ReferenceFrom(r, [c]) == ReferenceStep(r, c);
  }

  /** The two hashes are each other's negatives, and alike in their lowest eight bits. */
  predicate AreOpposite(h: Uint64, r: Uint64) {
    h as int + r == TWO64 && r % 256 == 128
  }

  lemma FirstStep(hash: Uint64, c: char)
    requires hash % 256 == 0x25 && Octet(c) == 0xA5
    ensures AreOpposite(HashStep(hash, c), ReferenceStep(hash, c))
  {
    hide Times, XorBits, Xor, Octet, Widen;
    XorByte(hash, c);
    TopBit();
    Opposite(Xor(hash, Widen(c)), Xor(hash, Octet(c)));
  }

  lemma TopBit()
    ensures XorBits(0x25, 0xA5, 8) == 0x80
  {
    Pow2Of56();
    assert Pow2(7) == 128 && XorBits(0, 1, 1) == 1;
    hide XorBits, Pow2;
    XorParts(0x25, 0xA5, 0x25, 0x25, 0, 1, 7, 1);
    XorSelf(0x25, 7);
  }

  lemma {:induction false} XorSelf(a: nat, n: nat)
    ensures XorBits(a, a, n) == 0
  {
    if n > 0 {
      XorSelf(a / 2, n - 1);
    }
  }

  lemma SecondStep(h: Uint64, r: Uint64, c: char)
    requires AreOpposite(h, r) && Octet(c) >= 128
    ensures HashStep(h, c) == ReferenceStep(r, c)
  {
    hide XorBits, Xor, Times, Octet, Widen;
    XorByte(h, c);
    XorByte(r, c);
    assert h % 256 == r % 256 && h / 256 == TWO56 - 1 - r / 256;
  }

  lemma Opposite(x: Uint64, y: Uint64)
    requires AreOpposite(x, y)
    ensures AreOpposite(Times(x, FNV_PRIME_64), Times(y, FNV_PRIME_64))
  {
    hide Times;
    var u := TimesQuotient(x);
    var v := TimesQuotient(y);
    var h: int, r: int, high: int := Times(x, FNV_PRIME_64), Times(y, FNV_PRIME_64), y / 256;
    assert y == 128 + 256 * high;
    IsOddMultiple(r, high * FNV_PRIME_64 + FNV_PRIME_64 / 2 - v * TWO56);
    SumOfTwo(h, r, FNV_PRIME_64 - u - v);
  }

  lemma TimesQuotient(x: Uint64) returns (u: int)
    ensures Times(x, FNV_PRIME_64) as int == x * FNV_PRIME_64 - TWO64 * u
  {
    u := x * FNV_PRIME_64 / TWO64;
  }

  lemma IsOddMultiple(r: int, k: int)
    requires r == 128 + 256 * k
    ensures r % 256 == 128
  {
  }

  lemma SumOfTwo(h: Uint64, r: Uint64, w: int)
    requires h as int + r == TWO64 * w && r > 0
    ensures h as int + r == TWO64
  {
  }

  // ---------- published hashes

  lemma XorBit(a: nat, b: nat, bits: nat, x: nat)
    requires XorBits(a / 2, b / 2, bits) == x
    ensures XorBits(a, b, bits + 1) == (a + b) % 2 + 2 * x
  {
  }

  lemma ReferenceByte(hash: Uint64, c: char, low: nat, next: Uint64)
    requires Octet(c) < 128 && XorBits(hash % 256, Octet(c), 8) == low
    requires (hash - hash % 256 + low) * FNV_PRIME_64 % TWO64 == next
    ensures ReferenceStep(hash, c) == next
  {
    hide XorBits, Xor;
    XorByte(hash, c);
  }

  /** The hash of the empty text and of "a" are those that appendix C of draft-eastlake-fnv lists. */
  lemma PublishedHashes()
    ensures Hash("") == 0xcbf29ce484222325 && Hash("a") == 0xaf63dc4c8601ec8c
  {
    hide HashFrom, ReferenceFrom, ReferenceStep, XorBits;
    FirstLetter(FNV_OFFSET_64);
    HashOfOne(FNV_OFFSET_64, 'a');
  }

  lemma FirstLetter(hash: Uint64)
    requires hash == FNV_OFFSET_64
    ensures ReferenceStep(hash, 'a') == 0xaf63dc4c8601ec8c
  {
    hide XorBits, ReferenceStep;
    XorZero(0, 1);
    XorBit(0, 1, 1, 0);
    XorBit(1, 3, 2, 1);
    XorBit(2, 6, 3, 2);
    XorBit(4, 12, 4, 4);
    XorBit(9, 24, 5, 8);
    XorBit(18, 48, 6, 17);
    XorBit(37, 97, 7, 34);
    ReferenceByte(hash, 'a', 0x44, 0xaf63dc4c8601ec8c);
  }

  lemma HashOfOne(hash: Uint64, c: char)
    requires Octet(c) < 128
    ensures HashFrom(hash, "") == hash && HashFrom(hash, [c]) == ReferenceStep(hash, c)
  {
    assert [c][1..] == "";
    AgreesOnAscii(hash, [c]);
    hide ReferenceStep, HashStep;
  }

  // ---------- slots

  /** The slot of a key in a table of `size` slots. */
  function Slot(key: string, size: nat): (i: nat)
    requires size > 0
    ensures i < size
  {
    Hash(CString(key)) % size
  }

  /** The hash of the key's bytes up to its NUL, modulo the number of slots. */
  method FindSlot(key: string, size: nat) returns (index: nat)
    requires size > 0
    ensures index == Slot(key, size)
  {
    CStringToNul(key, [NUL]);
    var hash := Fnv1a(key + [NUL]);
    return hash % size;
  }

  /** For seven-bit keys that is the remainder of their FNV-1a hash. */
  lemma SlotIsRemainder(key: string, size: nat)
    requires size > 0 && NUL !in key
    ensures Slot(key, size) == Hash(key) % size
    ensures AllSevenBit(key) ==> Slot(key, size) == ReferenceFrom(FNV_OFFSET_64, key) % size
  {
    CStringOf(key, "");
    assert key + "" == key;
    hide HashFrom, ReferenceFrom;
    if AllSevenBit(key) {
      AgreesOnAscii(FNV_OFFSET_64, key);
    }
  }
}
