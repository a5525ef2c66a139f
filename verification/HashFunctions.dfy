/**
 * mfbt/HashFunctions.h: one mixing step per 32-bit unit, over unsigned 32-bit words that wrap around.
 */
module HashFunctions {
  import opened Pow2s
  import opened Bits

  function RotateBitsLeft32(value: Word32, bits: nat): Word32
    requires 0 < bits < 32
  {
    Pow2_32();
    Or(Shl32(value, bits), Shr(value, 32 - bits), 32)
  }

  function AddU32ToHash(hash: Word32, value: Word32): Word32 {
    (GOLDEN_RATIO_U32 * Xor(RotateBitsLeft32(hash, 5), value, 32)) % TWO32
  }

  // ----- What one step computes, bit by bit -----

  /** A rotation exchanges the high and the low part of a word. */
  lemma RotationExchanges(hi: nat, lo: nat, bits: nat, x: Word32)
    requires 0 < bits < 32 && hi < Pow2(bits) && lo < Pow2(32 - bits) && x == hi * Pow2(32 - bits) + lo
    ensures RotateBitsLeft32(x, bits) == lo * Pow2(bits) + hi
  {
    hide Pow2, Shl32, Shr, Or;
    ShlDropsHigh(hi, lo, bits, x);
    ShrIsDiv(x, 32 - bits);
    ModUnique(x, Pow2(32 - bits), hi, lo);
    ModUnique(x, Pow2(32 - bits), Shr(x, 32 - bits), LowBits(x, 32 - bits));
    OrJoins(lo, hi, bits, 32);
  }

  /** Rotating left by some bits moves the bit at place i up by as many places, cyclically. */
  lemma BitOfRotated(x: Word32, bits: nat, i: nat)
    requires 0 < bits < 32 && i < 32
    ensures Bit(RotateBitsLeft32(x, bits), i) <==> Bit(x, (i - bits) % 32)
  {
    hide Pow2, RotateBitsLeft32, Bit;
    SplitWord32(bits);
    var p := Pow2(32 - bits);
    var hi, lo := x / p, x % p;
    DivLess(x, p, Pow2(bits));
    RotationExchanges(hi, lo, bits, x);
    BitOfJoined(lo, hi, bits, i);
    BitOfJoined(hi, lo, 32 - bits, (i - bits) % 32);
  }

  /** Undoing the multiplication shows the unit added on top of the hash rotated by five. */
  lemma BitOfMixed(hash: Word32, value: Word32, i: nat)
    requires i < 32
    ensures Bit((GOLDEN_INVERSE * AddU32ToHash(hash, value)) % TWO32, i)
       <==> Bit(hash, (i - 5) % 32) != Bit(value, i)
  {
    hide Pow2, Xor, RotateBitsLeft32, Bit;
    Pow2_32();
    GoldenInverse();
    var rotated := RotateBitsLeft32(hash, 5);
    MultiplicationInverts(GOLDEN_INVERSE, GOLDEN_RATIO_U32, Xor(rotated, value, 32));
    BitOfXor(rotated, value, 32, i);
    BitOfRotated(hash, 5, i);
  }

  lemma RotatedSmall(hash: Word32)
    requires hash < Pow2(27)
    ensures RotateBitsLeft32(hash, 5) == hash * Pow2(5)
  {
    hide Pow2, RotateBitsLeft32;
    RotationExchanges(0, hash, 5, hash);
  }

  lemma XorSmall(hash: Word32, value: Word32)
    requires hash < Pow2(27) && value < 32
    ensures Xor(RotateBitsLeft32(hash, 5), value, 32) == 32 * hash + value
  {
    assert Pow2(5) == 32;
    hide Pow2, Xor, RotateBitsLeft32;
    RotatedSmall(hash);
    XorJoins(hash, value, 5, 32);
  }

  lemma MixedIs(hash: Word32, value: Word32, x: nat)
    requires Xor(RotateBitsLeft32(hash, 5), value, 32) == x
    ensures AddU32ToHash(hash, value) == (GOLDEN_RATIO_U32 * x) % TWO32
  {
    hide Pow2, Xor, RotateBitsLeft32;
  }

  /** While nothing is rotated out of the word, a step appends five bits and multiplies. */
  lemma MixedSmall(hash: Word32, value: Word32)
    requires hash < Pow2(27) && value < 32
    ensures AddU32ToHash(hash, value) == (GOLDEN_RATIO_U32 * (32 * hash + value)) % TWO32
  {
    hide AddU32ToHash, Xor, RotateBitsLeft32, Pow2;
    XorSmall(hash, value);
    MixedIs(hash, value, 32 * hash + value);
  }

  /** The first unit is multiplied by the golden ratio: it is not left as it is. */
  lemma MixedFirst(value: Word32)
    ensures AddU32ToHash(0, value) == (GOLDEN_RATIO_U32 * value) % TWO32
  {
    hide Pow2, Xor, RotateBitsLeft32;
    Pow2_32();
    RotatedSmall(0);
    XorZero(value, 32);
  }

  // ----- Mixing loses nothing -----

  lemma RotationInverts(x: Word32, bits: nat)
    requires 0 < bits < 32
    ensures RotateBitsLeft32(RotateBitsLeft32(x, bits), 32 - bits) == x
  {
    hide Pow2, RotateBitsLeft32;
    SplitWord32(bits);
    var p := Pow2(32 - bits);
    var hi, lo := x / p, x % p;
    DivLess(x, p, Pow2(bits));
    RotationExchanges(hi, lo, bits, x);
    RotationExchanges(lo, hi, 32 - bits, RotateBitsLeft32(x, bits));
  }

  /** The only hash that AddU32ToHash takes to r with value. */
  function HashBefore(r: Word32, value: Word32): Word32 {
    Pow2_32();
    RotateBitsLeft32(Xor((GOLDEN_INVERSE * r) % TWO32, value, 32), 27)
  }

  /** The only value with which AddU32ToHash takes hash to r. */
  function ValueAdded(hash: Word32, r: Word32): Word32 {
    Pow2_32();
    Xor((GOLDEN_INVERSE * r) % TWO32, RotateBitsLeft32(hash, 5), 32)
  }

  /** For a given hash, AddU32ToHash is a bijection of the values. */
  lemma BijectiveInValue(hash: Word32, value: Word32, r: Word32)
    ensures AddU32ToHash(hash, value) == r <==> value == ValueAdded(hash, r)
  {
    hide Pow2, Xor, RotateBitsLeft32;
    Pow2_32();
    GoldenInverse();
    var rotated := RotateBitsLeft32(hash, 5);
    MultiplicationInverts(GOLDEN_RATIO_U32, GOLDEN_INVERSE, r);
    MultiplicationInverts(GOLDEN_INVERSE, GOLDEN_RATIO_U32, Xor(rotated, value, 32));
    XorCommutes(rotated, value, 32);
    XorUndoes(value, rotated, 32);
    XorUndoes((GOLDEN_INVERSE * r) % TWO32, rotated, 32);
    XorCommutes(rotated, ValueAdded(hash, r), 32);
  }

  /** For a given value, AddU32ToHash is a bijection of the hashes. */
  lemma BijectiveInHash(hash: Word32, value: Word32, r: Word32)
    ensures AddU32ToHash(hash, value) == r <==> hash == HashBefore(r, value)
  {
    hide Pow2, Xor, RotateBitsLeft32;
    Pow2_32();
    GoldenInverse();
    var rotated := RotateBitsLeft32(hash, 5);
    MultiplicationInverts(GOLDEN_RATIO_U32, GOLDEN_INVERSE, r);
    MultiplicationInverts(GOLDEN_INVERSE, GOLDEN_RATIO_U32, Xor(rotated, value, 32));
    XorUndoes(rotated, value, 32);
    XorUndoes((GOLDEN_INVERSE * r) % TWO32, value, 32);
    RotationInverts(hash, 5);
    RotationInverts(Xor((GOLDEN_INVERSE * r) % TWO32, value, 32), 27);
  }

  // ----- The order of the golden ratio -----

  function Power(g: nat, k: nat): nat {
    if k == 0 then 1 else g * Power(g, k - 1)
  }

  lemma {:induction false} PowerAdd(g: nat, a: nat, b: nat)
    ensures Power(g, a + b) == Power(g, a) * Power(g, b)
  {
    if a > 0 {
      PowerAdd(g, a - 1, b);
      Regroup(g, Power(g, a - 1), Power(g, b));
    }
  }

  /** How often two divides k. */
  function Twos(k: nat): nat
    requires k > 0
  {
    if k % 2 == 1 then 0 else 1 + Twos(k / 2)
  }

  lemma DoubleMod(k: nat, p: nat)
    requires p > 0
    ensures (2 * k) % (2 * p) == 2 * (k % p)
  {
    MulTwice(k / p, p);
    ModUnique(2 * k, 2 * p, k / p, 2 * (k % p));
  }

  lemma EvenMultiple(k: nat, m: nat, p: nat)
    requires p > 0 && m == 2 * p && k % m == 0
    ensures k % 2 == 0
  {
    var q := k / m;
    assert k == q * m;
    MulTwice(q, p);
  }

  lemma {:induction false} TwosDivides(k: nat, t: nat)
    requires k > 0
    ensures Twos(k) >= t <==> k % Pow2(t) == 0
    decreases k
  {
    if t > 0 {
      if k % 2 == 0 {
        TwosDivides(k / 2, t - 1);
        DoubleMod(k / 2, Pow2(t - 1));
      } else if k % Pow2(t) == 0 {
        EvenMultiple(k, Pow2(t), Pow2(t - 1));
      }
    }
  }

  lemma ProductOfOnes(a: nat, q: nat, c: nat, r: nat)
    ensures (1 + a * q) * (1 + (a * c) * r) == 1 + a * (q + c * r + (a * c) * (q * r))
  {
  }

  lemma EvenTerms(q: nat, c: nat, r: nat, b: nat, s: nat)
    ensures (q + (2 * c) * r + (2 * b) * s) % 2 == q % 2
  {
    assert (2 * c) * r == 2 * (c * r) && (2 * b) * s == 2 * (b * s);
  }

  /** The odd part of a product of two numbers one above a multiple of a power of two. */
  lemma ProductLift(e: nat, q: nat, f: nat, r: nat)
    requires f > e > 0
    ensures (1 + Pow2(e) * q) * (1 + Pow2(f) * r) == 1 + Pow2(e) * (q + Pow2(f - e) * r + Pow2(f) * (q * r))
    ensures (q + Pow2(f - e) * r + Pow2(f) * (q * r)) % 2 == q % 2
  {
    Pow2Add(e, f - e);
    ProductOfOnes(Pow2(e), q, Pow2(f - e), r);
    EvenTerms(q, Pow2(f - e - 1), r, Pow2(f - 1), q * r);
  }

  lemma SquareOfOne(b: nat, r: nat)
    ensures (1 + (2 * b) * r) * (1 + (2 * b) * r) == 1 + (2 * (2 * b)) * (r + b * (r * r))
  {
  }

  lemma SquareLift(f: nat, r: nat)
    requires f > 1
    ensures (1 + Pow2(f) * r) * (1 + Pow2(f) * r) == 1 + Pow2(f + 1) * (r + Pow2(f - 1) * (r * r))
    ensures (r + Pow2(f - 1) * (r * r)) % 2 == r % 2
  {
    SquareOfOne(Pow2(f - 1), r);
    EvenTerms(r, Pow2(f - 2), r * r, 0, 0);
  }

  /** g is one above an odd multiple, q, of 2^f. */
  predicate OneAbove(g: nat, f: nat, q: nat) {
    q % 2 == 1 && g == 1 + Pow2(f) * q
  }

  lemma EvenPower(g: nat, k: nat, f: nat, r: nat) returns (r': nat)
    requires f > 1 && OneAbove(Power(g, k), f, r)
    ensures OneAbove(Power(g, k + k), f + 1, r')
  {
    hide Pow2, Power;
    PowerAdd(g, k, k);
    SquareLift(f, r);
    r' := r + Pow2(f - 1) * (r * r);
  }

  lemma OddPower(g: nat, e: nat, q: nat, k: nat, f: nat, r: nat) returns (r': nat)
    requires f > e > 0 && OneAbove(g, e, q) && OneAbove(Power(g, k), f, r)
    ensures OneAbove(Power(g, k + 1), e, r')
  {
    assert Power(g, k + 1) == g * Power(g, k);
    hide Pow2, Power;
    ProductLift(e, q, f, r);
    r' := q + Pow2(f - e) * r + Pow2(f) * (q * r);
  }

  /** Raising to the power k multiplies the power of two below g - 1 by the one in k, no more and no less. */
  lemma {:induction false} PowerLift(g: nat, e: nat, q: nat, k: nat) returns (r: nat)
    requires e > 1 && OneAbove(g, e, q) && k > 0
    ensures OneAbove(Power(g, k), e + Twos(k), r)
    decreases k
  {
    hide OneAbove;
    if k == 1 {
      assert Power(g, 1) == g;
      r := q;
    } else if k % 2 == 0 {
      hide Power;
      r := PowerLift(g, e, q, k / 2);
      r := EvenPower(g, k / 2, e + Twos(k / 2), r);
    } else {
      hide Power;
      r := PowerLift(g, e, q, k - 1);
      r := OddPower(g, e, q, k - 1, e + Twos(k - 1), r);
    }
  }

  /** An odd multiple of 2^f is a multiple of 2^n exactly when f >= n. */
  lemma OddMultiple(f: nat, r: nat, n: nat)
    requires r % 2 == 1
    ensures (Pow2(f) * r) % Pow2(n) == 0 <==> f >= n
  {
    hide Pow2;
    if f >= n {
      Pow2Add(f - n, n);
      MulDiv(Pow2(f - n) * r, Pow2(n));
      Regroup(Pow2(f - n), Pow2(n), r);
    } else if (Pow2(f) * r) % Pow2(n) == 0 {
      OddCancel(Pow2(f), r, n);
      Pow2Monotone(f + 1, n);
      Pow2Grows(f);
      SmallMultiple(Pow2(f), Pow2(n));
    }
  }

  lemma Pow2Grows(f: nat)
    ensures Pow2(f) < Pow2(f + 1)
  {
  }

  /** The order of a number that is one above an odd multiple of eight. */
  lemma OrderModuloWord(g: nat, q: nat, k: nat)
    requires g == 1 + 8 * q && q % 2 == 1 && k > 0
    ensures Power(g, k) % TWO32 == 1 <==> k % Pow2(29) == 0
  {
    assert Pow2(3) == 8;
    hide Pow2, Power, Twos;
    var r := PowerLift(g, 3, q, k);
    TwosDivides(k, 29);
    Pow2_32();
    OddMultiple(3 + Twos(k), r, 32);
    OneMore(Pow2(3 + Twos(k)) * r);
  }

  /** The golden ratio has order exactly 2^29: no power below that is 1 modulo 2^32, and all multiples are. */
  lemma GoldenRatioOrder(k: nat)
    ensures Power(GOLDEN_RATIO_U32, k) % TWO32 == 1 <==> k % Pow2(29) == 0
  {
    hide Pow2;
    if k > 0 { OrderModuloWord(GOLDEN_RATIO_U32, 0x13C6EF37, k); }
  }

  lemma OneMore(x: nat)
    ensures (1 + x) % TWO32 == 1 <==> x % TWO32 == 0
  {
  }

  /** Multiplying a hash by the golden ratio k times over. */
  function GoldenTimes(hash: Word32, k: nat): Word32 {
    if k == 0 then hash else (GOLDEN_RATIO_U32 * GoldenTimes(hash, k - 1)) % TWO32
  }

  lemma {:induction false} GoldenTimesIsPower(hash: Word32, k: nat)
    ensures GoldenTimes(hash, k) == (Power(GOLDEN_RATIO_U32, k) * hash) % TWO32
  {
    if k > 0 {
      GoldenTimesIsPower(hash, k - 1);
      var g, p := GOLDEN_RATIO_U32, Power(GOLDEN_RATIO_U32, k - 1);
      var q, y := (p * hash) / TWO32, (p * hash) % TWO32;
      assert (g * p) * hash == g * y + (g * q) * TWO32 by {
        assert (g * p) * hash == g * (p * hash);
        assert p * hash == q * TWO32 + y;
        assert g * (q * TWO32 + y) == g * y + (g * q) * TWO32;
      }
      ModShift(g * y, g * q, TWO32);
    }
  }

  lemma OneFixes(p: nat, hash: Word32)
    requires p % TWO32 == 1
    ensures (p * hash) % TWO32 == hash
  {
    var q := p / TWO32;
    assert p == 1 + q * TWO32;
    SumTimes(1, q, TWO32, hash);
    ModUnique(p * hash, TWO32, q * hash, hash);
  }

  lemma OnlyOneFixes(p: nat, hash: Word32)
    requires hash % 2 == 1 && (p * hash) % TWO32 == hash
    ensures p % TWO32 == 1
  {
    hide Pow2;
    Pow2_32();
    ModEqual(p * hash, hash, TWO32) by { ModUnique(hash, TWO32, 0, hash); }
    LessOne(p, hash);
    OddCancel(p - 1, hash, 32);
    ModUnique(p, TWO32, (p - 1) / TWO32, 1);
  }

  lemma LessOne(p: int, h: int)
    ensures (p - 1) * h == p * h - h
  {
  }

  /** Repeated multiplication brings an odd hash back to itself after 2^29 steps, and not before. */
  lemma MultiplicationCancels(hash: Word32, k: nat)
    requires hash % 2 == 1
    ensures GoldenTimes(hash, k) == hash <==> k % Pow2(29) == 0
  {
    hide Pow2, Power, GoldenTimes;
    GoldenTimesIsPower(hash, k);
    GoldenRatioOrder(k);
    if k % Pow2(29) == 0 {
      OneFixes(Power(GOLDEN_RATIO_U32, k), hash);
    } else if GoldenTimes(hash, k) == hash {
      OnlyOneFixes(Power(GOLDEN_RATIO_U32, k), hash);
    }
  }

  // ----- Strings -----

  /** The hash of a string of units, each converted to 32 bits, from a starting hash. */
  function HashFrom(hash: Word32, units: seq<Word32>): Word32 {
    if units == [] then hash
    else AddU32ToHash(HashFrom(hash, units[..|units| - 1]), units[|units| - 1])
  }

  lemma HashOfOneUnit(unit: Word32)
    ensures HashFrom(0, [unit]) == (GOLDEN_RATIO_U32 * unit) % TWO32
  {
    hide AddU32ToHash;
    assert [unit][..0] == [];
    MixedFirst(unit);
  }

  /** The hash of "a". */
  lemma HashOfLetterA()
    ensures HashFrom(0, [0x61]) == 0xF305_1F19
  {
    hide HashFrom;
    HashOfOneUnit(0x61);
    ModUnique(GOLDEN_RATIO_U32 * 0x61, TWO32, 59, 0xF305_1F19);
  }

  /** The first zero of str is at n. */
  predicate TerminatesAt(str: seq<Word32>, n: nat) {
    n < |str| && str[n] == 0 && forall k :: 0 <= k < n ==> str[k] != 0
  }

  /** HashUntilZero on a string that is terminated at length, which the code does not know. */
  method HashUntilZero(str: seq<Word32>, ghost length: nat) returns (hash: Word32)
    requires TerminatesAt(str, length)
    ensures hash == HashFrom(0, str[..length])
  {
    hide AddU32ToHash;
    hash := 0;
    var at := 0;
    while str[at] != 0
      invariant 0 <= at <= length && hash == HashFrom(0, str[..at])
      decreases length - at
    {
      assert str[..at + 1][..at] == str[..at];
      hash := AddU32ToHash(hash, str[at]);
      at := at + 1;
    }
  }

  method HashKnownLength(str: seq<Word32>, length: nat) returns (hash: Word32)
    requires length <= |str|
    ensures hash == HashFrom(0, str[..length])
  {
    hide AddU32ToHash;
    hash := 0;
    for i := 0 to length
      invariant hash == HashFrom(0, str[..i])
    {
      assert str[..i + 1][..i] == str[..i];
      hash := AddU32ToHash(hash, str[i]);
    }
  }

  /** Both overloads of HashString give the same hash, whatever follows the terminator. */
  method HashStringOverloads(str: seq<Word32>, length: nat) returns (terminated: Word32, counted: Word32)
    requires TerminatesAt(str, length)
    ensures terminated == counted == HashFrom(0, str[..length])
  {
    terminated := HashUntilZero(str, length);
    counted := HashKnownLength(str, length);
  }

  lemma {:induction false} HashFromJoins(hash: Word32, a: seq<Word32>, b: seq<Word32>)
    ensures HashFrom(hash, a + b) == HashFrom(HashFrom(hash, a), b)
  {
    hide AddU32ToHash;
    if b == [] {
      assert a + b == a;
    } else {
      HashFromJoins(hash, a, b[..|b| - 1]);
      assert (a + b)[..|a + b| - 1] == a + b[..|b| - 1];
    }
  }

  /** Different hashes stay different, whatever units follow. */
  lemma {:induction false} SuffixKeepsApart(h1: Word32, h2: Word32, units: seq<Word32>)
    ensures HashFrom(h1, units) == HashFrom(h2, units) <==> h1 == h2
  {
    hide AddU32ToHash, HashBefore;
    if units != [] {
      var front, last := units[..|units| - 1], units[|units| - 1];
      SuffixKeepsApart(h1, h2, front);
      BijectiveInHash(HashFrom(h1, front), last, HashFrom(h1, units));
      BijectiveInHash(HashFrom(h2, front), last, HashFrom(h1, units));
    }
  }

  /** Strings of one length that differ in exactly one place, at, never have the same hash. */
  lemma OneUnitDecides(s: seq<Word32>, t: seq<Word32>, at: nat)
    requires |s| == |t| && at < |s| && s[..at] == t[..at] && s[at + 1..] == t[at + 1..]
    ensures HashFrom(0, s) == HashFrom(0, t) <==> s[at] == t[at]
  {
    hide AddU32ToHash, ValueAdded;
    var common, rest := s[..at], s[at + 1..];
    assert s == common + [s[at]] + rest && t == common + [t[at]] + rest;
    HashFromJoins(0, common + [s[at]], rest);
    HashFromJoins(0, common + [t[at]], rest);
    assert (common + [s[at]])[..at] == common == (common + [t[at]])[..at];
    var h1, h2 := HashFrom(0, common + [s[at]]), HashFrom(0, common + [t[at]]);
    SuffixKeepsApart(h1, h2, rest);
    BijectiveInValue(HashFrom(0, common), s[at], h1);
    BijectiveInValue(HashFrom(0, common), t[at], h1);
  }

  /** The hash of s with unit u at one place. */
  function HashWith(s: seq<Word32>, at: nat, u: Word32): Word32
    requires at < |s|
  {
    HashFrom(0, s[at := u])
  }

  /** Every hash is reached by exactly one choice of the unit at any one place of a string. */
  lemma EveryHashOnce(s: seq<Word32>, at: nat, target: Word32) returns (unit: Word32)
    requires at < |s|
    ensures forall u: Word32 :: HashWith(s, at, u) == target <==> u == unit
  {
    hide AddU32ToHash, ValueAdded;
    var before := Unhash(target, s[at + 1..]);
    unit := ValueAdded(HashFrom(0, s[..at]), before);
    forall u: Word32
      ensures HashWith(s, at, u) == target <==> u == unit
    {
      var prefix := s[..at] + [u];
      assert s[at := u] == prefix + s[at + 1..] && prefix[..at] == s[..at];
      HashFromJoins(0, prefix, s[at + 1..]);
      SuffixKeepsApart(HashFrom(0, prefix), before, s[at + 1..]);
      BijectiveInValue(HashFrom(0, s[..at]), u, before);
    }
  }

  /** The hash before units that leads to target after them. */
  lemma {:induction false} Unhash(target: Word32, units: seq<Word32>) returns (hash: Word32)
    ensures HashFrom(hash, units) == target
    decreases |units|
  {
    hide AddU32ToHash, HashBefore;
    if units == [] {
      hash := target;
    } else {
      var front, last := units[..|units| - 1], units[|units| - 1];
      hash := Unhash(HashBefore(target, last), front);
      BijectiveInHash(HashFrom(hash, front), last, target);
    }
  }
}
