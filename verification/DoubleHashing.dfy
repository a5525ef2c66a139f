/**
 * The probe sequence of the open-addressing table: hash1 picks the first slot, hash2 an odd
 * step, and applyDoubleHash walks the power-of-two storage.
 */
module DoubleHashing {
  import opened Pow2s

  const HASH_BITS: nat := 32

  /** hash0 >> (32 - sizeLog2) */
  function Hash1(keyHash: Word32, sizeLog2: nat): (h1: nat)
    requires sizeLog2 <= HASH_BITS
    ensures h1 < Pow2(sizeLog2)
  {
    Pow2_32();
    ShrBound(keyHash, sizeLog2, HASH_BITS - sizeLog2);
    Shr(keyHash, HASH_BITS - sizeLog2)
  }

  /** ((keyHash << sizeLog2) >> (32 - sizeLog2)) | 1 */
  function Hash2(keyHash: Word32, sizeLog2: nat): (h2: nat)
    requires sizeLog2 <= HASH_BITS
    ensures h2 % 2 == 1
  {
    var x := Shr(Shl32(keyHash, sizeLog2), HASH_BITS - sizeLog2);
    x - x % 2 + 1
  }

  /** (h1 - h2) & (2^sizeLog2 - 1), the subtraction wrapping at 32 bits */
  function ApplyDoubleHash(h1: nat, h2: nat, sizeLog2: nat): (h: nat)
    ensures h < Pow2(sizeLog2)
  {
    LowBits((h1 - h2) % TWO32, sizeLog2)
  }

  /** The slot reached from h1 after j collisions with step h2. */
  function Walk(h1: nat, h2: nat, sizeLog2: nat, j: nat): (slot: nat)
    requires h1 < Pow2(sizeLog2)
    ensures slot < Pow2(sizeLog2)
  {
    if j == 0 then h1 else ApplyDoubleHash(Walk(h1, h2, sizeLog2, j - 1), h2, sizeLog2)
  }

  /** The slot examined for a key hash after j collisions. */
  function Probe(keyHash: Word32, sizeLog2: nat, j: nat): (slot: nat)
    requires sizeLog2 <= HASH_BITS
    ensures slot < Pow2(sizeLog2)
  {
    Walk(Hash1(keyHash, sizeLog2), Hash2(keyHash, sizeLog2), sizeLog2, j)
  }

  /** The walk starts at hash1 and each collision applies the double hash once. */
  lemma ProbeSteps(keyHash: Word32, sizeLog2: nat, j: nat)
    requires sizeLog2 <= HASH_BITS
    ensures Probe(keyHash, sizeLog2, 0) == Hash1(keyHash, sizeLog2)
    ensures Probe(keyHash, sizeLog2, j + 1)
         == ApplyDoubleHash(Probe(keyHash, sizeLog2, j), Hash2(keyHash, sizeLog2), sizeLog2)
  {
  }

  /**
   * The first slot is the number that the sizeLog2 highest bits of the hash spell. The step is the
   * number that the next sizeLog2 bits spell, zeros following the hash, with its lowest bit set.
   */
  lemma HashesByDivision(keyHash: Word32, sizeLog2: nat)
    requires sizeLog2 <= HASH_BITS
    ensures Hash1(keyHash, sizeLog2) == keyHash / Pow2(HASH_BITS - sizeLog2)
    ensures Hash2(keyHash, sizeLog2) == NextBits(keyHash, sizeLog2) - NextBits(keyHash, sizeLog2) % 2 + 1
  {
    hide Pow2, Shl32, Shr;
    var n, rest := sizeLog2, HASH_BITS - sizeLog2;
    SplitWord32(n);
    var hi, lo := keyHash / Pow2(rest), keyHash % Pow2(rest);
    DivLess(keyHash, Pow2(rest), Pow2(n));
    ShrIsDiv(keyHash, rest);
    ModUnique(keyHash, Pow2(rest), Shr(keyHash, rest), LowBits(keyHash, rest));
    ShlDropsHigh(hi, lo, n, keyHash);
    var shifted := Shl32(keyHash, n);
    ShrIsDiv(shifted, rest);
    ModUnique(shifted, Pow2(rest), Shr(shifted, rest), LowBits(shifted, rest));
    if 2 * n <= HASH_BITS {
      var p, q := Pow2(n), Pow2(HASH_BITS - 2 * n);
      Pow2Add(n, HASH_BITS - 2 * n);
      NextDigit(hi, lo, p, q, keyHash);
    } else {
      Pow2Add(2 * n - HASH_BITS, rest);
      Regroup(lo, Pow2(2 * n - HASH_BITS), Pow2(rest));
      MulDiv(lo * Pow2(2 * n - HASH_BITS), Pow2(rest));
    }
  }

  /** The n bits of a hash below its n highest; where the hash ends, zeros follow. */
  function NextBits(keyHash: Word32, n: nat): nat
    requires n <= HASH_BITS
  {
    if 2 * n <= HASH_BITS
    then keyHash / Pow2(HASH_BITS - 2 * n) % Pow2(n)
    else keyHash % Pow2(HASH_BITS - n) * Pow2(2 * n - HASH_BITS)
  }

  /** Dropping the high digit and shifting is reading the next digit. */
  lemma NextDigit(hi: nat, lo: nat, p: nat, q: nat, x: nat)
    requires p > 0 && q > 0 && p * q > 0 && lo < p * q && x == hi * (p * q) + lo
    ensures (lo * p) / (p * q) == x / q % p
  {
    var next, low := lo / q, lo % q;
    DivLess(lo, q, p);
    assert lo == next * q + low;
    assert x == (hi * p + next) * q + low by { SumTimes(next, hi, p, q); Regroup(hi, p, q); }
    ModUnique(x, q, hi * p + next, low);
    ModUnique(hi * p + next, p, hi, next);
    assert lo * p == next * (p * q) + low * p by { SumTimes(low, next, q, p); Regroup(next, q, p); }
    DigitBound(low, 0, q, p);
    ModUnique(lo * p, p * q, next, low * p);
  }

  /** The 32-bit wrap-around of the subtraction is invisible after masking. */
  lemma ApplyIsModular(h1: nat, h2: nat, sizeLog2: nat)
    requires sizeLog2 <= HASH_BITS
    ensures ApplyDoubleHash(h1, h2, sizeLog2) == (h1 - h2) % Pow2(sizeLog2)
  {
    LowBitsOfWord(h1 - h2, sizeLog2);
  }

  lemma WalkStep(w: nat, h1: nat, h2: nat, sizeLog2: nat, j: nat)
    requires sizeLog2 <= HASH_BITS && w == (h1 - j * h2) % Pow2(sizeLog2)
    ensures ApplyDoubleHash(w, h2, sizeLog2) == (h1 - (j + 1) * h2) % Pow2(sizeLog2)
  {
    hide ApplyDoubleHash, Pow2;
    ApplyIsModular(w, h2, sizeLog2);
    ModStep(h1, h2, j, Pow2(sizeLog2));
  }

  /** The j-th probe is h1 - j*h2 modulo the capacity. */
  lemma {:induction false} WalkClosedForm(h1: nat, h2: nat, sizeLog2: nat, j: nat)
    requires sizeLog2 <= HASH_BITS && h1 < Pow2(sizeLog2)
    ensures Walk(h1, h2, sizeLog2, j) == (h1 - j * h2) % Pow2(sizeLog2)
    decreases j
  {
    hide ApplyDoubleHash, Pow2;
    if j == 0 {
      ModUnique(h1, Pow2(sizeLog2), 0, h1);
    } else {
      WalkClosedForm(h1, h2, sizeLog2, j - 1);
      WalkStep(Walk(h1, h2, sizeLog2, j - 1), h1, h2, sizeLog2, j - 1);
    }
  }

  lemma WalkInjective(h1: nat, h2: nat, sizeLog2: nat, i: nat, j: nat)
    requires sizeLog2 <= HASH_BITS && h1 < Pow2(sizeLog2) && h2 % 2 == 1
    requires i < Pow2(sizeLog2) && j < Pow2(sizeLog2)
    requires Walk(h1, h2, sizeLog2, i) == Walk(h1, h2, sizeLog2, j)
    ensures i == j
  {
    hide Pow2, Walk;
    WalkClosedForm(h1, h2, sizeLog2, i);
    WalkClosedForm(h1, h2, sizeLog2, j);
    ModStepsEqual(h1, h2, i, j, Pow2(sizeLog2));
    OddCancel(j - i, h2, sizeLog2);
    SmallMultiple(j - i, Pow2(sizeLog2));
  }

  /** The first capacity-many probes are pairwise different. */
  lemma ProbeInjective(keyHash: Word32, sizeLog2: nat, i: nat, j: nat)
    requires sizeLog2 <= HASH_BITS
    requires i < Pow2(sizeLog2) && j < Pow2(sizeLog2)
    requires Probe(keyHash, sizeLog2, i) == Probe(keyHash, sizeLog2, j)
    ensures i == j
  {
    WalkInjective(Hash1(keyHash, sizeLog2), Hash2(keyHash, sizeLog2), sizeLog2, i, j);
  }

  /**
   * The probe sequence is a full cycle: in capacity-many steps it visits every slot, and by
   * ProbeInjective it visits none of them twice. The odd step has an inverse modulo the capacity.
   */
  lemma ProbeVisitsEverySlot(keyHash: Word32, sizeLog2: nat, slot: nat) returns (j: nat)
    requires sizeLog2 <= HASH_BITS && slot < Pow2(sizeLog2)
    ensures j < Pow2(sizeLog2) && Probe(keyHash, sizeLog2, j) == slot
  {
    var h1, h2, cap := Hash1(keyHash, sizeLog2), Hash2(keyHash, sizeLog2), Pow2(sizeLog2);
    var x, d := OddInverse(h2, sizeLog2);
    j := StepsTo(h1, h2, x, d, slot, cap);
    WalkClosedForm(h1, h2, sizeLog2, j);
  }

  /** How many collisions precede a slot on the probe path of a hash. */
  ghost function Rank(keyHash: Word32, sizeLog2: nat, slot: nat): (j: nat)
    requires sizeLog2 <= HASH_BITS && slot < Pow2(sizeLog2)
    ensures j < Pow2(sizeLog2) && Probe(keyHash, sizeLog2, j) == slot
  {
    assert exists j: nat :: j < Pow2(sizeLog2) && Probe(keyHash, sizeLog2, j) == slot by {
      var j := ProbeVisitsEverySlot(keyHash, sizeLog2, slot);
    }
    var j: nat :| j < Pow2(sizeLog2) && Probe(keyHash, sizeLog2, j) == slot;
    j
  }

  lemma RankOfProbe(keyHash: Word32, sizeLog2: nat, j: nat)
    requires sizeLog2 <= HASH_BITS && j < Pow2(sizeLog2)
    ensures Rank(keyHash, sizeLog2, Probe(keyHash, sizeLog2, j)) == j
  {
    ProbeInjective(keyHash, sizeLog2, Rank(keyHash, sizeLog2, Probe(keyHash, sizeLog2, j)), j);
  }
}
