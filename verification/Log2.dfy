/**
 * Logarithms and masks of js/public/TemplateLib.h and js/public/Utility.h: recursive template
 * definitions, shift cascades, and the overflow masks built from them. size_t has 64 bits.
 */
module Log2 {
  import opened Pow2s
  import opened Bits

  const WORD_BITS: nat := 64
  const TWO64: nat := 0x1_0000_0000_0000_0000

  type Word64 = x: int | 0 <= x < TWO64

  lemma Pow2_64()
    ensures Pow2(64) == TWO64
  {
    Pow2_32();
    Pow2Add(32, 32);
  }

  // ----- tl::FloorLog2 and friends -----

  function FloorLog2(i: nat): nat
    requires i > 0
  {
    if i == 1 then 0 else 1 + FloorLog2(i / 2)
  }

  function CeilingLog2(i: nat): nat
    requires i > 0
  {
    FloorLog2(2 * i - 1)
  }

  /** JS_CEILING_LOG2W */
  function CeilingLog2W(n: nat): nat {
    if n <= 1 then 0 else 1 + FloorLog2(n - 1)
  }

  lemma {:induction false} FloorLog2Bounds(i: nat)
    requires i > 0
    ensures Pow2(FloorLog2(i)) <= i < Pow2(FloorLog2(i) + 1)
  {
    if i > 1 { FloorLog2Bounds(i / 2); }
  }

  /** The bounds determine the logarithm. */
  lemma FloorLog2Unique(i: nat, k: nat)
    requires i > 0 && Pow2(k) <= i < Pow2(k + 1)
    ensures FloorLog2(i) == k
  {
    FloorLog2Bounds(i);
    if FloorLog2(i) < k { Pow2Monotone(FloorLog2(i) + 1, k); }
    if FloorLog2(i) > k { Pow2Monotone(k + 1, FloorLog2(i)); }
  }

  /** CeilingLog2W(n) is the least exponent whose power of two reaches n. */
  lemma CeilingIsLeast(n: nat)
    ensures n <= Pow2(CeilingLog2W(n))
    ensures forall k: nat :: n <= Pow2(k) ==> CeilingLog2W(n) <= k
  {
    if n > 1 {
      FloorLog2Bounds(n - 1);
      forall k: nat | n <= Pow2(k) ensures CeilingLog2W(n) <= k {
        if k < CeilingLog2W(n) { Pow2Monotone(k, CeilingLog2W(n) - 1); }
      }
    }
  }

  /** The template definition and the size_t macro agree. */
  lemma CeilingsAgree(n: nat)
    requires n > 0
    ensures CeilingLog2(n) == CeilingLog2W(n)
  {
    if n > 1 {
      FloorLog2Bounds(n - 1);
      FloorLog2Unique(2 * n - 1, FloorLog2(n - 1) + 1);
    }
  }

  /** RoundUpPow2 on a size_t: the shift wraps when the power does not fit. */
  function RoundUpPow2(x: Word64): Word64 {
    Pow2(CeilingLog2W(x)) % TWO64
  }

  // ----- Shift cascades -----

  lemma ShiftOut(n: nat, s: nat)
    requires n > 0
    ensures Shr(n, s) != 0 <==> n >= Pow2(s)
    ensures Shr(n, s) != 0 ==> FloorLog2(n) == s + FloorLog2(Shr(n, s))
  {
    hide Pow2, Shr, FloorLog2, LowBits;
    ShrIsDiv(n, s);
    var q := Shr(n, s);
    if q != 0 {
      FloorLog2Bounds(q);
      Shifted(n, s, q, LowBits(n, s), FloorLog2(q));
      FloorLog2Unique(n, FloorLog2(q) + s);
      MulMono(q, 1, Pow2(s));
    }
  }

  lemma Shifted(n: nat, s: nat, q: nat, r: nat, k: nat)
    requires n == q * Pow2(s) + r && r < Pow2(s) && Pow2(k) <= q < Pow2(k + 1)
    ensures Pow2(k + s) <= n < Pow2(k + s + 1)
  {
    Pow2Add(k, s);
    Pow2Add(k + 1, s);
    hide Pow2;
    MulMono(q, Pow2(k), Pow2(s));
    MulMono(Pow2(k + 1), q + 1, Pow2(s));
    assert (q + 1) * Pow2(s) == q * Pow2(s) + Pow2(s);
  }

  /** One step of a shift cascade on a word of at most 2s bits. */
  lemma CascadeStep(j: nat, s: nat)
    requires 0 < j < Pow2(2 * s)
    ensures if Shr(j, s) != 0 then FloorLog2(j) == s + FloorLog2(Shr(j, s)) && 0 < Shr(j, s) < Pow2(s)
            else j < Pow2(s)
  {
    ShiftOut(j, s);
    ShrBound(j, s, s);
  }

  lemma LastBit()
    ensures FloorLog2(1) == 0 && Pow2(1) == 2
  {
  }

  lemma {:induction false} ShiftZero(s: nat)
    ensures Shr(0, s) == 0
  {
    if s > 0 { ShiftZero(s - 1); }
  }

  /** JS_FLOOR_LOG2, the fallback macro on a 32-bit word: 0 for 0. */
  method FloorLog2Macro(n: Word32) returns (log2: nat)
    ensures log2 == if n == 0 then 0 else FloorLog2(n)
  {
    Pow2_32();
    LastBit();
    hide Shr, FloorLog2, Pow2;
    var j: nat := n;
    log2 := 0;
    if n == 0 { ShiftZero(16); ShiftZero(8); ShiftZero(4); ShiftZero(2); ShiftZero(1); }
    if j > 0 { CascadeStep(j, 16); }
    if Shr(j, 16) != 0 { log2, j := log2 + 16, Shr(j, 16); }
    if j > 0 { CascadeStep(j, 8); }
    if Shr(j, 8) != 0 { log2, j := log2 + 8, Shr(j, 8); }
    if j > 0 { CascadeStep(j, 4); }
    if Shr(j, 4) != 0 { log2, j := log2 + 4, Shr(j, 4); }
    if j > 0 { CascadeStep(j, 2); }
    if Shr(j, 2) != 0 { log2, j := log2 + 2, Shr(j, 2); }
    if j > 0 { CascadeStep(j, 1); }
    if Shr(j, 1) != 0 { log2 := log2 + 1; }
  }

  /** js_FloorLog2wImpl for 64-bit words; each |= sets a bit that is still clear, so it adds. */
  method FloorLog2wImpl(size: Word64) returns (log2: nat)
    requires size != 0
    ensures log2 == FloorLog2(size)
  {
    hide Shr, Or, Cascading, Pow2, FloorLog2;
    SmallPowers();
    CascadeStart(size);
    var n: nat := size;
    log2 := 0;
    ghost var q := WideStep(size, n, log2, 32, 5, 0);
    var m := Shr(n, 32);
    if m != 0 { n, log2 := m, 32; }
    q := WideStep(size, n, log2, 16, 4, q);
    m := Shr(n, 16);
    if m != 0 { n, log2 := m, Or(log2, 16, 64); }
    q := WideStep(size, n, log2, 8, 3, q);
    m := Shr(n, 8);
    if m != 0 { n, log2 := m, Or(log2, 8, 64); }
    q := WideStep(size, n, log2, 4, 2, q);
    m := Shr(n, 4);
    if m != 0 { n, log2 := m, Or(log2, 4, 64); }
    q := WideStep(size, n, log2, 2, 1, q);
    m := Shr(n, 2);
    if m != 0 { n, log2 := m, Or(log2, 2, 64); }
    LastStep(size, n, log2, q);
    log2 := Or(log2, Shr(n, 1), 64);
  }

  /** n, of 2^k bits, is what is left of size when log2, q times 2^k, has been found of its logarithm. */
  ghost predicate Cascading(size: nat, n: nat, log2: nat, k: nat, q: nat) {
    && size > 0 && k <= 6 && 0 < n < Pow2(Pow2(k)) && FloorLog2(size) == log2 + FloorLog2(n)
    && log2 == q * Pow2(k) && log2 + Pow2(k) <= 64
  }

  lemma CascadeStart(size: Word64)
    requires size != 0
    ensures Cascading(size, size, 0, 6, 0)
  {
    Pow2_64();
    SmallPowers();
    hide Pow2, FloorLog2;
  }

  lemma SmallPowers()
    ensures Pow2(1) == 2 && Pow2(2) == 4 && Pow2(3) == 8 && Pow2(4) == 16 && Pow2(5) == 32 && Pow2(6) == 64
  {
  }

  /** One step of the wide cascade: the bit or-ed in is still clear. */
  lemma WideStep(size: nat, n: nat, log2: nat, s: nat, k: nat, q: nat) returns (q': nat)
    requires s == Pow2(k) && Cascading(size, n, log2, k + 1, q)
    ensures if Shr(n, s) != 0 then Cascading(size, Shr(n, s), Or(log2, s, 64), k, q')
            else Cascading(size, n, log2, k, q')
    ensures log2 == 0 ==> Or(log2, s, 64) == s
  {
    hide Shr, FloorLog2, Pow2, Or, Cascading;
    CascadeOpen(size, n, log2, k, q, s);
    CascadeStep(n, s);
    OneMoreTime(q, s);
    if Shr(n, s) != 0 {
      q' := 2 * q + 1;
      CascadeClose(size, Shr(n, s), log2 + s, k, q', s);
    } else {
      q' := 2 * q;
      CascadeClose(size, n, log2, k, q', s);
    }
  }

  lemma CascadeOpen(size: nat, n: nat, log2: nat, k: nat, q: nat, s: nat)
    requires s == Pow2(k) && Cascading(size, n, log2, k + 1, q)
    ensures size > 0 && k < 6 && 0 < n < Pow2(2 * s) && FloorLog2(size) == log2 + FloorLog2(n)
    ensures log2 == 2 * (q * s) && log2 + 2 * s <= 64 && Or(log2, s, 64) == log2 + s
  {
    assert Pow2(k + 1) == 2 * s;
    hide FloorLog2, Pow2, Or;
    MulTwice(q, s);
    OrIsSum(q, s, k + 1);
  }

  lemma CascadeClose(size: nat, n: nat, log2: nat, k: nat, q: nat, s: nat)
    requires s == Pow2(k) && log2 == q * s && log2 + s <= 64
    requires size > 0 && k <= 6 && 0 < n < Pow2(s) && FloorLog2(size) == log2 + FloorLog2(n)
    ensures Cascading(size, n, log2, k, q)
  {
  }

  lemma OneMoreTime(q: int, s: int)
    ensures (2 * q) * s == 2 * (q * s) && (2 * q + 1) * s == 2 * (q * s) + s
  {
  }

  lemma LastStep(size: nat, n: nat, log2: nat, q: nat)
    requires Cascading(size, n, log2, 1, q)
    ensures Or(log2, Shr(n, 1), 64) == FloorLog2(size)
  {
    SmallPowers();
    hide Or, Pow2, FloorLog2, Shr;
    SmallLog(n);
    OrIsSum(q, n / 2, 1);
  }

  lemma SmallLog(n: nat)
    requires 0 < n < 4
    ensures Shr(n, 1) == n / 2 == FloorLog2(n)
  {
    assert FloorLog2(1) == 0;
    assert n > 1 ==> n / 2 == 1;
  }

  /** Or-ing in bits below those of a small number adds them. */
  lemma OrIsSum(q: nat, low: nat, k: nat)
    requires k <= 6 && q * Pow2(k) < 64 && low < Pow2(k)
    ensures Or(q * Pow2(k), low, 64) == q * Pow2(k) + low
  {
    hide Or, Pow2;
    SmallPowers();
    Pow2Monotone(6, 64 - k);
    if q >= 64 { MulMono(q, 64, Pow2(k)); }
    OrJoins(q, low, k, 64);
  }

  /** j & (j-1) is zero exactly for powers of two. */
  lemma {:induction false} ClearLowestBit(j: nat, n: nat)
    requires 0 < j < Pow2(n)
    ensures And(j, j - 1, n) == 0 <==> j == Pow2(FloorLog2(j))
    decreases n
  {
    if n > 0 {
      if j % 2 == 1 {
        assert (j - 1) / 2 == j / 2;
        AndSelf(j / 2, n - 1);
        FloorLog2Bounds(j);
      } else {
        assert (j - 1) / 2 == j / 2 - 1 && (j - 1) % 2 == 1;
        ClearLowestBit(j / 2, n - 1);
      }
    }
  }

  lemma {:induction false} AndSelf(x: nat, n: nat)
    requires x < Pow2(n)
    ensures And(x, x, n) == x
    decreases n
  {
    if n > 0 { AndSelf(x / 2, n - 1); }
  }

  /** JS_CEILING_LOG2, the fallback macro: one more than the floor unless the word is a power of two. */
  method CeilingLog2Macro(n: Word32) returns (log2: nat)
    ensures log2 == CeilingLog2W(n)
    ensures n > 0 ==> log2 == CeilingLog2(n)
  {
    hide And, FloorLog2, CeilingLog2, CeilingLog2W, Pow2;
    CeilingSplit(n);
    var minusOne: Word32 := (n - 1) % TWO32;
    log2 := 0;
    if And(n, minusOne, 32) != 0 { log2 := log2 + 1; }
    var floor := FloorLog2Macro(n);
    log2 := log2 + floor;
  }

  lemma CeilingSplit(n: Word32)
    ensures n > 0 ==> CeilingLog2(n) == CeilingLog2W(n)
    ensures n > 0 ==> CeilingLog2W(n) == FloorLog2(n) + if And(n, (n - 1) % TWO32, 32) == 0 then 0 else 1
    ensures n == 0 ==> CeilingLog2W(n) == 0 && And(n, (n - 1) % TWO32, 32) == 0
  {
    if n > 0 {
      assert (n - 1) % TWO32 == n - 1 by { ModUnique(n - 1, TWO32, 0, n - 1); }
      hide And, FloorLog2, CeilingLog2, CeilingLog2W, Pow2;
      Pow2_32();
      ClearLowestBit(n, 32);
      CeilingsAgree(n);
      CeilingFromFloor(n);
    } else {
      AndZero((n - 1) % TWO32, 32);
    }
  }

  lemma {:induction false} AndZero(x: nat, n: nat)
    ensures And(0, x, n) == 0
    decreases n
  {
    if n > 0 { AndZero(x / 2, n - 1); }
  }

  lemma CeilingOfPower(n: nat, k: nat)
    requires n == Pow2(k)
    ensures CeilingLog2W(n) == k
  {
    if k > 0 {
      Pow2Monotone(1, k);
      assert Pow2(k) == 2 * Pow2(k - 1) && Pow2(1) == 2;
      FloorLog2Unique(n - 1, k - 1);
    }
  }

  lemma CeilingBetween(n: nat, k: nat)
    requires Pow2(k) < n < Pow2(k + 1)
    ensures CeilingLog2W(n) == k + 1
  {
    FloorLog2Unique(n - 1, k);
  }

  lemma CeilingFromFloor(n: nat)
    requires n > 0
    ensures CeilingLog2W(n) == FloorLog2(n) + if n == Pow2(FloorLog2(n)) then 0 else 1
  {
    hide Pow2, FloorLog2, CeilingLog2W;
    var k := FloorLog2(n);
    FloorLog2Bounds(n);
    if n == Pow2(k) { CeilingOfPower(n, k); } else { CeilingBetween(n, k); }
  }

  // ----- Overflow masks -----

  /** tl::NBitMask, including the full-width case. */
  function NBitMask(n: nat): (m: Word64)
    requires n <= WORD_BITS
  {
    if n == WORD_BITS then TWO64 - 1 else (LowMaskFits(n); Pow2(n) - 1)
  }

  lemma LowMaskFits(n: nat)
    requires n <= WORD_BITS
    ensures Pow2(n) <= TWO64
  {
    Pow2_64();
    Pow2Monotone(n, WORD_BITS);
  }

  /** tl::MulOverflowMask */
  function MulOverflowMask(n: nat): Word64
    requires 0 < n && CeilingLog2(n) <= WORD_BITS
  {
    if n == 1 then 0 else TWO64 - 1 - NBitMask(WORD_BITS - CeilingLog2(n))
  }

  /** X & MulOverflowMask<N> is zero exactly below 2^(64 - ceil(log2 N)). */
  lemma OverflowMaskMeaning(x: Word64, n: nat)
    requires 1 < n && CeilingLog2(n) <= WORD_BITS
    ensures And(x, MulOverflowMask(n), WORD_BITS) == 0 <==> x < Pow2(WORD_BITS - CeilingLog2(n))
  {
    Pow2_64();
    var k := WORD_BITS - CeilingLog2(n);
    HighBitsClear(x, k, WORD_BITS);
    LowMaskFits(k);
  }

  /** The mask is a sound overflow test: X & M == 0 implies that X * N fits in a size_t. */
  lemma OverflowMaskIsSound(x: Word64, n: nat)
    requires 0 < n && CeilingLog2(n) <= WORD_BITS
    requires And(x, MulOverflowMask(n), WORD_BITS) == 0
    ensures x * n < TWO64
  {
    if n > 1 {
      var c := CeilingLog2(n);
      OverflowMaskMeaning(x, n);
      CeilingsAgree(n);
      CeilingIsLeast(n);
      Pow2_64();
      Pow2Add(WORD_BITS - c, c);
      ProductBelow(x, n, Pow2(WORD_BITS - c), Pow2(c));
    }
  }

  lemma ProductBelow(x: nat, n: nat, a: nat, b: nat)
    requires x < a && 0 < n <= b
    ensures x * n < a * b
  {
    MulMono(a, x + 1, n);
    MulMono(b, n, a);
    assert (x + 1) * n == x * n + n;
  }
}
