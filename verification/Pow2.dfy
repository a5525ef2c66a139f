/** Powers of two and arithmetic modulo them: the unsigned machine words of the modelled code. */
module Pow2s {

  function Pow2(n: nat): (p: nat)
    ensures p > 0
  {
    if n == 0 then 1 else 2 * Pow2(n - 1)
  }

  const TWO32: nat := 0x1_0000_0000

  /** A 32-bit unsigned word. */
  type Word32 = x: int | 0 <= x < TWO32

  lemma {:induction false} Pow2Add(a: nat, b: nat)
    ensures Pow2(a + b) == Pow2(a) * Pow2(b)
  {
    if a > 0 { Pow2Add(a - 1, b); }
  }

  lemma {:induction false} Pow2Monotone(a: nat, b: nat)
    requires a <= b
    ensures Pow2(a) <= Pow2(b)
    decreases b
  {
    if a < b { Pow2Monotone(a, b - 1); }
  }

  lemma MulDiv(q: int, m: int)
    requires m > 0
    ensures (q * m) / m == q && (q * m) % m == 0
  {
    ModUnique(q * m, m, q, 0);
  }

  /** Euclidean division is the only way to write x as q*m + r with 0 <= r < m. */
  lemma ModUnique(x: int, m: int, q: int, r: int)
    requires m > 0 && 0 <= r < m && x == q * m + r
    ensures x / m == q && x % m == r
  {
    var q', r' := x / m, x % m;
    assert x == q' * m + r';
    assert (q - q') * m == r' - r;
    if q > q' {
      MulGe(q - q', m);
    } else if q < q' {
      NegMul(q, q', m);
      MulGe(q' - q, m);
    }
  }

  lemma NegMul(a: int, b: int, m: int)
    ensures (b - a) * m == -((a - b) * m)
  {
  }

  lemma DivLess(x: int, d: int, p: int)
    requires d > 0 && 0 <= x < p * d
    ensures 0 <= x / d < p
  {
    var q := x / d;
    if q >= p {
      MulMono(q, p, d);
    }
  }

  lemma MulMono(a: int, b: int, c: int)
    requires a >= b && c >= 0
    ensures a * c >= b * c
  {
  }

  lemma MulTwice(a: int, b: int)
    ensures a * (2 * b) == 2 * (a * b)
  {
  }

  /** A number below a*b from a digit below a and a remainder below b. */
  lemma DigitBound(hi: nat, lo: nat, a: nat, b: nat)
    requires hi < a && lo < b
    ensures hi * b + lo < a * b
  {
    MulMono(a, hi + 1, b);
    assert (hi + 1) * b == hi * b + b;
  }

  /** The size of a machine word splits at any bit. */
  lemma SplitWord32(n: nat)
    requires n <= 32
    ensures Pow2(n) * Pow2(32 - n) == TWO32
  {
    Pow2Add(n, 32 - n);
    Pow2_32();
  }

  lemma Pow2_32()
    ensures Pow2(32) == TWO32
  {
    assert Pow2(8) == 256;
    Pow2Add(8, 8);
    Pow2Add(16, 16);
  }

  lemma MulGe(a: int, m: int)
    requires a >= 1 && m > 0
    ensures a * m >= m
  {
  }

  /** Adding a multiple of the modulus does not change the remainder. */
  lemma ModShift(x: int, q: int, m: int)
    requires m > 0
    ensures (x + q * m) % m == x % m
  {
    assert x + q * m == (x / m + q) * m + x % m;
    ModUnique(x + q * m, m, x / m + q, x % m);
  }

  /** A factor may be reduced first. */
  lemma ModMul(a: int, b: int, m: int)
    requires m > 0
    ensures ((a % m) * b) % m == (a * b) % m
  {
    var q := a / m;
    assert a * b == (a % m) * b + (q * b) * m by {
      assert a == a % m + q * m;
      SumTimes(a % m, q, m, b);
    }
    ModShift((a % m) * b, q * b, m);
  }

  lemma SumTimes(x: int, q: int, m: int, b: int)
    ensures (x + q * m) * b == x * b + (q * b) * m
  {
  }

  lemma ModSub(x: int, y: int, m: int)
    requires m > 0
    ensures (x % m - y) % m == (x - y) % m
  {
    assert x - y == x % m - y + (x / m) * m;
    ModShift(x % m - y, x / m, m);
  }

  /** One more step of size y downwards. */
  lemma ModStep(x: int, y: int, j: int, m: int)
    requires m > 0
    ensures ((x - j * y) % m - y) % m == (x - (j + 1) * y) % m
  {
    ModSub(x - j * y, y, m);
    assert x - j * y - y == x - (j + 1) * y;
  }

  /** Two residues congruent modulo m, both reached by steps of y, are a multiple of y apart. */
  lemma ModStepsEqual(x: int, y: int, i: int, j: int, m: int)
    requires m > 0 && (x - i * y) % m == (x - j * y) % m
    ensures ((j - i) * y) % m == 0
  {
    ModEqual(x - i * y, x - j * y, m);
    assert (x - i * y) - (x - j * y) == (j - i) * y;
  }

  lemma SmallMultiple(a: int, m: int)
    requires m > 0 && -m < a < m && a % m == 0
    ensures a == 0
  {
    if a > 0 { ModUnique(a, m, 0, a); } else if a < 0 { ModUnique(a, m, -1, a + m); }
  }

  /** Reducing modulo a multiple of m first is harmless. */
  lemma ModMod(x: int, m: int, c: int)
    requires m > 0 && c > 0
    ensures m * c > 0
    ensures (x % (m * c)) % m == x % m
  {
    var q := x / (m * c);
    assert x == x % (m * c) + q * (m * c);
    assert q * (m * c) == (q * c) * m;
    ModShift(x % (m * c), q * c, m);
  }

  /** Two numbers with equal remainders differ by a multiple of the modulus. */
  lemma ModEqual(x: int, y: int, m: int)
    requires m > 0 && x % m == y % m
    ensures (x - y) % m == 0
  {
    assert x - y == (x / m - y / m) * m;
    MulDiv(x / m - y / m, m);
  }

  /** An odd factor can be cancelled modulo a power of two. */
  lemma {:induction false} OddCancel(a: int, b: int, k: nat)
    requires b % 2 == 1 && (a * b) % Pow2(k) == 0
    ensures a % Pow2(k) == 0
    decreases k
  {
    if k > 0 {
      var P := Pow2(k - 1);
      var q := a * b / Pow2(k);
      var c := b / 2;
      assert a * b == q * (2 * P);
      assert a == 2 * (q * P - a * c) by { assert a * b == 2 * (a * c) + a; assert q * (2 * P) == 2 * (q * P); }
      var a' := q * P - a * c;
      assert a' * b == q * P by { assert 2 * (a' * b) == a * b; assert a * b == 2 * (q * P); }
      MulDiv(q, P);
      OddCancel(a', b, k - 1);
      var r := a' / P;
      assert a == r * Pow2(k);
      MulDiv(r, Pow2(k));
    }
  }

  /** Every odd number has an inverse modulo a power of two. */
  lemma {:induction false} OddInverse(b: int, k: nat) returns (x: int, q: int)
    requires b % 2 == 1
    ensures x * b - 1 == q * Pow2(k)
    decreases k
  {
    if k == 0 { return 0, -1; }
    x, q := OddInverse(b, k - 1);
    if q % 2 == 1 {
      AddMultiple(x, b, q, Pow2(k - 1));
      x, q := x + Pow2(k - 1), q + b;
    }
    HalveFactor(q, Pow2(k - 1));
    q := q / 2;
  }

  lemma AddMultiple(x: int, b: int, q: int, p: int)
    requires x * b - 1 == q * p
    ensures (x + p) * b - 1 == (q + b) * p
  {
  }

  lemma HalveFactor(q: int, p: int)
    requires q % 2 == 0
    ensures q * p == (q / 2) * (2 * p)
  {
    var h := q / 2;
    assert q == 2 * h;
    assert (2 * h) * p == h * (2 * p);
  }

  /** With an inverse x of the step y, some number of downward steps leads from h to any s. */
  lemma StepsTo(h: int, y: int, x: int, d: int, s: int, m: int) returns (j: nat)
    requires m > 0 && x * y - 1 == d * m && 0 <= s < m
    ensures j < m && (h - j * y) % m == s
  {
    j := ((h - s) * x) % m;
    var c := ((h - s) * x) / m;
    assert (h - s) * x == c * m + j;
    assert j * y == (h - s) * (x * y) - c * m * y by {
      assert j == (h - s) * x - c * m;
      assert ((h - s) * x - c * m) * y == (h - s) * x * y - c * m * y;
      assert (h - s) * x * y == (h - s) * (x * y);
    }
    assert (h - s) * (x * y) == (h - s) * d * m + (h - s) by {
      assert (h - s) * (d * m + 1) == (h - s) * d * m + (h - s);
    }
    var q := c * y - (h - s) * d;
    assert h - j * y == q * m + s by { assert q * m == c * m * y - (h - s) * d * m; }
    ModUnique(h - j * y, m, q, s);
  }

  /** x >> n on an unsigned word. */
  function Shr(x: nat, n: nat): (r: nat)
  {
    if n == 0 then x else Shr(x / 2, n - 1)
  }

  /** x << n on a 32-bit unsigned word: the top bits fall off. */
  function Shl32(x: Word32, n: nat): (r: Word32)
    decreases n
  {
    if n == 0 then x else Shl32((2 * x) % TWO32, n - 1)
  }

  /** x & (2^n - 1), for a two's-complement x of any width. */
  function LowBits(x: int, n: nat): (r: nat)
    ensures r < Pow2(n)
    decreases n
  {
    if n == 0 then 0 else 2 * LowBits(x / 2, n - 1) + x % 2
  }

  lemma {:induction false} ShrIsDiv(x: nat, n: nat)
    ensures x == Shr(x, n) * Pow2(n) + LowBits(x, n)
    decreases n
  {
    if n > 0 {
      ShrIsDiv(x / 2, n - 1);
      var q, p, low := Shr(x / 2, n - 1), Pow2(n - 1), LowBits(x / 2, n - 1);
      assert Shr(x, n) == q && Pow2(n) == 2 * p && LowBits(x, n) == 2 * low + x % 2;
      hide Shr, Pow2, LowBits;
      MulTwice(q, p);
      assert x / 2 == q * p + low;
    }
  }

  /** Twice the modulus: one more bit of the remainder. */
  lemma ModOfDouble(x: int, p: int)
    requires p > 0
    ensures x % (2 * p) == 2 * (x / 2 % p) + x % 2
  {
    var y := x / 2;
    var q, r := y / p, y % p;
    assert y == q * p + r;
    MulTwice(q, p);
    ModUnique(x, 2 * p, q, 2 * r + x % 2);
  }

  lemma {:induction false} LowBitsIsMod(x: int, n: nat)
    ensures LowBits(x, n) == x % Pow2(n)
    decreases n
  {
    if n > 0 {
      LowBitsIsMod(x / 2, n - 1);
      ModOfDouble(x, Pow2(n - 1));
    }
  }

  lemma ShrBound(x: nat, n: nat, m: nat)
    requires x < Pow2(n + m)
    ensures Shr(x, m) < Pow2(n)
  {
    ShrIsDiv(x, m);
    Pow2Add(n, m);
    if Shr(x, m) >= Pow2(n) { MulMono(Shr(x, m), Pow2(n), Pow2(m)); }
  }

  /** Masking the low bits of a wrapped word is masking the low bits of the number. */
  lemma LowBitsOfWord(x: int, n: nat)
    requires n <= 32
    ensures LowBits(x % TWO32, n) == x % Pow2(n)
  {
    SplitWord32(n);
    var w := x % TWO32;
    LowBitsIsMod(w, n);
    ModMod(x, Pow2(n), Pow2(32 - n));
  }

  lemma {:induction false} ShlIsTimes(x: Word32, n: nat)
    ensures Shl32(x, n) == (x * Pow2(n)) % TWO32
    decreases n
  {
    if n > 0 {
      ShlIsTimes((2 * x) % TWO32, n - 1);
      ModMul(2 * x, Pow2(n - 1), TWO32);
      assert (2 * x) * Pow2(n - 1) == x * Pow2(n) by { MulTwice(x, Pow2(n - 1)); MulTwice(Pow2(n - 1), x); }
    }
  }

  /** A left shift by n drops the n highest bits. */
  lemma ShlDropsHigh(hi: nat, lo: nat, n: nat, x: Word32)
    requires n <= 32 && hi < Pow2(n) && lo < Pow2(32 - n) && x == hi * Pow2(32 - n) + lo
    ensures Shl32(x, n) == lo * Pow2(n)
  {
    hide Pow2, Shl32;
    ShlIsTimes(x, n);
    SplitWord32(n);
    var p, q := Pow2(n), Pow2(32 - n);
    DigitBound(lo, 0, q, p);
    SumTimes(lo, hi, q, p);
    Regroup(hi, p, q);
    assert (hi * p) * q == hi * TWO32;
    ModUnique(x * p, TWO32, hi, lo * p);
  }

  lemma Regroup(a: int, b: int, c: int)
    ensures (a * b) * c == (a * c) * b == a * (b * c)
  {
  }

  // ----- The golden ratio, the multiplier of both hash functions -----

  const GOLDEN_RATIO_U32: nat := 0x9E3779B9

  /** The inverse of the golden ratio modulo 2^32. */
  const GOLDEN_INVERSE: nat := 0x144CBC89

  lemma GoldenInverse()
    ensures (GOLDEN_INVERSE * GOLDEN_RATIO_U32) % TWO32 == 1 == (GOLDEN_RATIO_U32 * GOLDEN_INVERSE) % TWO32
  {
  }

  lemma MultiplicationInverts(a: nat, b: nat, x: Word32)
    requires (a * b) % TWO32 == 1
    ensures (a * ((b * x) % TWO32)) % TWO32 == x
  {
    var y, q := (b * x) % TWO32, (b * x) / TWO32;
    var c := (a * b) / TWO32;
    assert b * x == q * TWO32 + y;
    assert a * b == c * TWO32 + 1;
    assert a * y == (c * x - a * q) * TWO32 + x by {
      assert a * y == a * (b * x) - a * (q * TWO32);
      assert a * (b * x) == (a * b) * x;
      assert (c * TWO32 + 1) * x == (c * x) * TWO32 + x;
      assert a * (q * TWO32) == (a * q) * TWO32;
    }
    ModUnique(a * y, TWO32, c * x - a * q, x);
  }
}
