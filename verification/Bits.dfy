/** Bitwise operations on unsigned words of any width, defined bit by bit. */
module Bits {
  import opened Pow2s

  function And(a: nat, b: nat, n: nat): (r: nat)
    ensures r < Pow2(n)
    decreases n
  {
    if n == 0 then 0 else 2 * And(a / 2, b / 2, n - 1) + if a % 2 == 1 && b % 2 == 1 then 1 else 0
  }

  function Xor(a: nat, b: nat, n: nat): (r: nat)
    ensures r < Pow2(n)
    decreases n
  {
    if n == 0 then 0 else 2 * Xor(a / 2, b / 2, n - 1) + if a % 2 != b % 2 then 1 else 0
  }

  predicate Bit(a: nat, i: nat) {
    Shr(a, i) % 2 == 1
  }

  /** The highest bit of an n-bit word. */
  predicate TopBit(a: nat, n: nat)
    requires n > 0
  {
    Bit(a, n - 1)
  }

  /** Exclusive or works on each bit by itself. */
  lemma {:induction false} BitOfXor(a: nat, b: nat, n: nat, i: nat)
    requires i < n
    ensures Bit(Xor(a, b, n), i) <==> Bit(a, i) != Bit(b, i)
    decreases n
  {
    if i > 0 {
      BitOfXor(a / 2, b / 2, n - 1, i - 1);
      assert Xor(a, b, n) / 2 == Xor(a / 2, b / 2, n - 1);
    }
  }

  /** The bits of a word put together from a high and a low part. */
  lemma {:induction false} BitOfJoined(hi: nat, lo: nat, k: nat, i: nat)
    requires lo < Pow2(k)
    ensures Bit(hi * Pow2(k) + lo, i) <==> if i < k then Bit(lo, i) else Bit(hi, i - k)
    decreases k
  {
    if k > 0 {
      MulTwice(hi, Pow2(k - 1));
      var x := hi * Pow2(k) + lo;
      assert x / 2 == hi * Pow2(k - 1) + lo / 2 && x % 2 == lo % 2;
      if i > 0 { BitOfJoined(hi, lo / 2, k - 1, i - 1); }
    }
  }

  lemma {:induction false} TopBitAnd(a: nat, b: nat, n: nat)
    requires n > 0
    ensures TopBit(And(a, b, n), n) <==> TopBit(a, n) && TopBit(b, n)
    decreases n
  {
    if n > 1 {
      TopBitAnd(a / 2, b / 2, n - 1);
      assert And(a, b, n) / 2 == And(a / 2, b / 2, n - 1);
    }
  }

  lemma {:induction false} TopBitXor(a: nat, b: nat, n: nat)
    requires n > 0
    ensures TopBit(Xor(a, b, n), n) <==> TopBit(a, n) != TopBit(b, n)
    decreases n
  {
    if n > 1 {
      TopBitXor(a / 2, b / 2, n - 1);
      assert Xor(a, b, n) / 2 == Xor(a / 2, b / 2, n - 1);
    }
  }

  /** In an n-bit word the top bit says which half of the range the word is in. */
  lemma {:induction false} TopBitIsUpperHalf(a: nat, n: nat)
    requires n > 0 && a < Pow2(n)
    ensures TopBit(a, n) <==> a >= Pow2(n - 1)
    decreases n
  {
    if n > 1 { TopBitIsUpperHalf(a / 2, n - 1); }
  }

  /** A word has no bit at or above position k exactly when it is below 2^k. */
  lemma {:induction false} HighBitsClear(x: nat, k: nat, n: nat)
    requires k <= n && x < Pow2(n)
    ensures Pow2(k) <= Pow2(n)
    ensures And(x, Pow2(n) - Pow2(k), n) == 0 <==> x < Pow2(k)
    decreases n
  {
    if n > 0 {
      if k == 0 {
        AllOnes(x, n);
      } else {
        HighBitsClear(x / 2, k - 1, n - 1);
        assert (Pow2(n) - Pow2(k)) / 2 == Pow2(n - 1) - Pow2(k - 1);
        assert (Pow2(n) - Pow2(k)) % 2 == 0;
      }
    }
  }

  lemma {:induction false} AllOnes(x: nat, n: nat)
    requires x < Pow2(n)
    ensures And(x, Pow2(n) - 1, n) == x
    decreases n
  {
    if n > 0 {
      AllOnes(x / 2, n - 1);
      assert (Pow2(n) - 1) / 2 == Pow2(n - 1) - 1 && (Pow2(n) - 1) % 2 == 1;
    }
  }

  function Or(a: nat, b: nat, n: nat): (r: nat)
    ensures r < Pow2(n)
    decreases n
  {
    if n == 0 then 0 else 2 * Or(a / 2, b / 2, n - 1) + if a % 2 == 1 || b % 2 == 1 then 1 else 0
  }

  lemma {:induction false} XorUndoes(a: nat, b: nat, n: nat)
    requires a < Pow2(n)
    ensures Xor(Xor(a, b, n), b, n) == a
    decreases n
  {
    if n > 0 { XorUndoes(a / 2, b / 2, n - 1); }
  }

  lemma {:induction false} XorCommutes(a: nat, b: nat, n: nat)
    ensures Xor(a, b, n) == Xor(b, a, n)
    decreases n
  {
    if n > 0 { XorCommutes(a / 2, b / 2, n - 1); }
  }

  lemma {:induction false} OrZero(a: nat, n: nat)
    requires a < Pow2(n)
    ensures Or(a, 0, n) == a
    decreases n
  {
    if n > 0 { OrZero(a / 2, n - 1); }
  }

  lemma OrStep(hi: nat, lo: nat, n: nat)
    requires n > 0 && Or(hi, lo / 2, n - 1) == hi + lo / 2
    ensures Or(2 * hi, lo, n) == 2 * hi + lo
  {
    assert (2 * hi) / 2 == hi && (2 * hi) % 2 == 0;
  }

  lemma {:induction false} XorZero(b: nat, n: nat)
    requires b < Pow2(n)
    ensures Xor(0, b, n) == b
    decreases n
  {
    if n > 0 { XorZero(b / 2, n - 1); }
  }

  lemma XorStep(hi: nat, lo: nat, n: nat)
    requires n > 0 && Xor(hi, lo / 2, n - 1) == hi + lo / 2
    ensures Xor(2 * hi, lo, n) == 2 * hi + lo
  {
    assert (2 * hi) / 2 == hi && (2 * hi) % 2 == 0;
  }

  lemma {:induction false} XorJoins(hi: nat, lo: nat, k: nat, n: nat)
    requires k <= n && hi < Pow2(n - k) && lo < Pow2(k)
    ensures Xor(hi * Pow2(k), lo, n) == hi * Pow2(k) + lo
    decreases n
  {
    if k == 0 {
      XorCommutes(hi, 0, n);
      XorZero(hi, n);
    } else {
      XorJoins(hi, lo / 2, k - 1, n - 1);
      XorStep(hi * Pow2(k - 1), lo, n);
      MulTwice(hi, Pow2(k - 1));
    }
  }

  /** Putting a word together from a high and a low part. */
  lemma {:induction false} OrJoins(hi: nat, lo: nat, k: nat, n: nat)
    requires k <= n && hi < Pow2(n - k) && lo < Pow2(k)
    ensures Or(hi * Pow2(k), lo, n) == hi * Pow2(k) + lo
    decreases n
  {
    if k == 0 {
      OrZero(hi, n);
    } else {
      OrJoins(hi, lo / 2, k - 1, n - 1);
      OrStep(hi * Pow2(k - 1), lo, n);
      MulTwice(hi, Pow2(k - 1));
    }
  }
}
