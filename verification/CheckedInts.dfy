/**
 * Checked integer arithmetic (mfbt/CheckedInt.h): overflow detection by sign-bit tests, by
 * computing in a type twice as big, and, at the widest type, by truncated division.
 */
module CheckedInts {
  import opened Options
  import opened Pow2s
  import opened Bits

  // ----- Integer types -----

  datatype IntType = IntType(bits: nat, signed: bool)

  predicate Supported(t: IntType) {
    t.bits == 8 || t.bits == 16 || t.bits == 32 || t.bits == 64
  }

  function MinValue(t: IntType): int
    requires t.bits > 0
  {
    if t.signed then 0 - Pow2(t.bits - 1) else 0
  }

  function MaxValue(t: IntType): int
    requires t.bits > 0
  {
    if t.signed then Pow2(t.bits - 1) - 1 else Pow2(t.bits) - 1
  }

  predicate InType(t: IntType, x: int)
    requires t.bits > 0
  {
    MinValue(t) <= x <= MaxValue(t)
  }

  /** Conversion to the unsigned type of the same size. */
  function ToUnsigned(t: IntType, x: int): (u: nat)
    ensures u < Pow2(t.bits)
  {
    x % Pow2(t.bits)
  }

  /** Conversion to the type itself, modulo 2^bits. */
  function ToType(t: IntType, x: int): (y: int)
    requires t.bits > 0
    ensures InType(t, y)
  {
    var u := x % Pow2(t.bits);
    if t.signed && u >= Pow2(t.bits - 1) then u - Pow2(t.bits) else u
  }

  predicate HasSignBit(t: IntType, x: int)
    requires t.bits > 0
  {
    Shr(ToUnsigned(t, x), t.bits - 1) != 0
  }

  /** T(~x) */
  function BinaryComplement(t: IntType, x: int): int
    requires t.bits > 0
  {
    ToType(t, -x - 1)
  }

  // ----- Range tests -----

  predicate RangeContainsRange(t: IntType, u: IntType) {
    if t.signed == u.signed then t.bits >= u.bits
    else t.signed && t.bits > u.bits
  }

  /** IsInRange<T>(U x), one branch per specialisation of IsInRangeImpl. */
  predicate IsInRange(t: IntType, u: IntType, x: int)
    requires t.bits > 0 && u.bits > 0
  {
    if RangeContainsRange(t, u) then true
    else if t.signed && u.signed then x <= MaxValue(t) && x >= MinValue(t)
    else if !t.signed && !u.signed then x <= MaxValue(t)
    else if t.signed then t.bits > u.bits || x <= MaxValue(t)
    else if t.bits >= u.bits then x >= 0
    else x >= 0 && x <= MaxValue(t)
  }

  predicate IsAddValid(t: IntType, x: int, y: int)
    requires t.bits > 0
  {
    var ux, uy := ToUnsigned(t, x), ToUnsigned(t, y);
    var result := ToUnsigned(t, ux + uy);
    if t.signed then
      HasSignBit(t, BinaryComplement(t, ToType(t, And(Xor(result, ux, t.bits), Xor(result, uy, t.bits), t.bits))))
    else BinaryComplement(t, x) >= y
  }

  predicate IsSubValid(t: IntType, x: int, y: int)
    requires t.bits > 0
  {
    var ux, uy := ToUnsigned(t, x), ToUnsigned(t, y);
    var result := ToUnsigned(t, ux - uy);
    if t.signed then
      HasSignBit(t, BinaryComplement(t, ToType(t, And(Xor(result, ux, t.bits), Xor(ux, uy, t.bits), t.bits))))
    else x >= y
  }

  /** C++ division: the quotient truncated towards zero. */
  function TruncDiv(x: int, y: int): int
    requires y != 0
  {
    if x >= 0 && y > 0 then x / y
    else if x >= 0 then -(x / (-y))
    else if y > 0 then -((-x) / y)
    else (-x) / (-y)
  }

  predicate IsMulValid(t: IntType, x: int, y: int)
    requires t.bits > 0
  {
    if t.bits < 64 then
      var twice := IntType(2 * t.bits, t.signed);
      IsInRange(t, twice, ToType(twice, x * y))
    else if t.signed then
      if x == 0 || y == 0 then true
      else if x > 0 then if y > 0 then x <= TruncDiv(MaxValue(t), y) else y >= TruncDiv(MinValue(t), x)
      else if y > 0 then x >= TruncDiv(MinValue(t), y) else y >= TruncDiv(MaxValue(t), x)
    else y == 0 || x <= TruncDiv(MaxValue(t), y)
  }

  predicate IsDivValid(t: IntType, x: int, y: int)
    requires t.bits > 0
  {
    y != 0 && !(t.signed && x == MinValue(t) && y == ToType(t, -1))
  }

  // ----- The tests are exact -----

  lemma ToTypeOfInType(t: IntType, x: int)
    requires t.bits > 0 && InType(t, x)
    ensures ToType(t, x) == x
    ensures ToUnsigned(t, x) == if x < 0 then x + Pow2(t.bits) else x
  {
    var m := Pow2(t.bits);
    if x < 0 { ModUnique(x, m, -1, x + m); } else { ModUnique(x, m, 0, x); }
  }

  /** The sign bit of a value of the type, of its complement, and of a word converted to the type. */
  lemma SignBitIsSign(t: IntType, x: int)
    requires t.bits > 0 && InType(t, x)
    ensures TopBit(ToUnsigned(t, x), t.bits) <==> ToUnsigned(t, x) >= Pow2(t.bits - 1)
    ensures t.signed ==> (TopBit(ToUnsigned(t, x), t.bits) <==> x < 0)
    ensures HasSignBit(t, x) <==> TopBit(ToUnsigned(t, x), t.bits)
  {
    ToTypeOfInType(t, x);
    TopBitIsUpperHalf(ToUnsigned(t, x), t.bits);
    ShrBound(ToUnsigned(t, x), 1, t.bits - 1);
    assert Pow2(1) == 2;
  }

  lemma SignOfComplement(t: IntType, z: nat)
    requires t.bits > 0 && t.signed && z < Pow2(t.bits)
    ensures HasSignBit(t, BinaryComplement(t, ToType(t, z))) <==> !TopBit(z, t.bits)
  {
    var x := ToType(t, z);
    ModUnique(z, Pow2(t.bits), 0, z);
    TopBitIsUpperHalf(z, t.bits);
    assert x < 0 <==> TopBit(z, t.bits);
    assert InType(t, -x - 1);
    ToTypeOfInType(t, -x - 1);
    SignBitIsSign(t, -x - 1);
  }

  lemma ComplementUnsigned(t: IntType, x: int)
    requires t.bits > 0 && !t.signed && InType(t, x)
    ensures BinaryComplement(t, x) == MaxValue(t) - x
  {
    ModUnique(-x - 1, Pow2(t.bits), -1, Pow2(t.bits) - 1 - x);
  }

  lemma AddValidIsExact(t: IntType, x: int, y: int)
    requires t.bits > 0 && InType(t, x) && InType(t, y)
    ensures IsAddValid(t, x, y) <==> InType(t, x + y)
  {
    if t.signed {
      SignedAddTest(t, x, y);
    } else {
      ComplementUnsigned(t, x);
    }
  }

  lemma SignedAddTest(t: IntType, x: int, y: int)
    requires t.bits > 0 && t.signed && InType(t, x) && InType(t, y)
    ensures IsAddValid(t, x, y) <==> InType(t, x + y)
  {
    hide And, Xor, TopBit, HasSignBit, BinaryComplement, ToType, ToUnsigned, Pow2;
    var n, ux, uy := t.bits, ToUnsigned(t, x), ToUnsigned(t, y);
    var r := ToUnsigned(t, ux + uy);
    SignOfComplement(t, And(Xor(r, ux, n), Xor(r, uy, n), n));
    TopBitAnd(Xor(r, ux, n), Xor(r, uy, n), n);
    TopBitXor(r, ux, n);
    TopBitXor(r, uy, n);
    SignBitIsSign(t, x);
    SignBitIsSign(t, y);
    ToTypeOfInType(t, x);
    ToTypeOfInType(t, y);
    RangeWidth(t);
    WrappedSum(t, ux + uy, x + y);
  }

  lemma SubValidIsExact(t: IntType, x: int, y: int)
    requires t.bits > 0 && InType(t, x) && InType(t, y)
    ensures IsSubValid(t, x, y) <==> InType(t, x - y)
  {
    if t.signed { SignedSubTest(t, x, y); }
  }

  lemma SignedSubTest(t: IntType, x: int, y: int)
    requires t.bits > 0 && t.signed && InType(t, x) && InType(t, y)
    ensures IsSubValid(t, x, y) <==> InType(t, x - y)
  {
    hide And, Xor, TopBit, HasSignBit, BinaryComplement, ToType, ToUnsigned, Pow2;
    var n, ux, uy := t.bits, ToUnsigned(t, x), ToUnsigned(t, y);
    var d := ux as int - uy as int;
    var r := ToUnsigned(t, d);
    SignOfComplement(t, And(Xor(r, ux, n), Xor(ux, uy, n), n));
    TopBitAnd(Xor(r, ux, n), Xor(ux, uy, n), n);
    TopBitXor(r, ux, n);
    TopBitXor(ux, uy, n);
    SignBitIsSign(t, x);
    SignBitIsSign(t, y);
    ToTypeOfInType(t, x);
    ToTypeOfInType(t, y);
    RangeWidth(t);
    WrappedSum(t, d, x - y);
  }

  lemma RangeWidth(t: IntType)
    requires t.bits > 0
    ensures Pow2(t.bits) == 2 * Pow2(t.bits - 1)
  {
  }

  /** The wrapped result's top bit, when the exact result s is at most one wrap away from the range. */
  lemma WrappedSum(t: IntType, w: int, s: int)
    requires t.bits > 0 && t.signed
    requires w == s || w == s + Pow2(t.bits) || w == s - Pow2(t.bits) || w == s + 2 * Pow2(t.bits)
    requires 0 - Pow2(t.bits) <= s < Pow2(t.bits)
    ensures TopBit(ToUnsigned(t, w), t.bits) <==>
              if InType(t, s) then s < 0 else s >= 0
  {
    var m: int := Pow2(t.bits);
    var r: int := if s < 0 then s + m else s;
    var q: int := if s < 0 then -1 else 0;
    assert s == q * m + r;
    var k: int := if w == s then 0 else if w == s + m then 1 else if w == s - m then -1 else 2;
    assert w == (q + k) * m + r;
    ModUnique(w, m, q + k, r);
    TopBitIsUpperHalf(r, t.bits);
  }

  /** q <= a/b says q*b <= a. */
  lemma QuotientBound(q: int, a: int, b: int)
    requires b > 0
    ensures q <= a / b <==> q * b <= a
  {
    if q <= a / b { MulMono(a / b, q, b); } else { MulMono(q, a / b + 1, b); }
  }

  /** Widest signed type: the four division tests together say that the product fits. */
  lemma SignedDivisionTests(x: int, y: int, m: int)
    requires m > 0 && x != 0 && y != 0
    ensures (if x > 0 then if y > 0 then x <= TruncDiv(m - 1, y) else y >= TruncDiv(-m, x)
             else if y > 0 then x >= TruncDiv(-m, y) else y >= TruncDiv(m - 1, x))
        <==> -m <= x * y <= m - 1
  {
    if x > 0 && y > 0 {
      QuotientBound(x, m - 1, y);
      MulMono(x, 1, y);
    } else if x > 0 {
      QuotientBound(-y, m, x);
      assert (-y) * x == -(x * y);
      MulMono(-y, 1, x);
    } else if y > 0 {
      QuotientBound(-x, m, y);
      assert (-x) * y == -(x * y);
      MulMono(-x, 1, y);
    } else {
      QuotientBound(-y, m - 1, -x);
      assert (-y) * (-x) == x * y;
      MulMono(-y, 1, -x);
    }
  }

  /** A product of two values fits the type twice as big. */
  lemma ProductFitsTwice(t: IntType, x: int, y: int)
    requires t.bits > 0 && InType(t, x) && InType(t, y)
    ensures InType(IntType(2 * t.bits, t.signed), x * y)
  {
    var m := if t.signed then Pow2(t.bits - 1) else Pow2(t.bits);
    AbsProduct(x, y, m);
    if t.signed {
      Pow2Add(t.bits - 1, t.bits - 1);
      assert Pow2(2 * t.bits - 1) == 2 * Pow2(2 * t.bits - 2);
    } else {
      Pow2Add(t.bits, t.bits);
      UnsignedProduct(x, y, m);
    }
  }

  lemma AbsProduct(x: int, y: int, m: int)
    requires -m <= x <= m && -m <= y <= m
    ensures -(m * m) <= x * y <= m * m
  {
    if 0 <= y {
      MulMono(m - x, 0, y);
      MulMono(m + x, 0, y);
      MulMono(m - y, 0, m);
    } else {
      MulMono(m - x, 0, -y);
      MulMono(m + x, 0, -y);
      MulMono(m + y, 0, m);
    }
  }

  lemma UnsignedProduct(x: int, y: int, m: int)
    requires 0 <= x < m && 0 <= y < m
    ensures 0 <= x * y < m * m
  {
    MulMono(m - x, 1, m);
    MulMono(m - y, 1, x);
    MulMono(x, 0, y);
  }

  /** IsInRange<T>(x) for x of any other type decides membership in the range of T. */
  lemma InRangeIsExact(t: IntType, u: IntType, x: int)
    requires t.bits > 0 && u.bits > 0 && InType(u, x)
    ensures IsInRange(t, u, x) <==> InType(t, x)
  {
    if t.bits <= u.bits {
      Pow2Monotone(t.bits, u.bits);
      Pow2Monotone(t.bits - 1, u.bits - 1);
    }
    if t.bits >= u.bits {
      Pow2Monotone(u.bits, t.bits);
      Pow2Monotone(u.bits - 1, t.bits - 1);
    }
    if t.bits > u.bits { Pow2Monotone(u.bits, t.bits - 1); }
  }

  lemma MulValidIsExact(t: IntType, x: int, y: int)
    requires Supported(t) && InType(t, x) && InType(t, y)
    ensures IsMulValid(t, x, y) <==> InType(t, x * y)
  {
    hide Pow2;
    if t.bits < 64 {
      var twice := IntType(2 * t.bits, t.signed);
      ProductFitsTwice(t, x, y);
      ToTypeOfInType(twice, x * y);
      InRangeIsExact(t, twice, x * y);
    } else if t.signed {
      if x != 0 && y != 0 { SignedDivisionTests(x, y, Pow2(63)); }
    } else if y != 0 {
      QuotientBound(x, Pow2(64) - 1, y);
      MulMono(x, 0, y);
    }
  }

  lemma DivValidIsExact(t: IntType, x: int, y: int)
    requires t.bits > 1 && InType(t, x) && InType(t, y)
    ensures IsDivValid(t, x, y) <==> y != 0 && InType(t, TruncDiv(x, y))
  {
    if t.signed {
      ToTypeOfInType(t, -1);
    }
    if y != 0 {
      QuotientSmaller(if x >= 0 then x else -x, if y > 0 then y else -y);
    }
  }

  lemma QuotientSmaller(a: int, b: int)
    requires a >= 0 && b > 0
    ensures 0 <= a / b <= a && (b > 1 && a > 0 ==> a / b < a) && (b == 1 ==> a / b == a)
  {
    if a > 0 && b > 1 && a / b >= a { MulMono(a / b, a, b); MulMono(b, 2, a); }
  }

  // ----- Checked integers -----

  datatype CheckedInt = CheckedInt(value: int, valid: bool)

  datatype BinaryOp = Add | Sub | Mul | Div

  /** CheckedInt(U value) */
  function FromInt(t: IntType, u: IntType, x: int): CheckedInt
    requires t.bits > 0 && u.bits > 0
  {
    CheckedInt(ToType(t, x), IsInRange(t, u, x))
  }

  predicate IsValid(t: IntType, op: BinaryOp, x: int, y: int)
    requires t.bits > 0
  {
    match op
    case Add => IsAddValid(t, x, y)
    case Sub => IsSubValid(t, x, y)
    case Mul => IsMulValid(t, x, y)
    case Div => IsDivValid(t, x, y)
  }

  /** The exact result over the integers; division by zero has none. */
  function Exactly(op: BinaryOp, x: int, y: int): Option<int> {
    match op
    case Add => Some(x + y)
    case Sub => Some(x - y)
    case Mul => Some(x * y)
    case Div => if y == 0 then None else Some(TruncDiv(x, y))
  }

  /** MOZ_CHECKEDINT_BASIC_BINARY_OPERATOR */
  function Operate(t: IntType, op: BinaryOp, lhs: CheckedInt, rhs: CheckedInt): CheckedInt
    requires t.bits > 0
  {
    if !IsValid(t, op, lhs.value, rhs.value) then CheckedInt(0, false)
    else
      match Exactly(op, lhs.value, rhs.value)
      case Some(v) => CheckedInt(ToType(t, v), lhs.valid && rhs.valid)
      case None => CheckedInt(0, false)
  }

  /** operator -(): the negation of an unsigned value is skipped, that of a signed one wraps. */
  function Negate(t: IntType, a: CheckedInt): CheckedInt
    requires t.bits > 0
  {
    CheckedInt(if t.signed then ToType(t, -a.value) else a.value, a.valid && IsSubValid(t, 0, a.value))
  }

  // ----- Expression trees -----

  datatype Expr =
    | Leaf(u: IntType, x: int)
    | Binary(op: BinaryOp, lhs: Expr, rhs: Expr)
    | Neg(arg: Expr)

  /** Leaves are values of supported integer types. */
  predicate WellTyped(e: Expr) {
    match e
    case Leaf(u, x) => Supported(u) && InType(u, x)
    case Binary(_, l, r) => WellTyped(l) && WellTyped(r)
    case Neg(a) => WellTyped(a)
  }

  function Eval(t: IntType, e: Expr): CheckedInt
    requires t.bits > 0 && WellTyped(e)
  {
    match e
    case Leaf(u, x) => FromInt(t, u, x)
    case Binary(op, l, r) => Operate(t, op, Eval(t, l), Eval(t, r))
    case Neg(a) => Negate(t, Eval(t, a))
  }

  function InRangeOrNone(t: IntType, v: Option<int>): Option<int>
    requires t.bits > 0
  {
    if v.Some? && InType(t, v.value) then v else None
  }

  /** The value over the unbounded integers, if it and every intermediate value is in range. */
  function ExactValue(t: IntType, e: Expr): Option<int>
    requires t.bits > 0
  {
    match e
    case Leaf(_, x) => InRangeOrNone(t, Some(x))
    case Binary(op, l, r) =>
      (match (ExactValue(t, l), ExactValue(t, r))
       case (Some(a), Some(b)) => InRangeOrNone(t, Exactly(op, a, b))
       case _ => None)
    case Neg(a) =>
      (match ExactValue(t, a)
       case Some(v) => InRangeOrNone(t, Some(-v))
       case None => None)
  }

  lemma OperationIsExact(t: IntType, op: BinaryOp, x: int, y: int)
    requires Supported(t) && InType(t, x) && InType(t, y)
    ensures IsValid(t, op, x, y) <==> InRangeOrNone(t, Exactly(op, x, y)).Some?
    ensures InRangeOrNone(t, Exactly(op, x, y)).Some? ==> ToType(t, Exactly(op, x, y).value) == Exactly(op, x, y).value
  {
    hide IsAddValid, IsSubValid, IsMulValid, IsDivValid, TruncDiv, ToType, InType;
    match op {
      case Add => AddValidIsExact(t, x, y);
      case Sub => SubValidIsExact(t, x, y);
      case Mul => MulValidIsExact(t, x, y);
      case Div => DivValidIsExact(t, x, y);
    }
    var v := Exactly(op, x, y);
    if v.Some? && InType(t, v.value) { ToTypeOfInType(t, v.value); }
  }

  lemma NegationIsExact(t: IntType, a: CheckedInt)
    requires Supported(t) && InType(t, a.value)
    ensures InType(t, Negate(t, a).value)
    ensures Negate(t, a).valid <==> a.valid && InType(t, -a.value)
    ensures Negate(t, a).valid ==> Negate(t, a).value == -a.value
  {
    hide IsSubValid;
    SubValidIsExact(t, 0, a.value);
    if InType(t, -a.value) { ToTypeOfInType(t, -a.value); }
  }

  /**
   * A checked expression is valid exactly when every leaf and every exact intermediate value is in
   * range and nothing is divided by zero, and then it holds the exact value.
   */
  lemma {:induction false} CheckedEvaluationIsExact(t: IntType, e: Expr)
    requires Supported(t) && WellTyped(e)
    ensures InType(t, Eval(t, e).value)
    ensures Eval(t, e).valid <==> ExactValue(t, e).Some?
    ensures Eval(t, e).valid ==> ExactValue(t, e) == Some(Eval(t, e).value)
  {
    hide IsValid, IsInRange, Negate, Exactly;
    match e {
      case Leaf(u, x) =>
        InRangeIsExact(t, u, x);
        if InType(t, x) { ToTypeOfInType(t, x); }
      case Binary(op, l, r) =>
        CheckedEvaluationIsExact(t, l);
        CheckedEvaluationIsExact(t, r);
        OperationIsExact(t, op, Eval(t, l).value, Eval(t, r).value);
      case Neg(a) =>
        CheckedEvaluationIsExact(t, a);
        NegationIsExact(t, Eval(t, a));
    }
  }
}
