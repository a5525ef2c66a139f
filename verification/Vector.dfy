/**
 * The growable buffer of js/public/Vector.h: inline storage first, then heap buffers whose
 * capacity is a power of two. Whether malloc_ succeeds is the parameter memory.
 */
module Vectors {
  import opened Options
  import opened Pow2s
  import opened Bits
  import opened Log2

  // ----- calculateNewCapacity -----

  /** The mask of bits an element count may not have: MulOverflowMask<2 * sizeof(T)>. */
  function UnsafeRangeSizeMask(elemSize: nat): Word64
    requires elemSize > 0 && CeilingLog2(2 * elemSize) <= WORD_BITS
  {
    MulOverflowMask(2 * elemSize)
  }

  function CalculateNewCapacity(curLength: Word64, lengthInc: Word64, elemSize: nat): Option<Word64>
    requires elemSize > 0 && CeilingLog2(2 * elemSize) <= WORD_BITS
  {
    var newMinCap: Word64 := (curLength + lengthInc) % TWO64;
    if newMinCap < curLength || And(newMinCap, MulOverflowMask(2 * elemSize), WORD_BITS) != 0 then None
    else
      var newCap := RoundUpPow2(newMinCap);
      if And(newCap, UnsafeRangeSizeMask(elemSize), WORD_BITS) != 0 then None else Some(newCap)
  }

  ghost predicate IsPow2(x: nat) {
    exists k: nat :: x == Pow2(k)
  }

  /** cap is the least power of two, at least 1, that reaches n. */
  ghost predicate LeastPow2(n: nat, cap: nat) {
    IsPow2(cap) && n <= cap && forall k: nat :: n <= Pow2(k) ==> cap <= Pow2(k)
  }

  lemma DoubledSize(elemSize: nat)
    requires elemSize > 0
    ensures CeilingLog2(2 * elemSize) == CeilingLog2W(elemSize) + 1
    ensures elemSize <= Pow2(CeilingLog2W(elemSize))
  {
    CeilingsAgree(2 * elemSize);
    CeilingIsLeast(elemSize);
    var k := CeilingLog2W(elemSize);
    if elemSize > 1 {
      FloorLog2Bounds(elemSize - 1);
      FloorLog2Unique(2 * elemSize - 1, k);
    }
  }

  /** Below half the range, rounding up does not wrap. */
  lemma RoundUpSpec(x: Word64, m: nat)
    requires 0 < m < WORD_BITS && x < Pow2(m)
    ensures RoundUpPow2(x) == Pow2(CeilingLog2W(x)) && LeastPow2(x, RoundUpPow2(x))
    ensures RoundUpPow2(x) < Pow2(m) <==> x <= Pow2(m - 1)
  {
    var c := CeilingLog2W(x);
    CeilingIsLeast(x);
    assert c <= m;
    Pow2_64();
    Pow2Monotone(c, m);
    Pow2Monotone(m + 1, 64);
    ModUnique(Pow2(c), TWO64, 0, Pow2(c));
    forall k: nat | x <= Pow2(k) ensures Pow2(c) <= Pow2(k) { Pow2Monotone(c, k); }
    if c < m { Pow2Monotone(c, m - 1); }
    if x <= Pow2(m - 1) { assert c <= m - 1; }
  }

  /**
   * A new capacity is refused exactly when the requested length exceeds 2^63 divided by twice the
   * element size rounded up to a power of two; otherwise it is the least power of two that is long enough,
   * and its size in bytes stays below 2^63.
   */
  lemma NewCapacityIsExact(curLength: Word64, lengthInc: Word64, elemSize: nat)
    requires elemSize > 0 && CeilingLog2(2 * elemSize) < WORD_BITS
    ensures var k := WORD_BITS - 1 - CeilingLog2(2 * elemSize);
            var r := CalculateNewCapacity(curLength, lengthInc, elemSize);
            && (r.Some? <==> curLength + lengthInc <= Pow2(k))
            && (r.Some? ==> LeastPow2(curLength + lengthInc, r.value) && r.value * elemSize <= Pow2(62) < Pow2(63))
  {
    hide And, MulOverflowMask, RoundUpPow2, LeastPow2, Pow2, CeilingLog2, CeilingLog2W;
    DoubledSize(elemSize);
    var m := WORD_BITS - CeilingLog2(2 * elemSize);
    var sum := curLength + lengthInc;
    var newMinCap: Word64 := sum % TWO64;
    CapacityLimit(m);
    SumWraps(curLength, lengthInc);
    if newMinCap >= curLength {
      OverflowMaskMeaning(newMinCap, 2 * elemSize);
      if newMinCap < Pow2(m) {
        RoundUpSpec(newMinCap, m);
        OverflowMaskMeaning(RoundUpPow2(newMinCap), 2 * elemSize);
        if RoundUpPow2(newMinCap) < Pow2(m) { BytesBelow(newMinCap, m, elemSize); }
      }
    }
  }

  lemma NewCapacityIsLeast(curLength: Word64, lengthInc: Word64, elemSize: nat)
    requires elemSize > 0 && CeilingLog2(2 * elemSize) < WORD_BITS
    ensures var r := CalculateNewCapacity(curLength, lengthInc, elemSize);
            && (r.Some? <==> curLength + lengthInc <= Pow2(WORD_BITS - 1 - CeilingLog2(2 * elemSize)))
            && (r.Some? ==> LeastPow2(curLength + lengthInc, r.value) && r.value * elemSize < Pow2(63))
  {
    hide LeastPow2, CalculateNewCapacity;
    NewCapacityIsExact(curLength, lengthInc, elemSize);
  }

  lemma CapacityLimit(m: nat)
    requires 0 < m < WORD_BITS
    ensures Pow2(m - 1) < Pow2(m) < TWO64
  {
    Pow2_64();
    Pow2Monotone(m + 1, 64);
  }

  lemma SumWraps(a: Word64, b: Word64)
    ensures (a + b) % TWO64 < a <==> a + b >= TWO64
    ensures a + b < TWO64 ==> (a + b) % TWO64 == a + b
  {
  }

  lemma BytesBelow(x: Word64, m: nat, elemSize: nat)
    requires 0 < m < WORD_BITS && x < Pow2(m) && RoundUpPow2(x) < Pow2(m)
    requires CeilingLog2W(elemSize) + m == WORD_BITS - 1 && elemSize > 0
    ensures RoundUpPow2(x) * elemSize <= Pow2(62) < Pow2(63)
  {
    RoundUpSpec(x, m);
    CeilingIsLeast(elemSize);
    var c, d := CeilingLog2W(x), CeilingLog2W(elemSize);
    if c >= m { Pow2Monotone(m, c); }
    Pow2Add(c, d);
    Pow2Monotone(c + d, 62);
    hide RoundUpPow2, CeilingLog2W;
    MulMono(Pow2(d), elemSize, Pow2(c));
    assert Pow2(63) == 2 * Pow2(62);
  }

  // ----- The vector -----

  class Vector<T> {
    /** sizeof(T), sInlineCapacity, T() and the inline buffer. */
    const elemSize: nat
    const inlineCapacity: nat
    const blank: T
    const storage: array<T>

    var mBegin: array<T>
    var mLength: nat
    var mCapacity: nat

    /** How many elements growing has moved so far. */
    ghost var moved: nat

    ghost predicate Valid()
      reads this
    {
      && elemSize > 0 && CeilingLog2(2 * elemSize) < WORD_BITS
      && storage.Length == inlineCapacity < TWO64
      && mLength <= mCapacity <= mBegin.Length && mCapacity < TWO64
      && (mBegin == storage ==> mCapacity == inlineCapacity)
    }

    ghost function Contents(): seq<T>
      reads this, mBegin
      requires Valid()
    {
      mBegin[..mLength]
    }

    /** What appends alone keep: growing has moved fewer elements than the power-of-two heap capacity. */
    ghost predicate OnlyAppended()
      reads this
    {
      if mBegin == storage then moved == 0
      else IsPow2(mCapacity) && moved < mCapacity < 2 * mLength
    }

    /** The greatest length for which a capacity is calculated. */
    ghost function MaxLength(): nat
      requires elemSize > 0 && CeilingLog2(2 * elemSize) < WORD_BITS
    {
      Pow2(WORD_BITS - 1 - CeilingLog2(2 * elemSize))
    }

    /** There is room for a number of elements, or it can be made. */
    ghost predicate CanHold(length: nat, memory: bool)
      reads this
      requires elemSize > 0 && CeilingLog2(2 * elemSize) < WORD_BITS
    {
      length <= mCapacity || (memory && length <= MaxLength())
    }

    /**
     * Room was made for length elements: nothing happened if the capacity sufficed, and otherwise all elements
     * moved to a fresh buffer whose capacity is the least power of two that suffices.
     */
    twostate predicate MadeRoom(length: nat)
      reads this
    {
      if length <= old(mCapacity) then
        mBegin == old(mBegin) && mCapacity == old(mCapacity) && moved == old(moved)
      else
        fresh(mBegin) && LeastPow2(length, mCapacity) && moved == old(moved) + old(mLength)
    }

    constructor (elemSize: nat, inlineCapacity: nat, blank: T)
      requires elemSize > 0 && CeilingLog2(2 * elemSize) < WORD_BITS && inlineCapacity < TWO64
      ensures Valid() && Contents() == [] && moved == 0 && OnlyAppended() && mBegin == storage
      ensures this.elemSize == elemSize && this.inlineCapacity == inlineCapacity && fresh(storage)
    {
      this.elemSize, this.inlineCapacity, this.blank := elemSize, inlineCapacity, blank;
      var buffer := new T[inlineCapacity](_ => blank);
      storage, mBegin := buffer, buffer;
      mLength, mCapacity, moved := 0, inlineCapacity, 0;
    }

    predicate UsingInlineStorage()
      reads this
    {
      mBegin == storage
    }

    /** malloc_ */
    method Allocate(capacity: nat, memory: bool) returns (buffer: array?<T>)
      ensures buffer != null <==> memory
      ensures buffer != null ==> fresh(buffer) && buffer.Length == capacity
    {
      if !memory { return null; }
      buffer := new T[capacity](_ => blank);
    }

    /** Move the elements into a larger buffer: growTo for heap storage, convertToHeapStorage for inline. */
    method MoveTo(newCap: nat, memory: bool) returns (ok: bool)
      requires Valid() && mLength < newCap < TWO64
      modifies this
      ensures Valid() && Contents() == old(Contents()) && mLength == old(mLength)
      ensures ok <==> memory
      ensures !ok ==> unchanged(this)
      ensures ok ==> fresh(mBegin) && mCapacity == mBegin.Length == newCap && moved == old(moved) + mLength
    {
      var newBuf := Allocate(newCap, memory);
      if newBuf == null { return false; }
      for i := 0 to mLength
        invariant unchanged(this) && mBegin[..mLength] == old(mBegin[..mLength])
        invariant newBuf[..i] == mBegin[..i]
      {
        newBuf[i] := mBegin[i];
      }
      mBegin := newBuf;
      mCapacity := newCap;
      moved := moved + mLength;
      return true;
    }

    /** growStorageBy: fails on overflow or when memory runs out, and then changes nothing. */
    method GrowStorageBy(incr: Word64, memory: bool) returns (ok: bool)
      requires Valid() && mLength + incr > mCapacity
      modifies this
      ensures Valid() && Contents() == old(Contents()) && mLength == old(mLength)
      ensures ok <==> memory && mLength + incr <= MaxLength()
      ensures !ok ==> unchanged(this)
      ensures ok ==> MadeRoom(mLength + incr) && mCapacity * elemSize < Pow2(63)
    {
      hide LeastPow2, CalculateNewCapacity, Pow2, CeilingLog2;
      NewCapacityIsLeast(mLength, incr, elemSize);
      var newCap := CalculateNewCapacity(mLength, incr, elemSize);
      if newCap.None? { return false; }
      LeastReaches(mLength + incr, newCap.value);
      ok := MoveTo(newCap.value, memory);
    }

    /** append(t) */
    method Append(t: T, memory: bool) returns (ok: bool)
      requires Valid()
      modifies this, mBegin
      ensures Valid() && (mBegin == old(mBegin) || fresh(mBegin))
      ensures Contents() == if ok then old(Contents()) + [t] else old(Contents())
      ensures ok <==> old(CanHold(mLength + 1, memory))
      ensures if ok then MadeRoom(old(mLength) + 1) else unchanged(this)
      ensures ok && old(OnlyAppended()) ==> OnlyAppended()
    {
      hide LeastPow2, IsPow2, Pow2, CeilingLog2;
      ghost var was := Contents();
      if mLength == mCapacity {
        ok := GrowStorageBy(1, memory);
        if !ok { return; }
        if old(OnlyAppended()) {
          GrownByOne(mLength, mCapacity, old(mBegin == storage), old(mCapacity), old(moved));
        }
        LeastReaches(mLength + 1, mCapacity);
      }
      mBegin[mLength] := t;
      mLength := mLength + 1;
      assert Contents() == was + [t];
      return true;
    }

    /** reserve(request) */
    method Reserve(request: Word64, memory: bool) returns (ok: bool)
      requires Valid()
      modifies this
      ensures Valid() && Contents() == old(Contents()) && (mBegin == old(mBegin) || fresh(mBegin))
      ensures ok <==> old(CanHold(request, memory))
      ensures ok ==> mCapacity >= request && MadeRoom(request)
      ensures !ok || old(mCapacity) >= request ==> unchanged(this)
    {
      hide LeastPow2, IsPow2, Pow2, CeilingLog2;
      if request > mCapacity {
        ok := GrowStorageBy(request - mLength, memory);
        if !ok { return; }
        LeastReaches(request, mCapacity);
      }
      return true;
    }

    /** growByImpl<true>(incr): new elements are default-constructed. */
    method GrowBy(incr: Word64, memory: bool) returns (ok: bool)
      requires Valid()
      modifies this, mBegin
      ensures Valid() && (mBegin == old(mBegin) || fresh(mBegin))
      ensures Contents() == if ok then old(Contents()) + seq(incr, _ => blank) else old(Contents())
      ensures ok <==> old(CanHold(mLength + incr, memory))
      ensures if ok then MadeRoom(old(mLength) + incr) else unchanged(this)
    {
      hide LeastPow2, IsPow2, Pow2, CeilingLog2;
      if incr > mCapacity - mLength {
        ok := GrowStorageBy(incr, memory);
        if !ok { return; }
        LeastReaches(mLength + incr, mCapacity);
      }
      Fill(incr, blank);
      return true;
    }

    /** Construct n copies of t behind the last element, where there is room for them. */
    method Fill(n: nat, t: T)
      requires Valid() && mLength + n <= mCapacity
      modifies this`mLength, mBegin
      ensures Valid() && Contents() == old(Contents()) + seq(n, _ => t)
    {
      ghost var was := Contents();
      for i := 0 to n
        invariant mLength == old(mLength)
        invariant mBegin[..mLength + i] == was + seq(i, _ => t)
      {
        mBegin[mLength + i] := t;
        assert mBegin[..mLength + i + 1] == mBegin[..mLength + i] + [t];
      }
      mLength := mLength + n;
    }

    /**
     * appendN(t, needed). The source adds the lengths on 64 bits and does not check that sum: when it wraps
     * around, nothing grows and the copies run over the end of the buffer. overrun says so, and is where the
     * model stops; it happens exactly when the new length does not fit 64 bits.
     */
    method AppendN(t: T, needed: Word64, memory: bool) returns (ok: bool, overrun: bool)
      requires Valid()
      modifies this, mBegin
      ensures Valid() && (mBegin == old(mBegin) || fresh(mBegin))
      ensures overrun <==> old(mLength) + needed >= TWO64
      ensures overrun ==> unchanged(this) && Contents() == old(Contents())
      ensures !overrun ==> Contents() == if ok then old(Contents()) + seq(needed, _ => t) else old(Contents())
      ensures ok <==> overrun || old(CanHold(mLength + needed, memory))
      ensures if !ok || overrun then unchanged(this) else MadeRoom(old(mLength) + needed)
    {
      hide LeastPow2, IsPow2, Pow2, CeilingLog2;
      WrappedGuard(mLength, needed, mCapacity);
      if (mLength + needed) % TWO64 > mCapacity {
        ok := GrowStorageBy(needed, memory);
        if !ok { return false, false; }
        LeastReaches(mLength + needed, mCapacity);
      }
      if mLength + needed > mCapacity { return true, true; }
      Fill(needed, t);
      return true, false;
    }

    method ShrinkBy(incr: nat)
      requires Valid() && incr <= mLength
      modifies this`mLength
      ensures Valid() && Contents() == old(Contents())[..|old(Contents())| - incr]
    {
      mLength := mLength - incr;
    }

    method Resize(newLength: Word64, memory: bool) returns (ok: bool)
      requires Valid()
      modifies this, mBegin
      ensures Valid() && (mBegin == old(mBegin) || fresh(mBegin))
      ensures ok ==> Contents() == if newLength <= |old(Contents())| then old(Contents())[..newLength]
                                   else old(Contents()) + seq(newLength - |old(Contents())|, _ => blank)
      ensures ok <==> old(CanHold(newLength, memory))
      ensures if ok then MadeRoom(newLength) else unchanged(this) && Contents() == old(Contents())
    {
      hide LeastPow2, Pow2, CeilingLog2;
      if newLength > mLength {
        ok := GrowBy(newLength - mLength, memory);
      } else {
        ShrinkBy(mLength - newLength);
        ok := true;
      }
    }

    method PopCopy() returns (t: T)
      requires Valid() && mLength > 0
      modifies this`mLength
      ensures Valid() && old(Contents()) == Contents() + [t]
    {
      t := mBegin[mLength - 1];
      mLength := mLength - 1;
    }

    /** insert(begin() + pos, val): duplicate the last element, then shift towards the end. */
    method Insert(pos: nat, val: T, memory: bool) returns (ok: bool)
      requires Valid() && pos <= mLength
      modifies this, mBegin
      ensures Valid() && (mBegin == old(mBegin) || fresh(mBegin))
      ensures Contents() == if ok then old(Contents())[..pos] + [val] + old(Contents())[pos..] else old(Contents())
      ensures ok <==> old(CanHold(mLength + 1, memory))
      ensures if ok then MadeRoom(old(mLength) + 1) else unchanged(this)
    {
      hide CeilingLog2, IsPow2, LeastPow2, Pow2;
      ghost var was := Contents();
      var oldLength := mLength;
      if pos == oldLength {
        ok := Append(val, memory);
        assert !ok || Contents() == was[..pos] + [val] + was[pos..];
        return;
      }
      ok := Append(mBegin[mLength - 1], memory);
      if !ok { return; }
      Displace(pos, val);
      assert (was + [was[oldLength - 1]])[..pos] == was[..pos];
      assert (was + [was[oldLength - 1]])[pos..oldLength] == was[pos..];
    }

    /** Shift the elements from pos up by one over the last, then store val at pos. */
    method Displace(pos: nat, val: T)
      requires Valid() && pos < mLength - 1
      modifies mBegin
      ensures Valid() && Contents() == old(Contents())[..pos] + [val] + old(Contents())[pos..mLength - 1]
    {
      hide CeilingLog2;
      ShiftUp(pos, mLength - 1);
      mBegin[pos] := val;
      assert Contents() == mBegin[..pos] + [mBegin[pos]] + mBegin[pos + 1..mLength];
    }

    method ShiftUp(pos: nat, oldLength: nat)
      requires Valid() && pos < oldLength && mLength == oldLength + 1
      modifies mBegin
      ensures Valid()
      ensures mBegin[..pos] == old(mBegin[..pos])
      ensures mBegin[pos + 1..mLength] == old(mBegin[pos..oldLength])
    {
      var i := oldLength;
      while i > pos
        invariant pos <= i <= oldLength
        invariant mBegin[..i] == old(mBegin[..i])
        invariant forall j :: i < j <= oldLength ==> mBegin[j] == old(mBegin[j - 1])
      {
        mBegin[i] := mBegin[i - 1];
        i := i - 1;
      }
      assert forall j :: pos < j < mLength ==> mBegin[j] == old(mBegin[j - 1]);
      assert mBegin[pos + 1..mLength] == old(mBegin[pos..oldLength]);
    }

    /** erase(begin() + pos): shift towards the front, then drop the last element. */
    method Erase(pos: nat)
      requires Valid() && pos < mLength
      modifies this`mLength, mBegin
      ensures Valid() && Contents() == old(Contents())[..pos] + old(Contents())[pos + 1..]
    {
      ghost var was := Contents();
      var it := pos;
      while it + 1 != mLength
        invariant pos <= it < mLength == old(mLength)
        invariant mBegin[it..mLength] == was[it..]
        invariant mBegin[..it] == was[..pos] + was[pos + 1..it + 1]
      {
        assert mBegin[it + 1] == mBegin[it..mLength][1];
        mBegin[it] := mBegin[it + 1];
        it := it + 1;
      }
      mLength := mLength - 1;
    }

    /** Destroy the elements and go back to the inline buffer. */
    method ClearAndFree()
      requires Valid()
      modifies this`mLength, this`mBegin, this`mCapacity
      ensures Valid() && Contents() == [] && mBegin == storage && mCapacity == inlineCapacity
    {
      mLength := 0;
      if UsingInlineStorage() { return; }
      mBegin := storage;
      mCapacity := inlineCapacity;
    }

    /** Hand the buffer to the caller; inline elements have to be copied out, which may fail. */
    method ExtractRawBuffer(memory: bool) returns (ret: array?<T>)
      requires Valid()
      modifies this`mLength, this`mBegin, this`mCapacity
      ensures Valid()
      ensures ret == null <==> old(mBegin == storage) && !memory
      ensures ret == null ==> unchanged(this) && mBegin == storage
      ensures ret != null ==>
                && Contents() == [] && mBegin == storage && mCapacity == inlineCapacity && ret != storage
                && |old(Contents())| <= ret.Length && ret[..|old(Contents())|] == old(Contents())
                && if old(mBegin == storage) then fresh(ret) else ret == old(mBegin)
    {
      if UsingInlineStorage() {
        ret := Allocate(mLength, memory);
        if ret == null { return; }
        for i := 0 to mLength
          invariant unchanged(this) && mBegin[..mLength] == old(mBegin[..mLength]) && ret[..i] == mBegin[..i]
        {
          ret[i] := mBegin[i];
        }
        mLength := 0;
      } else {
        ret := mBegin;
        mBegin := storage;
        mLength := 0;
        mCapacity := inlineCapacity;
      }
    }

    /** Take over a buffer of length elements, copying them inline if they fit. */
    method ReplaceRawBuffer(p: array<T>, length: Word64)
      requires Valid() && length <= p.Length && p != storage
      modifies this`mLength, this`mBegin, this`mCapacity, storage
      ensures Valid() && Contents() == old(p[..length])
      ensures mBegin == if length <= inlineCapacity then storage else p
      ensures mCapacity == if length <= inlineCapacity then inlineCapacity else length
    {
      if length <= inlineCapacity {
        mBegin := storage;
        mLength := length;
        mCapacity := inlineCapacity;
        for i := 0 to length
          invariant mBegin == storage && mLength == length && mCapacity == inlineCapacity
          invariant storage[..i] == p[..i] && p[..] == old(p[..])
        {
          storage[i] := p[i];
        }
      } else {
        mBegin := p;
        mLength := length;
        mCapacity := length;
      }
      assert p[..length] == old(p[..length]);
    }
  }

  /** Growth is skipped although the elements do not fit exactly when the 64-bit sum wraps around. */
  lemma WrappedGuard(length: Word64, needed: Word64, capacity: Word64)
    requires length <= capacity
    ensures (length + needed) % TWO64 <= capacity < length + needed <==> length + needed >= TWO64
  {
    SumWraps(length, needed);
  }

  lemma LeastReaches(n: nat, cap: nat)
    requires LeastPow2(n, cap)
    ensures n <= cap && cap >= 1
  {
  }

  /** The potential argument: a full buffer of l elements grows to less than twice l + 1. */
  lemma GrownByOne(l: nat, cap: nat, inline: bool, oldCap: nat, oldMoved: nat)
    requires LeastPow2(l + 1, cap) && oldCap == l
    requires if inline then oldMoved == 0 else IsPow2(oldCap) && oldMoved < oldCap
    ensures IsPow2(cap) && oldMoved + l < cap < 2 * (l + 1)
  {
    var k: nat :| cap == Pow2(k);
    if k > 0 {
      assert cap == 2 * Pow2(k - 1);
      assert l + 1 > Pow2(k - 1);
    }
    if !inline {
      var j: nat :| l == Pow2(j);
      assert l + 1 <= Pow2(j + 1) == 2 * l;
      if k <= j { Pow2Monotone(k, j); }
      Pow2Monotone(j + 1, k);
    }
  }

  // ----- Sequences of operations -----

  /**
   * Any n successful appends to a fresh vector move at most 2n elements in all. memory(i) is the allocator's
   * answer to the i-th; they stop only at one that needs it and is denied, or is too long.
   */
  method AppendAll<T>(v: Vector<T>, ts: seq<T>, memory: nat -> bool) returns (n: nat)
    requires v.Valid() && v.Contents() == [] && v.mBegin == v.storage && v.moved == 0
    modifies v, v.mBegin
    ensures v.Valid() && n <= |ts| && v.Contents() == ts[..n]
    ensures v.moved <= 2 * n
    ensures n < |ts| ==> n == v.mCapacity && (!memory(n) || n >= v.MaxLength())
  {
    hide IsPow2, CeilingLog2;
    n := 0;
    while n < |ts|
      invariant v.Valid() && 0 <= n <= |ts| && v.Contents() == ts[..n] && v.mLength == n && v.OnlyAppended()
      invariant v.mBegin == old(v.mBegin) || fresh(v.mBegin)
    {
      var ok := v.Append(ts[n], memory(n));
      if !ok { return; }
      assert ts[..n + 1] == ts[..n] + [ts[n]];
      n := n + 1;
    }
  }

  /** Where there is room for them, appends need no memory, move nothing and keep the buffer and its capacity. */
  method AppendWithin<T>(v: Vector<T>, ts: seq<T>)
    requires v.Valid() && v.mLength + |ts| <= v.mCapacity
    modifies v, v.mBegin
    ensures v.Valid() && v.Contents() == old(v.Contents()) + ts
    ensures v.moved == old(v.moved) && v.mBegin == old(v.mBegin) && v.mCapacity == old(v.mCapacity)
  {
    hide IsPow2, CeilingLog2;
    ghost var was := v.Contents();
    for i := 0 to |ts|
      invariant v.Valid() && v.mBegin == old(v.mBegin) && v.mCapacity == old(v.mCapacity) && v.moved == old(v.moved)
      invariant v.mLength == |was| + i && v.Contents() == was + ts[..i]
    {
      var ok := v.Append(ts[i], false);
      assert ok;
      assert ts[..i + 1] == ts[..i] + [ts[i]];
    }
    assert ts[..|ts|] == ts;
  }

  /** Reserve makes that room, moving each element at most once; the appends after it move nothing. */
  method AppendReserved<T>(v: Vector<T>, ts: seq<T>, memory: bool)
    returns (reserved: bool, ghost movedAtReserve: nat)
    requires v.Valid() && v.mLength + |ts| < TWO64
    modifies v, v.mBegin
    ensures v.Valid()
    ensures v.Contents() == if reserved then old(v.Contents()) + ts else old(v.Contents())
    ensures reserved <==> old(v.CanHold(v.mLength + |ts|, memory))
    ensures v.moved == old(v.moved) + movedAtReserve
    ensures movedAtReserve == if !reserved || old(v.mLength) + |ts| <= old(v.mCapacity) then 0
                              else |old(v.Contents())|
  {
    hide IsPow2, CeilingLog2;
    reserved := v.Reserve(v.mLength + |ts|, memory);
    movedAtReserve := v.moved - old(v.moved);
    if reserved { AppendWithin(v, ts); }
  }

  /** How the buffer is overrun: one element, and a request for 2^64 - 1 more. */
  method OverrunByOne() returns (overrun: bool)
    ensures overrun
  {
    assert FloorLog2(3) == 1;
    var v := new Vector<int>(1, 1, 0);
    var ok := v.Append(0, false);
    ok, overrun := v.AppendN(7, TWO64 - 1, false);
  }

  /** Handing the raw buffer of one vector to another transfers exactly its contents. */
  method Transfer<T>(from: Vector<T>, to: Vector<T>, memory: bool) returns (ok: bool)
    requires from.Valid() && to.Valid() && from != to
    requires from.mBegin != to.storage && from.storage != to.storage
    modifies from, to, to.storage
    ensures from.Valid() && to.Valid()
    ensures ok <==> memory || old(from.mBegin != from.storage)
    ensures ok ==> from.Contents() == [] && to.Contents() == old(from.Contents())
    ensures !ok ==> from.Contents() == old(from.Contents()) && unchanged(from) && unchanged(to)
  {
    hide CeilingLog2;
    var length := from.mLength;
    var buffer := from.ExtractRawBuffer(memory);
    if buffer == null { return false; }
    to.ReplaceRawBuffer(buffer, length);
    return true;
  }
}
