/** The compressed engine of int2048.hpp.

    An int2048 holds its magnitude in a vector of limbs in radix 10^9, least
    significant first, with Size limbs in use, and its sign in IsPositive.
    The vector routines live in module Limbs; this module holds the object
    and its operators. A parameter passed by reference is read through a
    snapshot of its fields taken on entry, which is what the source reads
    even when the parameter aliases this: every loop reads B's limb i
    before it writes limb i. A parameter passed by value is a fresh copy. */
module Compressed {
  import opened Positional
  import opened Limbs
  import Signed

  /** Reserve in int2048.hpp: the limbs allocated by every int2048. */
  const Reserve: int := 32

  class Int2048 {
    /** BigInt: the limbs, least significant first. */
    var limbs: seq<int>
    /** IsPositive. Negative zero can occur. */
    var positive: bool
    /** Size: the number of limbs in use. */
    var size: int

    /** The limbs in use are in range and everything above them is zero. */
    ghost predicate Shaped()
      reads this
    {
      Trimmable(limbs, size)
    }

    /** Shaped, and no leading zero limb unless the value is a single limb. */
    ghost predicate Valid()
      reads this
    {
      Normalized(limbs, size)
    }

    ghost function Magnitude(): int
      reads this
    {
      Value(limbs[..if 0 <= size <= |limbs| then size else 0], Base)
    }

    /** The sign and magnitude this denotes. */
    ghost function Model(): Signed.Num
      reads this
      requires Shaped()
    {
      LemmaTrimmableValue(limbs, size);
      Signed.Num(positive, Magnitude())
    }

    /** `int2048()` (int2048.hpp:127-130): Reserve zero limbs and one more
        pushed; the value is positive zero. */
    constructor()
      ensures Valid() && Model() == Signed.Num(true, 0) && size == 1 && |limbs| == Reserve + 1
    {
      limbs := Zeros(Reserve + 1);
      positive := true;
      size := 1;
      new;
      LemmaValueZeros(limbs[..1], Base);
    }

    /** `int2048(long long)` (int2048.hpp:132-150). The C++ negation of the
        smallest `long long` overflows, so that value is excluded. */
    constructor FromLongLong(x: int)
      requires -LongLongMax <= x <= LongLongMax
      ensures Valid() && Model() == Signed.Num(x >= 0, if x >= 0 then x else -x)
    {
      var s := Zeros(Reserve + 1);
      var pos, i := true, 1;
      if x != 0 {
        var v := x;
        if x < 0 {
          pos := false;
          v := -x;
        }
        s, i := SplitLimbs(v, Zeros(Reserve));
      } else {
        LemmaValueZeros(s[..1], Base);
      }
      limbs := s;
      positive := pos;
      size := i;
    }

    /** The copy constructor (int2048.hpp:194), used for a parameter passed
        by value. */
    constructor CopyOf(other: Int2048)
      ensures limbs == other.limbs && positive == other.positive && size == other.size
    {
      limbs := other.limbs;
      positive := other.positive;
      size := other.size;
    }

    /** The zero result of `operator*=` and `operator/=` (int2048.hpp:421-424,
        514-517): the vector is cleared to the single limb 0 and the sign
        set positive. */
    method SetZero()
      modifies this
      ensures Valid() && Model() == Signed.Num(true, 0) && limbs == [0] && size == 1
    {
      limbs := [0];
      size := 1;
      positive := true;
      LemmaValueSingle(limbs, Base);
    }

    /** `_resize` (int2048.hpp:340-346): drops zero top limbs, never below
        one limb, so the value is kept and the result is normalized. */
    method Resize()
      modifies this
      requires Shaped()
      ensures Valid() && limbs == old(limbs) && positive == old(positive) && size <= old(size)
      ensures Magnitude() == old(Magnitude())
    {
      size := TrimTop(limbs, size);
    }

    /** `_simple_add` (int2048.hpp:249-295): |this| := |this| + |B|. The
        vector is resized to one more than the longer operand; Size becomes
        the longer operand's size, plus one when a final carry writes the
        limb 1 on top. */
    method SimpleAdd(b: Int2048)
      modifies this
      requires Valid() && b.Valid()
      ensures Valid() && positive == old(positive)
      ensures Magnitude() == old(Magnitude()) + old(b.Magnitude())
      ensures var m := if old(size) > old(b.size) then old(size) else old(b.size);
              |limbs| == m + 1 && (size == m || (size == m + 1 && limbs[m] == 1))
    {
      var bl, bs := b.limbs, b.size;
      var s, m, carry;
      if size > bs {
        s, carry := AddIntoLonger(limbs, size, bl, bs);
        m := size;
      } else {
        s, carry := AddIntoShorter(limbs, size, bl, bs);
        m := bs;
      }
      if carry {
        s := s[m := 1];
        size := m + 1;
      } else {
        size := m;
      }
      limbs := s;
    }

    /** `_simple_minus` (int2048.hpp:297-320): |this| := |this| - |B|,
        which requires |this| >= |B|, then `_resize`. */
    method SimpleMinus(b: Int2048)
      modifies this
      requires Valid() && b.Valid() && Magnitude() >= b.Magnitude()
      ensures Valid() && positive == old(positive) && |limbs| == old(|limbs|) && size <= old(size)
      ensures Magnitude() == old(Magnitude()) - old(b.Magnitude())
    {
      var bl, bs := b.limbs, b.size;
      var s, n := limbs, size;
      ghost var a, bv := Magnitude(), b.Magnitude();
      LemmaTrimmableValue(s, n);
      LemmaTrimmableValue(bl, bs);
      LemmaNotLonger(s, n, bl, bs);
      var borrow;
      s, borrow := SubtractLimbs(s, bl, bs);
      ghost var r1, b1 := s, borrow;
      s, borrow := PropagateBorrow(s, bs, n, borrow);
      LemmaBorrowChain(limbs, r1, s, bs, n, b1, borrow, a, bv);
      limbs := s;
      Resize();
    }

    /** `_reversed_simple_minus` (int2048.hpp:322-338): |this| := |B| -
        |this|, which requires |B| >= |this|. The vector is resized to B's
        size, Size is reset to it, and `_resize` follows. */
    method ReversedSimpleMinus(b: Int2048)
      modifies this
      requires Valid() && b.Valid() && b.Magnitude() >= Magnitude()
      ensures Valid() && positive == old(positive) && |limbs| == old(b.size) && size <= old(b.size)
      ensures Magnitude() == old(b.Magnitude()) - old(Magnitude())
    {
      var bl, bs := b.limbs, b.size;
      var s, n := limbs, size;
      ghost var a, bv := Magnitude(), b.Magnitude();
      LemmaTrimmableValue(s, n);
      LemmaTrimmableValue(bl, bs);
      LemmaNotLonger(bl, bs, s, n);
      LemmaResizedTrimmable(s, n, bs);
      s := Resized(s, bs);
      LemmaTrimmableValue(s, n);
      var borrow;
      s, borrow := ReverseSubtractLimbs(s, bl, bs);
      assert s[..bs] == s;
      LemmaNoBorrow(s, bs, borrow, bv - a);
      limbs, size := s, bs;
      Resize();
    }

    /** `operator+=` (int2048.hpp:370-383), also `add` (int2048.hpp:348-351):
        equal signs add magnitudes; otherwise the larger magnitude is
        reduced by the smaller and a tie, or a larger B, flips the sign. */
    method AddAssign(b: Int2048)
      modifies this
      requires Valid() && b.Valid()
      ensures Valid() && Model() == Signed.CompressedSum(old(Model()), old(b.Model()))
    {
      if (positive && b.positive) || (!positive && !b.positive) {
        SimpleAdd(b);
      } else {
        var c := AbsCompare(this, b);
        if c == 1 {
          SimpleMinus(b);
        } else {
          ReversedSimpleMinus(b);
          positive := !positive;
        }
      }
    }

    /** `operator-=` (int2048.hpp:390-403), also `minus` (int2048.hpp:358-361):
        as `+=` with the sign test reversed. */
    method SubAssign(b: Int2048)
      modifies this
      requires Valid() && b.Valid()
      ensures Valid() && Model() == Signed.CompressedDifference(old(Model()), old(b.Model()))
    {
      if (!positive && b.positive) || (positive && !b.positive) {
        SimpleAdd(b);
      } else {
        var c := AbsCompare(this, b);
        if c == 1 {
          SimpleMinus(b);
        } else {
          ReversedSimpleMinus(b);
          positive := !positive;
        }
      }
    }

    /** `_single_multiply` (int2048.hpp:789-800): Answer[0..Size] receives
        d·|this|, its top limb being the final carry; the rest of Answer is
        kept. */
    method SingleMultiply(answer: seq<int>, d: int) returns (r: seq<int>)
      requires Valid() && size < |answer| && 0 <= d < Base
      ensures |r| == |answer| && InRange(r[..size + 1], Base)
      ensures forall k :: size < k < |r| ==> r[k] == answer[k]
      ensures Value(r[..size + 1], Base) == d * Magnitude()
    {
      var carry;
      r, carry := ScaleRow(answer, limbs, size, d);
    }

    /** The multiplication that follows the zero test of `operator*=`
        (int2048.hpp:427-455): the vector becomes Size + B.Size limbs of
        the product and Size drops by one when the last carry is zero. The
        result is normalized when neither factor is zero. */
    method MultiplyBy(bl: seq<int>, bs: int)
      modifies this
      requires Valid() && Normalized(bl, bs)
      ensures Shaped() && positive == old(positive)
      ensures Magnitude() == old(Magnitude()) * Value(bl[..bs], Base)
      ensures |limbs| == old(size) + bs && size == |limbs| - (if limbs[|limbs| - 1] == 0 then 1 else 0)
      ensures old(Magnitude()) != 0 && Value(bl[..bs], Base) != 0 ==> Valid()
    {
      var s, n := limbs, size;
      ghost var a, bv := Magnitude(), Value(bl[..bs], Base);
      LemmaTrimmableValue(s, n);
      LemmaTrimmableValue(bl, bs);
      LemmaMagnitudeLower(s, n);
      LemmaMagnitudeLower(bl, bs);
      var carry;
      s, carry := Schoolbook(s, n, bl, bs);
      if carry != 0 {
        n := n + bs;
      } else {
        n := n + bs - 1;
      }
      LemmaProductShape(s, size, bs, a, bv);
      limbs, size := s, n;
    }

    /** `operator*=` as written (int2048.hpp:410-456). B is taken by value.
        The sign is set to the XOR of the signs first; then `B == 0 ||
        (*this) == 0` compares with a positive zero, signs included, so
        positive zero times a negative number misses the test and yields a
        negative zero that may keep a zero top limb. */
    method MulAssign(b: Int2048)
      modifies this
      requires Valid() && b.Valid()
      ensures Shaped()
      ensures Model() == Signed.ProductAsWritten(old(Model()), old(b.Model()))
      ensures old(Magnitude()) != 0 && old(b.Magnitude()) != 0 ==> Valid()
      ensures Signed.ZeroTestAsWritten(old(Model()), old(b.Model())) ==> Valid() && limbs == [0] && size == 1
      ensures !Signed.ZeroTestAsWritten(old(Model()), old(b.Model())) ==>
                |limbs| == old(size) + old(b.size) &&
                size == |limbs| - (if limbs[|limbs| - 1] == 0 then 1 else 0)
    {
      var bc := new Int2048.CopyOf(b);
      if (!positive && bc.positive) || (positive && !bc.positive) {
        positive := false;
      } else {
        positive := true;
      }
      var zero := new Int2048.FromLongLong(0);
      var isZero := Equal(bc, zero);
      if !isZero {
        isZero := Equal(this, zero);
      }
      if isZero {
        SetZero();
        return;
      }
      MultiplyBy(bc.limbs, bc.size);
    }

    /** `operator*=` with the zero test the source intends: a zero factor,
        of either sign, gives the single positive zero limb. */
    method MulAssignZeroSafe(b: Int2048)
      modifies this
      requires Valid() && b.Valid()
      ensures Valid() && Model() == Signed.Product(old(Model()), old(b.Model()))
    {
      var bc := new Int2048.CopyOf(b);
      if (!positive && bc.positive) || (positive && !bc.positive) {
        positive := false;
      } else {
        positive := true;
      }
      var zero := new Int2048.FromLongLong(0);
      var cb := AbsCompare(bc, zero);
      var ca := AbsCompare(this, zero);
      if cb == 0 || ca == 0 {
        SetZero();
        return;
      }
      MultiplyBy(bc.limbs, bc.size);
    }

    /** `operator/=` (int2048.hpp:503-586), B by value and nonzero (the
        source does not check). A dividend with fewer limbs than B gives
        positive zero; otherwise every quotient limb from Size - B.Size
        down to 0 is the largest q with q·|B| not above the remainder
        window, which is then reduced in place, and the quotient keeps the
        XOR sign even when it is zero. */
    method DivAssign(b: Int2048)
      modifies this
      requires Valid() && b.Valid() && b.Magnitude() != 0
      ensures Valid()
      ensures Magnitude() == old(Magnitude()) / old(b.Magnitude())
      ensures positive == (old(size) < old(b.size) || Signed.ProductSign(old(Model()), old(b.Model())))
      ensures positive == Signed.ProductSign(old(Model()), old(b.Model())) || Magnitude() == 0
    {
      ghost var am, bm := Magnitude(), b.Magnitude();
      ghost var sign := Signed.ProductSign(Model(), b.Model());
      var bc := new Int2048.CopyOf(b);
      var a, aSize := limbs, size;
      if (!positive && bc.positive) || (positive && !bc.positive) {
        positive := false;
      } else {
        positive := true;
      }
      assert positive == sign;
      if aSize < bc.size {
        LemmaShortDividend(a, aSize, bc.limbs, bc.size);
        LemmaDivUnique(am, bm, 0, am);
        SetZero();
        return;
      }
      LemmaTrimmableValue(bc.limbs, bc.size);
      var q := DivideLimbs(a, aSize, bc);
      var qSize := aSize - bc.size + 1;
      assert q[..qSize] == q && Value(q, Base) == am / bm;
      limbs, size := q, qSize;
      Resize();
    }
  }

  /** The first branch of `_simple_add` (int2048.hpp:251-275), where this
      has more limbs than B: the vector is resized to n + 1 limbs, B's m
      limbs are added in and the carry is propagated through limb n - 1.
      A final carry writes the limb 1 at index n. */
  method AddIntoLonger(s: seq<int>, n: int, t: seq<int>, m: int) returns (r: seq<int>, carry: bool)
    requires Normalized(s, n) && Normalized(t, m) && m < n
    ensures |r| == n + 1 && (if carry then Normalized(r[n := 1], n + 1) else Normalized(r, n))
    ensures Value(if carry then r[n := 1][..n + 1] else r[..n], Base) == Value(s[..n], Base) + Value(t[..m], Base)
  {
    ghost var a, bv := Value(s[..n], Base), Value(t[..m], Base);
    LemmaTrimmableValue(s, n);
    LemmaTrimmableValue(t, m);
    LemmaMagnitudeLower(s, n);
    LemmaResizedTrimmable(s, n, n + 1);
    r := Resized(s, n + 1);
    LemmaTrimmableValue(r, n);
    ghost var s0 := r;
    r, carry := AddLimbs(r, t, m);
    ghost var r1, c1 := r, carry;
    r, carry := PropagateCarry(r, m, n, carry);
    LemmaCarryChain(s0, r1, r, m, n, c1, carry, a, bv);
    LemmaAddResult(r, n, carry, a + bv);
  }

  /** The second branch of `_simple_add` (int2048.hpp:276-291), where B
      has at least as many limbs: Size becomes B.Size = m, the vector is
      resized to m + 1 limbs and B's m limbs are added in. A final carry
      writes the limb 1 at index m. */
  method AddIntoShorter(s: seq<int>, n: int, t: seq<int>, m: int) returns (r: seq<int>, carry: bool)
    requires Normalized(s, n) && Normalized(t, m) && n <= m
    ensures |r| == m + 1 && (if carry then Normalized(r[m := 1], m + 1) else Normalized(r, m))
    ensures Value(if carry then r[m := 1][..m + 1] else r[..m], Base) == Value(s[..n], Base) + Value(t[..m], Base)
  {
    ghost var a, bv := Value(s[..n], Base), Value(t[..m], Base);
    LemmaTrimmableValue(s, n);
    LemmaTrimmableValue(t, m);
    LemmaMagnitudeLower(t, m);
    LemmaResizedTrimmable(s, n, m + 1);
    r := Resized(s, m + 1);
    LemmaTrimmableValue(r, n);
    r, carry := AddLimbs(r, t, m);
    LemmaAddResult(r, m, carry, a + bv);
  }

  /** The state of long division before the pass for quotient limb i:
      TempA is a normalized remainder of ASize limbs, the quotient limbs
      0 .. i are still zero, |A| = quotient·|B| + remainder, and the part of
      the remainder above limb i is below |B|. */
  ghost predicate DivisionInvariant(n: int, bs: int, bv: int, av: int, tempA: seq<int>, aSize: int,
                                    quotient: seq<int>, temp: seq<int>, i: int)
  {
    1 <= bs && -1 <= i <= n - bs && n <= |tempA| && Normalized(tempA, aSize)
    && |quotient| == n - bs + 1 && InRange(quotient, Base)
    && (forall k :: 0 <= k <= i ==> quotient[k] == 0)
    && |temp| == bs + 1
    && av == Value(quotient, Base) * bv + Value(tempA, Base)
    && Value(tempA[i + 1..], Base) < bv
  }

  /** One pass of the long division loop of `operator/=` (int2048.hpp:527-581):
      quotient limb i receives the largest q with q·|B| not above the
      remainder window from limb i on, the window is reduced by q·|B| and
      ASize is trimmed, which keeps the division invariant one limb down. */
  method DivisionStep(b: Int2048, n: int, tempA: seq<int>, aSize: int, quotient: seq<int>, temp: seq<int>,
                      i: int, ghost av: int)
    returns (tempA': seq<int>, aSize': int, quotient': seq<int>, temp': seq<int>)
    requires b.Valid() && b.Magnitude() > 0 && 0 <= i
    requires DivisionInvariant(n, b.size, b.Magnitude(), av, tempA, aSize, quotient, temp, i)
    ensures DivisionInvariant(n, b.size, b.Magnitude(), av, tempA', aSize', quotient', temp', i - 1)
    ensures quotient'[i] == Value(tempA[i..], Base) / b.Magnitude()
  {
    ghost var bv := b.Magnitude();
    LemmaWindowBound(tempA, i, bv);
    var q, ts;
    q, temp', ts := SearchDigit(b, tempA, i, aSize, temp);
    LemmaDigitFits(b.limbs, b.size, tempA, i, temp', ts, q);
    tempA' := SubtractWindow(tempA, i, temp', ts, aSize);
    quotient' := quotient[i := quotient[i] + q];
    aSize' := TrimTop(tempA', aSize);
    LemmaStepEnd(n, b.size, bv, av, tempA, tempA', aSize, aSize', quotient, quotient', temp, temp', i, q);
  }

  /** The division invariant one limb down, once quotient limb i holds the
      quotient digit q and the window from limb i on was reduced by q·|B|. */
  lemma LemmaStepEnd(n: int, bs: int, bv: int, av: int, tempA: seq<int>, tempA': seq<int>, aSize: int, aSize': int,
                     quotient: seq<int>, quotient': seq<int>, temp: seq<int>, temp': seq<int>, i: int, q: int)
    requires 0 <= i && DivisionInvariant(n, bs, bv, av, tempA, aSize, quotient, temp, i) && |temp'| == |temp|
    requires 0 <= q < Base && 0 <= Value(tempA[i..], Base) - q * bv < bv
    requires |tempA'| == |tempA| && tempA'[..i] == tempA[..i] && Normalized(tempA', aSize')
    requires Value(tempA'[i..], Base) == Value(tempA[i..], Base) - q * bv
    requires quotient' == quotient[i := quotient[i] + q]
    ensures DivisionInvariant(n, bs, bv, av, tempA', aSize', quotient', temp', i - 1)
  {
    LemmaValueUpdate(quotient, i, q, Base);
    LemmaDivStep(tempA, tempA', i, q, bv, Value(quotient, Base), av);
  }

  /** The long division loop of `operator/=` (int2048.hpp:520-582) on a
      copy TempA of the dividend's n limbs: quotient limbs are found from
      n - B.Size down to 0, each the largest q with q·|B| not above the
      remainder window that starts at that limb, which is then reduced by
      q·|B|. The n - B.Size + 1 quotient limbs hold |A| / |B|. */
  method DivideLimbs(a: seq<int>, n: int, b: Int2048) returns (quotient: seq<int>)
    requires Normalized(a, n) && b.Valid() && b.Magnitude() > 0 && b.size <= n
    ensures |quotient| == n - b.size + 1 && InRange(quotient, Base)
    ensures Value(quotient, Base) == Value(a[..n], Base) / b.Magnitude()
  {
    ghost var av, bv := Value(a[..n], Base), b.Magnitude();
    LemmaDivisionStart(a, n, b.limbs, b.size);
    var tempA := a;
    quotient := Zeros(n - b.size + 1);
    var aSize := n;
    var temp := Zeros(b.size + 1);
    var i := n - b.size;
    LemmaValueZeros(quotient, Base);
    while i >= 0
      invariant DivisionInvariant(n, b.size, bv, av, tempA, aSize, quotient, temp, i)
    {
      tempA, aSize, quotient, temp := DivisionStep(b, n, tempA, aSize, quotient, temp, i, av);
      i := i - 1;
    }
    LemmaDivisionEnd(tempA, aSize, av, bv, Value(quotient, Base));
  }

  // -----------------------------------------------------------------------
  // Lemmas for the object methods
  // -----------------------------------------------------------------------

  /** The loop of `int2048(long long)` (int2048.hpp:141-146): the
      magnitude m is cut into radix-10^9 limbs, least significant first,
      the vector being resized to 3 limbs on every round; a `long long`
      never needs more. The limbs written hold m and the top one is not
      zero. */
  method SplitLimbs(m: int, s0: seq<int>) returns (s: seq<int>, i: int)
    requires 0 < m <= LongLongMax && |s0| >= 3 && AllZero(s0)
    ensures |s| == 3 && Normalized(s, i) && Value(s[..i], Base) == m
  {
    var v := m;
    s, i := s0, 0;
    LemmaPowCube();
    while v != 0
      invariant 0 <= i <= 3 && 0 <= v && |s| >= 3 && (i >= 1 ==> |s| == 3)
      invariant InRange(s, Base) && forall k :: i <= k < |s| ==> s[k] == 0
      invariant Value(s[..i], Base) + Pow(Base, i) * v == m
      invariant v * Pow(Base, i) <= LongLongMax
      invariant v == 0 ==> i >= 1 && s[i - 1] != 0
      decreases v
    {
      if i == 3 {
        LemmaMulLe(1, v, Pow(Base, 3));
      }
      ghost var prev := Resized(s, 3);
      s := Resized(s, 3);
      s := s[i := v % Base];
      assert s[..i] == prev[..i];
      LemmaDigitStep(v, Pow(Base, i));
      LemmaValuePrefix(s, i, Base);
      v := v / Base;
      i := i + 1;
    }
  }

  lemma LemmaPowCube()
    ensures Pow(Base, 3) == Base * Base * Base && LongLongMax < Pow(Base, 3)
  {
  }

  /** Peeling the lowest radix-10^9 digit off v at weight p. */
  lemma LemmaDigitStep(v: int, p: int)
    requires 0 <= v && 1 <= p
    ensures p * v == (v % Base) * p + (p * Base) * (v / Base)
    ensures (v / Base) * (p * Base) <= v * p
  {
    var q, r := v / Base, v % Base;
    assert v == q * Base + r;
    LemmaScaleSum(p, r, q, Base);
    LemmaMulLe(q * Base, v, p);
  }

  /** Writing 1 above the n used limbs adds Base^n. */
  lemma LemmaAppendTop(s: seq<int>, n: int)
    requires 0 <= n < |s|
    ensures Value(s[n := 1][..n + 1], Base) == Value(s[..n], Base) + Pow(Base, n)
  {
    var u := s[n := 1][..n + 1];
    assert u[..n] == s[..n];
    assert |u| == n + 1 && u[n] == 1;
    assert Value(u, Base) == Value(u[..n], Base) + u[n] * Pow(Base, n);
  }

  /** A normalized magnitude of n limbs, n > 1, reaches Base^(n-1). */
  lemma LemmaMagnitudeLower(s: seq<int>, n: int)
    requires Normalized(s, n)
    ensures n == 1 || Value(s[..n], Base) >= Pow(Base, n - 1)
  {
    if n > 1 {
      assert InRange(s[..n], Base);
      LemmaValueTop(s[..n], Base);
    }
  }

  /** Resizing a vector to k >= n limbs keeps its n used limbs and pads
      with zeros. */
  lemma LemmaResizedTrimmable(s: seq<int>, n: int, k: int)
    requires Trimmable(s, n) && n <= k
    ensures Trimmable(Resized(s, k), n) && Resized(s, k)[..n] == s[..n]
  {
  }

  /** The two carry loops of `_simple_add` add |B| to the first Size limbs. */
  lemma LemmaCarryChain(s0: seq<int>, r1: seq<int>, r2: seq<int>, bs: int, n: int,
                        c1: bool, c2: bool, a: int, bv: int)
    requires 0 <= bs <= n < |s0| && |r1| == |s0| && |r2| == |s0|
    requires forall k :: bs <= k < |s0| ==> r1[k] == s0[k]
    requires forall k :: 0 <= k < |r1| && !(bs <= k < n) ==> r2[k] == r1[k]
    requires Value(s0[..n], Base) == a
    requires Value(r1[..bs], Base) + Bit(c1) * Pow(Base, bs) == Value(s0[..bs], Base) + bv
    requires Value(r2[..n], Base) + Bit(c2) * Pow(Base, n) == Value(r1[..n], Base) + Bit(c1) * Pow(Base, bs)
    ensures Value(r2[..n], Base) + Bit(c2) * Pow(Base, n) == a + bv && r2[n] == s0[n]
  {
    assert r1[bs..n] == s0[bs..n];
    LemmaValueSharedSpan(r1, s0, bs, n, Base);
  }

  /** The end of `_simple_add`: with no final carry the m limbs hold the
      sum; with one, the limb 1 is written above them. Either way the
      result is normalized when the sum reaches Base^(m-1). */
  lemma LemmaAddResult(s: seq<int>, m: int, carry: bool, v: int)
    requires 1 <= m && |s| == m + 1 && InRange(s, Base) && s[m] == 0
    requires Value(s[..m], Base) + Bit(carry) * Pow(Base, m) == v
    requires m == 1 || v >= Pow(Base, m - 1)
    ensures carry ==> Normalized(s[m := 1], m + 1) && Value(s[m := 1][..m + 1], Base) == v
    ensures !carry ==> Normalized(s, m) && Value(s[..m], Base) == v
  {
    if carry {
      LemmaAppendTop(s, m);
    } else if m > 1 {
      assert InRange(s[..m], Base);
      LemmaTopNonzero(s[..m], Base);
    }
  }

  /** Subtraction that ends with a borrow would be negative: when the
      difference is known to be non-negative there is none. */
  lemma LemmaNoBorrow(s: seq<int>, n: int, borrow: bool, d: int)
    requires 0 <= n <= |s| && InRange(s[..n], Base) && d >= 0
    requires Value(s[..n], Base) - Bit(borrow) * Pow(Base, n) == d
    ensures !borrow && Value(s[..n], Base) == d
  {
    LemmaValueBounds(s[..n], Base);
  }

  /** The two borrow loops of `_simple_minus` subtract |B| from the first
      Size limbs, without a final borrow, and leave zeros above them. */
  lemma LemmaBorrowChain(s0: seq<int>, r1: seq<int>, r2: seq<int>, bs: int, n: int,
                         b1: bool, b2: bool, a: int, bv: int)
    requires 0 <= bs <= n && Trimmable(s0, n) && |r1| == |s0| && |r2| == |s0| && InRange(r2, Base)
    requires forall k :: bs <= k < |s0| ==> r1[k] == s0[k]
    requires forall k :: 0 <= k < |r1| && !(bs <= k < n) ==> r2[k] == r1[k]
    requires Value(s0[..n], Base) == a && a >= bv
    requires Value(r1[..bs], Base) - Bit(b1) * Pow(Base, bs) == Value(s0[..bs], Base) - bv
    requires Value(r2[..n], Base) - Bit(b2) * Pow(Base, n) == Value(r1[..n], Base) - Bit(b1) * Pow(Base, bs)
    ensures Trimmable(r2, n) && Value(r2[..n], Base) == a - bv
  {
    assert r1[bs..n] == s0[bs..n];
    LemmaValueSharedSpan(r1, s0, bs, n, Base);
    assert InRange(r2[..n], Base);
    LemmaNoBorrow(r2, n, b2, a - bv);
  }

  /** The end of `operator*=`: the n0 + bs limbs hold the product, the
      used size drops by one when the top limb is zero, and the result is
      normalized when neither factor is zero. */
  lemma LemmaProductShape(r: seq<int>, n0: int, bs: int, a: int, bv: int)
    requires 1 <= n0 && 1 <= bs && |r| == n0 + bs && InRange(r, Base) && Value(r, Base) == a * bv
    requires 0 <= a && 0 <= bv && (n0 == 1 || a >= Pow(Base, n0 - 1)) && (bs == 1 || bv >= Pow(Base, bs - 1))
    ensures var sz := if r[n0 + bs - 1] != 0 then n0 + bs else n0 + bs - 1;
            Trimmable(r, sz) && Value(r[..sz], Base) == a * bv && (a != 0 && bv != 0 ==> Normalized(r, sz))
  {
    var sz := if r[n0 + bs - 1] != 0 then n0 + bs else n0 + bs - 1;
    if sz < |r| {
      LemmaValuePrefix(r, sz, Base);
      assert r[..sz + 1] == r;
    } else {
      assert r[..sz] == r;
    }
    if a != 0 && bv != 0 && sz > 1 && sz < |r| {
      LemmaProductLower(Base, a, bv, n0, bs);
      assert InRange(r[..sz], Base);
      LemmaTopNonzero(r[..sz], Base);
    }
  }

  /** A normalized vector whose value is at least another's has at least
      as many used limbs. */
  lemma LemmaNotLonger(s: seq<int>, n: int, t: seq<int>, m: int)
    requires Normalized(s, n) && Normalized(t, m) && Value(s[..n], Base) >= Value(t[..m], Base)
    ensures m <= n
  {
    if m > n {
      LemmaTrimmableValue(s, n);
      LemmaTrimmableValue(t, m);
      assert InRange(t[..m], Base) && InRange(s[..n], Base);
      LemmaShorterIsSmaller(s[..n], t[..m], Base);
    }
  }

  /** The window at i is below Base·|B| when the part above it is below |B|. */
  lemma LemmaWindowBound(tempA: seq<int>, i: int, bv: int)
    requires 0 <= i < |tempA| && InRange(tempA, Base) && Value(tempA[i + 1..], Base) < bv
    ensures Value(tempA[i..], Base) < Base * bv
  {
    LemmaValueLowest(tempA[i..], Base);
    assert tempA[i..][1..] == tempA[i + 1..];
    LemmaMulLe(Value(tempA[i + 1..], Base), bv - 1, Base);
  }

  /** The chosen quotient digit fits the window subtraction: its remainder
      is below |B|, Temp[..TempSize] lies inside TempA from limb i on, and
      the window is below Base^(TempSize+1). */
  lemma LemmaDigitFits(b: seq<int>, bs: int, tempA: seq<int>, i: int, temp: seq<int>, ts: int, q: int)
    requires Normalized(b, bs) && Value(b[..bs], Base) > 0
    requires 0 <= i && i + bs <= |tempA| && InRange(tempA, Base)
    requires |temp| == bs + 1 && ts == (if temp[bs] == 0 then bs else bs + 1) && InRange(temp[..ts], Base)
    requires q == Value(tempA[i..], Base) / Value(b[..bs], Base)
    requires Value(temp[..ts], Base) == q * Value(b[..bs], Base)
    requires Value(tempA[i..], Base) < Base * Value(b[..bs], Base)
    ensures 0 <= Value(tempA[i..], Base) - q * Value(b[..bs], Base) < Value(b[..bs], Base)
    ensures 1 <= ts && i + ts <= |tempA| && Value(tempA[i..], Base) < Pow(Base, ts + 1)
  {
    var u := tempA[i..];
    var w, bv := Value(u, Base), Value(b[..bs], Base);
    LemmaTrimmableValue(b, bs);
    assert InRange(u, Base);
    LemmaValueBounds(u, Base);
    LemmaQuotientDigit(w, bv, q);
    var p: int := Pow(Base, bs);
    LemmaMulLt(bv, p, Base);
    assert w < Pow(Base, bs + 1) by {
      assert Pow(Base, bs + 1) == Base * p;
    }
    if ts == bs + 1 {
      LemmaValueTop(temp[..ts], Base);
      assert |u| != bs;
    }
    LemmaPowMono(Base, bs + 1, ts + 1);
  }

  /** A dividend with fewer limbs than a normalized divisor is smaller
      than it, so the quotient is zero. */
  lemma LemmaShortDividend(a: seq<int>, n: int, b: seq<int>, m: int)
    requires Normalized(a, n) && Normalized(b, m) && n < m
    ensures 0 <= Value(a[..n], Base) < Value(b[..m], Base)
  {
    LemmaTrimmableValue(a, n);
    LemmaTrimmableValue(b, m);
    assert InRange(a[..n], Base) && InRange(b[..m], Base);
    LemmaShorterIsSmaller(a[..n], b[..m], Base);
  }

  /** The quotient digit q = w / b leaves a remainder w - q·b in [0, b). */
  lemma LemmaQuotientDigit(w: int, b: int, q: int)
    requires 0 <= w && 0 < b && q == w / b
    ensures 0 <= w - q * b < b
  {
  }

  /** Before the first pass of long division the whole dividend is the
      remainder, and the window above the top quotient limb is below |B|. */
  lemma LemmaDivisionStart(a: seq<int>, n: int, b: seq<int>, bs: int)
    requires Normalized(a, n) && Normalized(b, bs) && Value(b[..bs], Base) > 0 && bs <= n
    ensures Value(a, Base) == Value(a[..n], Base)
    ensures Value(a[n - bs + 1..], Base) < Value(b[..bs], Base)
  {
    LemmaTrimmableValue(a, n);
    assert a[..|a|] == a;
    LemmaNormalizedLower(b, bs);
    LemmaWindowBelow(a, n, n - bs + 1);
  }

  /** After the last pass the remainder is below |B|, so the quotient limbs
      hold |A| / |B|. */
  lemma LemmaDivisionEnd(tempA: seq<int>, aSize: int, av: int, bv: int, vq: int)
    requires 0 < bv && Normalized(tempA, aSize) && Value(tempA[0..], Base) < bv
    requires av == vq * bv + Value(tempA, Base)
    ensures vq == av / bv
  {
    assert tempA[0..] == tempA;
    LemmaValueBounds(tempA, Base);
    LemmaDivUnique(av, bv, vq, Value(tempA, Base));
  }

  /** One step of long division keeps |A| = quotient·|B| + remainder. */
  lemma {:induction false} LemmaDivStep(before: seq<int>, after: seq<int>, i: int, q: int, bv: int, vq: int, a: int)
    requires 0 <= i <= |before| == |after| && after[..i] == before[..i]
    requires Value(after[i..], Base) == Value(before[i..], Base) - q * bv
    requires a == vq * bv + Value(before, Base)
    ensures a == (vq + q * Pow(Base, i)) * bv + Value(after, Base)
  {
    LemmaValueSplit(before, i, Base);
    LemmaValueSplit(after, i, Base);
    LemmaDivStepArith(a, vq, bv, Value(before, Base), Value(after, Base), Value(before[..i], Base),
                      Pow(Base, i), Value(before[i..], Base), Value(after[i..], Base), q);
  }

  // -----------------------------------------------------------------------
  // Division helpers
  // -----------------------------------------------------------------------

  /** `Temp = B._single_multiply(Temp, d)` with the TempSize that follows it
      (int2048.hpp:530-532, 556-558, 564-566): Temp[..TempSize] holds d·|B|
      without a zero top limb when d > 0. */
  method MultiplyDivisor(b: Int2048, temp: seq<int>, d: int) returns (t: seq<int>, ts: int)
    requires b.Valid() && b.Magnitude() > 0 && |temp| == b.size + 1 && 0 <= d < Base
    ensures |t| == |temp| && ts == (if t[b.size] == 0 then b.size else b.size + 1)
    ensures InRange(t[..ts], Base) && Value(t[..ts], Base) == d * b.Magnitude()
    ensures d > 0 ==> t[ts - 1] != 0
  {
    t := b.SingleMultiply(temp, d);
    if t[b.size] == 0 {
      ts := b.size;
      LemmaValuePrefix(t, b.size, Base);
      assert t[..b.size + 1][..b.size] == t[..b.size];
    } else {
      ts := b.size + 1;
    }
    if d > 0 && ts == b.size {
      LemmaNormalizedLower(b.limbs, b.size);
      LemmaMulLe(1, d, b.Magnitude());
      LemmaTopNonzero(t[..ts], Base);
    }
  }

  /** One trial of a quotient limb d > 0 in `operator/=` (int2048.hpp:530-533,
      556-559): Temp[..TempSize] receives d·|B| and AbsCompareLess tells
      whether the remainder window from limb i on is below it. */
  method TryDigit(b: Int2048, tempA: seq<int>, i: int, aSize: int, temp: seq<int>, d: int)
    returns (temp': seq<int>, ts: int, below: bool)
    requires b.Valid() && b.Magnitude() > 0 && |temp| == b.size + 1 && 0 < d < Base
    requires Normalized(tempA, aSize) && 0 <= i <= |tempA|
    ensures |temp'| == |temp| && ts == (if temp'[b.size] == 0 then b.size else b.size + 1)
    ensures InRange(temp'[..ts], Base) && Value(temp'[..ts], Base) == d * b.Magnitude()
    ensures below <==> Value(tempA[i..], Base) < d * b.Magnitude()
  {
    temp', ts := MultiplyDivisor(b, temp, d);
    below := AbsCompareLess(tempA, i, aSize, temp', ts);
    LemmaCompareWindow(tempA, i, aSize, temp', ts, below);
  }

  /** The choice of quotient limb i in `operator/=` (int2048.hpp:527-535,
      554-567): R = 10^9 - 1 is tried first; otherwise a binary search keeps
      L·|B| <= window < R·|B| until R - L == 1. The result is the largest q
      with q·|B| not above the window, and Temp[..TempSize] holds q·|B|. */
  method SearchDigit(b: Int2048, tempA: seq<int>, i: int, aSize: int, temp: seq<int>)
    returns (q: int, temp': seq<int>, ts: int)
    requires b.Valid() && b.Magnitude() > 0
    requires Normalized(tempA, aSize) && 0 <= i <= |tempA| && |temp| == b.size + 1
    requires Value(tempA[i..], Base) < Base * b.Magnitude()
    ensures 0 <= q < Base && q == Value(tempA[i..], Base) / b.Magnitude()
    ensures |temp'| == |temp| && ts == (if temp'[b.size] == 0 then b.size else b.size + 1)
    ensures InRange(temp'[..ts], Base) && Value(temp'[..ts], Base) == q * b.Magnitude()
  {
    ghost var w, bv := Value(tempA[i..], Base), b.Magnitude();
    LemmaWindowBelow(tempA, aSize, i);
    var l, r := 0, Base - 1;
    var less;
    temp', ts, less := TryDigit(b, tempA, i, aSize, temp, r);
    if !less {
      LemmaMulDistrib(r, 1, bv);
      LemmaDivUnique(w, bv, r, w - r * bv);
      q := r;
      return;
    }
    while r - l > 1
      invariant 0 <= l < r <= Base - 1 && l * bv <= w < r * bv
      invariant |temp'| == |temp|
      decreases r - l
    {
      var mid := (l + r) / 2;
      temp', ts, less := TryDigit(b, tempA, i, aSize, temp', mid);
      if !less {
        l := mid;
      } else {
        r := mid;
      }
    }
    temp', ts := MultiplyDivisor(b, temp', l);
    LemmaMulDistrib(l, 1, bv);
    LemmaDivUnique(w, bv, l, w - l * bv);
    q := l;
  }

  // -----------------------------------------------------------------------
  // Comparison
  // -----------------------------------------------------------------------

  /** `AbsCompare` (int2048.hpp:768-781): 1, 0 or -1 as |A| is greater
      than, equal to or less than |B|, decided by Size and then by limbs
      from the most significant down. */
  method AbsCompare(a: Int2048, b: Int2048) returns (r: int)
    requires a.Valid() && b.Valid()
    ensures r == 1 <==> a.Magnitude() > b.Magnitude()
    ensures r == 0 <==> a.Magnitude() == b.Magnitude()
    ensures r == -1 <==> a.Magnitude() < b.Magnitude()
  {
    var x, y := a.limbs[..a.size], b.limbs[..b.size];
    LemmaTrimmableValue(a.limbs, a.size);
    LemmaTrimmableValue(b.limbs, b.size);
    assert a.Magnitude() == Value(x, Base) && b.Magnitude() == Value(y, Base);
    if a.size != b.size {
      if a.size > b.size {
        LemmaShorterIsSmaller(y, x, Base);
        return 1;
      } else {
        LemmaShorterIsSmaller(x, y, Base);
        return -1;
      }
    }
    var i := a.size - 1;
    while i >= 0
      invariant -1 <= i < |x|
      invariant forall k :: i < k < |x| ==> x[k] == y[k]
    {
      if x[i] != y[i] {
        LemmaValueDecides(x, y, i, Base);
        if x[i] > y[i] {
          return 1;
        } else {
          return -1;
        }
      }
      i := i - 1;
    }
    LemmaValueDecides(x, y, i, Base);
    return 0;
  }

  /** `operator==` (int2048.hpp:695-701): same sign and same magnitude. */
  method Equal(a: Int2048, b: Int2048) returns (r: bool)
    requires a.Valid() && b.Valid()
    ensures r == Signed.Equal(a.Model(), b.Model())
  {
    if (a.positive && b.positive) || (!a.positive && !b.positive) {
      var c := AbsCompare(a, b);
      if c == 0 {
        return true;
      }
    }
    return false;
  }

  /** `operator!=` (int2048.hpp:703-706). */
  method NotEqual(a: Int2048, b: Int2048) returns (r: bool)
    requires a.Valid() && b.Valid()
    ensures r == !Signed.Equal(a.Model(), b.Model())
  {
    var e := Equal(a, b);
    return !e;
  }

  /** `operator<` (int2048.hpp:708-719). */
  method Less(a: Int2048, b: Int2048) returns (r: bool)
    requires a.Valid() && b.Valid()
    ensures r == Signed.Less(a.Model(), b.Model())
  {
    if a.positive && !b.positive {
      return false;
    }
    if !a.positive && b.positive {
      return true;
    }
    var c := AbsCompare(a, b);
    if a.positive {
      r := c == -1;
    } else {
      r := c == 1;
    }
  }

  /** `operator>` (int2048.hpp:721-732). */
  method Greater(a: Int2048, b: Int2048) returns (r: bool)
    requires a.Valid() && b.Valid()
    ensures r == Signed.Greater(a.Model(), b.Model())
  {
    if a.positive && !b.positive {
      return true;
    }
    if !a.positive && b.positive {
      return false;
    }
    var c := AbsCompare(a, b);
    if a.positive {
      r := c == 1;
    } else {
      r := c == -1;
    }
  }

  /** `operator<=` (int2048.hpp:734-745). */
  method LessEq(a: Int2048, b: Int2048) returns (r: bool)
    requires a.Valid() && b.Valid()
    ensures r == Signed.LessEq(a.Model(), b.Model())
  {
    if a.positive && !b.positive {
      return false;
    }
    if !a.positive && b.positive {
      return true;
    }
    var c := AbsCompare(a, b);
    if a.positive {
      r := c != 1;
    } else {
      r := c != -1;
    }
  }

  /** `operator>=` (int2048.hpp:747-758). */
  method GreaterEq(a: Int2048, b: Int2048) returns (r: bool)
    requires a.Valid() && b.Valid()
    ensures r == Signed.GreaterEq(a.Model(), b.Model())
  {
    if a.positive && !b.positive {
      return true;
    }
    if !a.positive && b.positive {
      return false;
    }
    var c := AbsCompare(a, b);
    if a.positive {
      r := c != -1;
    } else {
      r := c != 1;
    }
  }

  // -----------------------------------------------------------------------
  // The zero test of operator*=
  // -----------------------------------------------------------------------

  /** 0 *= -1000000000 as written: the result is negative and keeps two
      used limbs, the top one zero, so it is not normalized. */
  method ZeroTimesNegativeBase() returns (positive: bool, size: int, top: int)
    ensures !positive && size == 2 && top == 0
  {
    var x := new Int2048();
    var y := new Int2048.FromLongLong(-1_000_000_000);
    LemmaTwoLimbs(y.limbs, y.size, 1_000_000_000);
    x.MulAssign(y);
    assert x.Model() == Signed.Num(false, 0);
    LemmaTrimmableValue(x.limbs, x.size);
    LemmaValueZeroIsAllZero(x.limbs[..x.size], Base);
    var n := |x.limbs|;
    assert n == 3;
    assert x.limbs[..x.size][x.size - 1] == x.limbs[x.size - 1];
    positive, size, top := x.positive, x.size, x.limbs[x.size - 1];
  }

  /** A normalized value in [Base, Base²) uses exactly two limbs. */
  lemma LemmaTwoLimbs(s: seq<int>, n: int, v: int)
    requires Normalized(s, n) && Value(s[..n], Base) == v && Base <= v < Base * Base
    ensures n == 2
  {
    LemmaTrimmableValue(s, n);
    LemmaNormalizedLower(s, n);
  }
}
