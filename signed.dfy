/** The sign-and-magnitude meaning of an int2048 and the sign rules that the
    source's signed operators apply on top of the magnitude engines. Both
    engines map their state to a Num, so one set of rules serves both. */
module Signed {

  /** IsPositive and |x|. Negative zero (positive == false, magnitude == 0)
      can be represented and is reachable, so it is not excluded here. */
  datatype Num = Num(positive: bool, magnitude: nat)

  function ToInt(a: Num): int
  {
    if a.positive then a.magnitude else -(a.magnitude as int)
  }

  predicate IsNegativeZero(a: Num)
  {
    !a.positive && a.magnitude == 0
  }

  /** Sign of a product or quotient: positive exactly when the signs agree. */
  function ProductSign(a: Num, b: Num): bool
  {
    a.positive == b.positive
  }

  // ---------------------------------------------------------------------
  // Relational operators: the sign decides first; two negatives compare by
  // magnitude in reverse.
  // ---------------------------------------------------------------------

  predicate Less(a: Num, b: Num)
  {
    if a.positive != b.positive then !a.positive
    else if a.positive then a.magnitude < b.magnitude
    else a.magnitude > b.magnitude
  }

  predicate Greater(a: Num, b: Num)
  {
    if a.positive != b.positive then a.positive
    else if a.positive then a.magnitude > b.magnitude
    else a.magnitude < b.magnitude
  }

  predicate LessEq(a: Num, b: Num)
  {
    if a.positive != b.positive then !a.positive
    else if a.positive then a.magnitude <= b.magnitude
    else a.magnitude >= b.magnitude
  }

  predicate GreaterEq(a: Num, b: Num)
  {
    if a.positive != b.positive then a.positive
    else if a.positive then a.magnitude >= b.magnitude
    else a.magnitude <= b.magnitude
  }

  predicate Equal(a: Num, b: Num)
  {
    a.positive == b.positive && a.magnitude == b.magnitude
  }

  /** Where a sits in the order the operators implement: negatives by
      decreasing magnitude, then non-negatives by increasing magnitude.
      Negative zero sits immediately below positive zero. */
  function Rank(a: Num): int
  {
    if a.positive then a.magnitude else -(a.magnitude as int) - 1
  }

  /** The five relational predicates are the order of Rank, and Equal is
      identity; hence they form a strict total order with its companions. */
  lemma LemmaRelationsAreRankOrder(a: Num, b: Num)
    ensures Less(a, b) <==> Rank(a) < Rank(b)
    ensures Greater(a, b) <==> Rank(a) > Rank(b)
    ensures LessEq(a, b) <==> Rank(a) <= Rank(b)
    ensures GreaterEq(a, b) <==> Rank(a) >= Rank(b)
    ensures Equal(a, b) <==> Rank(a) == Rank(b)
    ensures Equal(a, b) <==> a == b
  {
  }

  /** Exactly one of a < b, a == b, a > b holds; <= and >= agree with < and ==. */
  lemma LemmaTrichotomy(a: Num, b: Num)
    ensures Less(a, b) || Equal(a, b) || Greater(a, b)
    ensures !(Less(a, b) && Equal(a, b)) && !(Less(a, b) && Greater(a, b)) && !(Equal(a, b) && Greater(a, b))
    ensures LessEq(a, b) <==> Less(a, b) || Equal(a, b)
    ensures GreaterEq(a, b) <==> Greater(a, b) || Equal(a, b)
    ensures Greater(a, b) <==> Less(b, a)
  {
    LemmaRelationsAreRankOrder(a, b);
    LemmaRelationsAreRankOrder(b, a);
  }

  lemma LemmaLessTransitive(a: Num, b: Num, c: Num)
    requires Less(a, b) && Less(b, c)
    ensures Less(a, c)
  {
    LemmaRelationsAreRankOrder(a, b);
    LemmaRelationsAreRankOrder(b, c);
    LemmaRelationsAreRankOrder(a, c);
  }

  /** Away from negative zero the operators order by integer value. */
  lemma LemmaOrderMatchesIntegers(a: Num, b: Num)
    requires !IsNegativeZero(a) && !IsNegativeZero(b)
    ensures Less(a, b) <==> ToInt(a) < ToInt(b)
    ensures Equal(a, b) <==> ToInt(a) == ToInt(b)
    ensures LessEq(a, b) <==> ToInt(a) <= ToInt(b)
  {
  }

  /** Negative zero compares below positive zero and unequal to it. */
  lemma LemmaNegativeZeroBelowZero()
    ensures Less(Num(false, 0), Num(true, 0)) && !Equal(Num(false, 0), Num(true, 0))
    ensures ToInt(Num(false, 0)) == ToInt(Num(true, 0))
  {
  }

  // ---------------------------------------------------------------------
  // Addition and subtraction: the sign rules of each entry point.
  // ---------------------------------------------------------------------

  /** int2048.hpp `+=`: equal signs add magnitudes; otherwise the larger
      magnitude wins, and a tie takes the flipped sign of the left operand. */
  function CompressedSum(a: Num, b: Num): Num
  {
    if a.positive == b.positive then Num(a.positive, a.magnitude + b.magnitude)
    else if a.magnitude > b.magnitude then Num(a.positive, a.magnitude - b.magnitude)
    else Num(!a.positive, b.magnitude - a.magnitude)
  }

  /** int2048.hpp `-=`: as `+=` with the sign test reversed. */
  function CompressedDifference(a: Num, b: Num): Num
  {
    if a.positive != b.positive then Num(a.positive, a.magnitude + b.magnitude)
    else if a.magnitude > b.magnitude then Num(a.positive, a.magnitude - b.magnitude)
    else Num(!a.positive, b.magnitude - a.magnitude)
  }

  /** int2048_basic.hpp member `add` (and `+=`): a tie of opposite signs
      yields negative zero whichever operand was positive. */
  function BasicSum(a: Num, b: Num): Num
  {
    if a.positive == b.positive then Num(a.positive, a.magnitude + b.magnitude)
    else if a.magnitude > b.magnitude then Num(a.positive, a.magnitude - b.magnitude)
    else if a.magnitude < b.magnitude then Num(b.positive, b.magnitude - a.magnitude)
    else Num(false, 0)
  }

  /** int2048_basic.hpp free `add` (and `+`): a tie yields positive zero. */
  function BasicFreeSum(a: Num, b: Num): Num
  {
    if a.positive == b.positive then Num(a.positive, a.magnitude + b.magnitude)
    else if a.magnitude > b.magnitude then Num(a.positive, a.magnitude - b.magnitude)
    else Num(b.positive || a.magnitude == b.magnitude, b.magnitude - a.magnitude)
  }

  /** int2048_basic.hpp `minus` (member and free, and `-=`, `-`): a tie
      yields positive zero. */
  function BasicDifference(a: Num, b: Num): Num
  {
    if a.positive != b.positive then Num(a.positive, a.magnitude + b.magnitude)
    else if a.magnitude > b.magnitude then Num(a.positive, a.magnitude - b.magnitude)
    else Num(!a.positive || a.magnitude == b.magnitude, b.magnitude - a.magnitude)
  }

  /** Every entry point computes the integer sum or difference. */
  lemma LemmaSumsAreExact(a: Num, b: Num)
    ensures ToInt(CompressedSum(a, b)) == ToInt(a) + ToInt(b)
    ensures ToInt(BasicSum(a, b)) == ToInt(a) + ToInt(b)
    ensures ToInt(BasicFreeSum(a, b)) == ToInt(a) + ToInt(b)
    ensures ToInt(CompressedDifference(a, b)) == ToInt(a) - ToInt(b)
    ensures ToInt(BasicDifference(a, b)) == ToInt(a) - ToInt(b)
  {
  }

  /** Which entry points leave negative zero, for operands that are not
      negative zero themselves: `+=` of x and -x for positive x, `-=` of
      equal positive values, and the basic member `add` of any x and -x
      (x nonzero). The basic free `add` and `minus` never do. */
  lemma LemmaNegativeZeroResults(a: Num, b: Num)
    requires !IsNegativeZero(a) && !IsNegativeZero(b)
    ensures IsNegativeZero(CompressedSum(a, b)) <==> a.positive && !b.positive && a.magnitude == b.magnitude
    ensures IsNegativeZero(CompressedDifference(a, b)) <==> a.positive && b.positive && a.magnitude == b.magnitude
    ensures IsNegativeZero(BasicSum(a, b)) <==> a.positive != b.positive && a.magnitude == b.magnitude
    ensures !IsNegativeZero(BasicFreeSum(a, b)) && !IsNegativeZero(BasicDifference(a, b))
  {
  }

  // ---------------------------------------------------------------------
  // Multiplication and division.
  // ---------------------------------------------------------------------

  /** The zero short-circuit of `*=` as written in both files: `B == 0 ||
      (*this) == 0`, where `==` also compares signs and `*this` already
      carries the product sign. */
  predicate ZeroTestAsWritten(a: Num, b: Num)
  {
    (b.positive && b.magnitude == 0) || (ProductSign(a, b) && a.magnitude == 0)
  }

  /** The result `*=` produces as written. */
  function ProductAsWritten(a: Num, b: Num): Num
  {
    if ZeroTestAsWritten(a, b) then Num(true, 0)
    else Num(ProductSign(a, b), a.magnitude * b.magnitude)
  }

  /** The result intended: positive zero whenever either factor is zero. */
  function Product(a: Num, b: Num): Num
  {
    if a.magnitude == 0 || b.magnitude == 0 then Num(true, 0)
    else Num(ProductSign(a, b), a.magnitude * b.magnitude)
  }

  /** Both compute the integer product; only the intended one never yields
      negative zero. */
  lemma LemmaProducts(a: Num, b: Num)
    ensures ToInt(ProductAsWritten(a, b)) == ToInt(a) * ToInt(b)
    ensures ToInt(Product(a, b)) == ToInt(a) * ToInt(b)
    ensures !IsNegativeZero(Product(a, b))
  {
    var m := a.magnitude * b.magnitude;
    assert ToInt(a) * ToInt(b) == if ProductSign(a, b) then m else -m;
  }

  /** The as-written zero test misses positive zero times a negative number:
      the product comes out as negative zero. */
  lemma LemmaZeroTimesNegative(b: Num)
    requires !b.positive && b.magnitude > 0
    ensures !ZeroTestAsWritten(Num(true, 0), b)
    ensures IsNegativeZero(ProductAsWritten(Num(true, 0), b))
  {
  }

  /** The quotient `/=` produces (sign of the product, floor of the magnitudes)
      is division truncating toward zero: the remainder is smaller than the
      divisor and carries the dividend's sign. A zero quotient may carry
      either sign. */
  lemma LemmaQuotientTruncates(a: Num, b: Num, positive: bool)
    requires b.magnitude > 0
    requires positive == ProductSign(a, b) || a.magnitude / b.magnitude == 0
    ensures var q := ToInt(Num(positive, a.magnitude / b.magnitude));
            var rem := ToInt(a) - q * ToInt(b);
            -(b.magnitude as int) < rem < b.magnitude && (rem == 0 || (rem > 0 <==> ToInt(a) > 0))
  {
    var qm, rm := a.magnitude / b.magnitude, a.magnitude % b.magnitude;
    assert a.magnitude == qm * b.magnitude + rm;
    var q := ToInt(Num(positive, qm));
    if qm == 0 {
      assert q == 0;
    } else if a.positive {
      if b.positive {
        assert q * ToInt(b) == qm * b.magnitude;
      } else {
        assert q * ToInt(b) == (-qm) * (-(b.magnitude as int)) == qm * b.magnitude;
      }
    } else {
      if b.positive {
        assert q * ToInt(b) == (-qm) * b.magnitude == -(qm * b.magnitude);
      } else {
        assert q * ToInt(b) == qm * (-(b.magnitude as int)) == -(qm * b.magnitude);
      }
    }
  }
}
