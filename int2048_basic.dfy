/** The naive engine of int2048_basic.hpp.

    An int2048 holds its magnitude in `std::string BigInt`, one ASCII digit
    per character, least significant first, with Length characters in use,
    and its sign in IsPositive. The digit loops live in module Digits; this
    module holds the object, its constructors, its operators and the free
    functions. As in module Compressed, a parameter passed by reference is
    read through a snapshot of its fields taken on entry, which is what the
    source reads even when it aliases this, and a parameter passed by value
    is a fresh copy. */
module Basic {
  import opened Positional
  import opened Digits
  import Signed

  class Int2048 {
    /** BigInt: the digit characters, least significant first. */
    var digits: seq<char>
    /** IsPositive. Negative zero can occur. */
    var positive: bool
    /** Length: the number of characters in use. */
    var length: int

    /** The characters in use are digits and everything above them is '0'. */
    ghost predicate Shaped()
      reads this
    {
      Trimmable(digits, length)
    }

    /** Shaped, and no leading '0' unless the value is a single digit. */
    ghost predicate Valid()
      reads this
    {
      Normalized(digits, length)
    }

    ghost function Magnitude(): int
      reads this
    {
      Val(digits[..if 0 <= length <= |digits| then length else 0])
    }

    /** The sign and magnitude this denotes. */
    ghost function Model(): Signed.Num
      reads this
      requires Shaped()
    {
      LemmaTrimmableVal(digits, length);
      Signed.Num(positive, Magnitude())
    }

    /** `int2048()` (int2048_basic.hpp:100-103): the string "0" with the
        default Length 1 and IsPositive true. */
    constructor()
      ensures Valid() && Model() == Signed.Num(true, 0) && digits == "0" && length == 1
    {
      digits := "0";
      positive := true;
      length := 1;
      new;
      LemmaValSingle(digits);
    }

    /** `int2048(long long)` (int2048_basic.hpp:105-122): the decimal digits
        of |x| are pushed least significant first and Length counts them.
        The C++ negation of the smallest `long long` overflows, so that
        value is excluded. */
    constructor FromLongLong(x: int)
      requires -LongLongMax <= x <= LongLongMax
      ensures Valid() && Model() == Signed.Num(x >= 0, if x >= 0 then x else -x)
    {
      var s: seq<char> := "0";
      var pos, i := true, 1;
      if x != 0 {
        var v := x;
        if x < 0 {
          pos := false;
          v := -x;
        }
        s, i := PushDigits(v);
        assert s[..i] == s;
      } else {
        LemmaValSingle(s);
      }
      digits := s;
      positive := pos;
      length := i;
    }

    /** `int2048(const std::string&)` (int2048_basic.hpp:124-147). A '-'
        followed by a nonzero digit gives a negative number whose digits
        are copied reversed, without any trim; a '-' followed by '0' gives
        positive zero, whatever digits follow; an unsigned literal is
        copied reversed and its leading zeros trimmed. */
    constructor FromString(s: string)
      requires IsLiteral(s)
      ensures Valid() && Model() == Parsed(s)
    {
      var d: seq<char> := "0";
      var pos, n := true, 1;
      if s[0] == '-' {
        if s[1] != '0' {
          pos := false;
          n := |s| - 1;
          d := ReversedDigits(s, 1);
          assert d[..n] == d;
        } else {
          LemmaValSingle(d);
        }
      } else {
        d := ReversedDigits(s, 0);
        assert d[..|s|] == d && s[0..] == s;
        n := TrimTop(d, |s|);
      }
      digits, positive, length := d, pos, n;
    }

    /** The copy constructor (int2048_basic.hpp:149), used for a parameter
        passed by value. */
    constructor CopyOf(other: Int2048)
      ensures digits == other.digits && positive == other.positive && length == other.length
    {
      digits := other.digits;
      positive := other.positive;
      length := other.length;
    }

    /** `read` (int2048_basic.hpp:153-180): the string constructor applied
        to an existing object, which first clears the string and resets
        every field the chosen branch would otherwise inherit. */
    method Read(s: string)
      modifies this
      requires IsLiteral(s)
      ensures Valid() && Model() == Parsed(s)
    {
      digits := [];
      if s[0] == '-' {
        if s[1] != '0' {
          positive := false;
          length := |s| - 1;
          digits := ReversedDigits(s, 1);
          assert digits[..length] == digits;
        } else {
          digits := "0";
          positive := true;
          length := 1;
          LemmaValSingle(digits);
        }
      } else {
        positive := true;
        length := |s|;
        digits := ReversedDigits(s, 0);
        assert digits[..length] == digits && s[0..] == s;
        length := TrimTop(digits, length);
      }
    }

    /** `print` and `operator<<` (int2048_basic.hpp:182-188, 955-962) with
        the stream replaced by the text they write: "-" when IsPositive is
        false, then the used digits from the most significant down. Read
        back, the text gives this number again, except that negative zero
        comes back as positive zero; it is the canonical literal unless
        this is negative zero. */
    method ToText() returns (text: string)
      requires Valid()
      ensures IsLiteral(text) && Parsed(text) == if Signed.IsNegativeZero(Model()) then Signed.Num(true, 0) else Model()
      ensures Canonical(text) || text == "-0"
    {
      LemmaTrimmableVal(digits, length);
      var body := WrittenDigits(digits, length);
      LemmaTextDigits(body, digits, length);
      text := (if positive then "" else "-") + body;
      LemmaSignedText(positive, body, text, Magnitude());
    }

    /** The zero result of `operator*=` and `operator/=`
        (int2048_basic.hpp:770-775, 864-869): "0", Length 1, positive. */
    method SetZero()
      modifies this
      ensures Valid() && Model() == Signed.Num(true, 0) && digits == "0" && length == 1
    {
      digits := "0";
      length := 1;
      positive := true;
      LemmaValSingle(digits);
    }

    /** The same-sign branch of `add` (int2048_basic.hpp:192-237) and the
        different-sign branch of `minus` (int2048_basic.hpp:330-374):
        |this| := |this| + |B|. The string is resized to one more than the
        longer operand; Length becomes the longer operand's length, plus one
        when a final carry writes '1' on top. */
    method SimpleAdd(b: Int2048)
      modifies this
      requires Valid() && b.Valid()
      ensures Valid() && positive == old(positive)
      ensures Magnitude() == old(Magnitude()) + old(b.Magnitude())
      ensures var m := if old(length) > old(b.length) then old(length) else old(b.length);
              |digits| == m + 1 && (length == m || (length == m + 1 && digits[m] == '1'))
    {
      var bd, bl := b.digits, b.length;
      var s, m, carry;
      if length > bl {
        s, carry := AddIntoLonger(digits, length, bd, bl);
        m := length;
      } else {
        s, carry := AddIntoShorter(digits, length, bd, bl);
        m := bl;
      }
      if carry {
        s := s[m := '1'];
        length := m + 1;
      } else {
        length := m;
      }
      digits := s;
    }

    /** The forward subtraction of `add` and `minus` (for instance
        int2048_basic.hpp:258-279): |this| := |this| - |B|, which requires
        |this| >= |B|; the borrow runs through the used digits and the
        leading zeros are trimmed. */
    method SimpleMinus(b: Int2048)
      modifies this
      requires Valid() && b.Valid() && Magnitude() >= b.Magnitude()
      ensures Valid() && positive == old(positive) && |digits| == old(|digits|) && length <= old(length)
      ensures Magnitude() == old(Magnitude()) - old(b.Magnitude())
    {
      var bd, bl := b.digits, b.length;
      var s, n := digits, length;
      ghost var a, bv := Magnitude(), b.Magnitude();
      LemmaTrimmableVal(s, n);
      LemmaTrimmableVal(bd, bl);
      LemmaNotLonger(s, n, bd, bl);
      var borrow;
      s, borrow := SubtractDigits(s, bd, bl);
      ghost var r1, b1 := s, borrow;
      s, borrow := PropagateBorrow(s, bl, n, borrow);
      LemmaBorrowChain(digits, r1, s, bl, n, b1, borrow, a, bv);
      digits := s;
      length := TrimTop(digits, length);
    }

    /** The reversed subtraction of `add` and `minus` (for instance
        int2048_basic.hpp:241-255): |this| := |B| - |this|, which requires
        |B| >= |this|. The string is resized to B's length, Length is reset
        to it, and the leading zeros are trimmed. */
    method ReversedSimpleMinus(b: Int2048)
      modifies this
      requires Valid() && b.Valid() && b.Magnitude() >= Magnitude()
      ensures Valid() && positive == old(positive) && |digits| == old(b.length) && length <= old(b.length)
      ensures Magnitude() == old(b.Magnitude()) - old(Magnitude())
    {
      var bd, bl := b.digits, b.length;
      var s, n := digits, length;
      ghost var a, bv := Magnitude(), b.Magnitude();
      LemmaTrimmableVal(s, n);
      LemmaTrimmableVal(bd, bl);
      LemmaNotLonger(bd, bl, s, n);
      LemmaResizedTrimmable(s, n, bl);
      s := Resized(s, bl);
      LemmaTrimmableVal(s, n);
      assert s[..bl] == s;
      var borrow;
      s, borrow := ReverseSubtractDigits(s, bd, bl);
      assert s[..bl] == s;
      LemmaNoBorrow(s, bl, borrow, bv - a);
      digits, length := s, bl;
      length := TrimTop(digits, length);
    }

    /** Member `add` (int2048_basic.hpp:190-326), also `operator+=`
        (int2048_basic.hpp:740-743). Equal signs add magnitudes. Otherwise
        the sign is first set to B's, `(*this) < B` compares, and the larger
        magnitude is reduced by the smaller; a tie falls to the branch that
        makes the result negative, whichever operand was negative. */
    method AddAssign(b: Int2048)
      modifies this
      requires Valid() && b.Valid()
      ensures Valid() && Model() == Signed.BasicSum(old(Model()), old(b.Model()))
    {
      if (positive && b.positive) || (!positive && !b.positive) {
        SimpleAdd(b);
        return;
      }
      if b.positive {
        positive := true;
        var less := Less(this, b);
        if less {
          ReversedSimpleMinus(b);
        } else {
          positive := false;
          SimpleMinus(b);
        }
      } else {
        positive := false;
        var less := Less(this, b);
        if less {
          positive := true;
          SimpleMinus(b);
        } else {
          ReversedSimpleMinus(b);
        }
      }
    }

    /** Member `minus` (int2048_basic.hpp:328-462), also `operator-=`
        (int2048_basic.hpp:750-753). Different signs add magnitudes under
        this sign. Otherwise `(*this) >= B` picks the forward subtraction,
        keeping the sign, or the reversed one, flipping it; a tie takes the
        forward branch for positive operands and the reversed branch, made
        positive, for negative ones, so it gives positive zero. */
    method SubAssign(b: Int2048)
      modifies this
      requires Valid() && b.Valid()
      ensures Valid() && Model() == Signed.BasicDifference(old(Model()), old(b.Model()))
    {
      if (!positive && b.positive) || (positive && !b.positive) {
        SimpleAdd(b);
        return;
      }
      var atLeast := GreaterEq(this, b);
      if b.positive {
        if atLeast {
          SimpleMinus(b);
        } else {
          positive := false;
          ReversedSimpleMinus(b);
        }
      } else {
        if atLeast {
          positive := true;
          ReversedSimpleMinus(b);
        } else {
          SimpleMinus(b);
        }
      }
    }

    /** `B == 0 || (*this) == 0` with the test the source intends: the
        magnitude is zero, whatever the sign. */
    method IsZero() returns (r: bool)
      requires Valid()
      ensures r <==> Magnitude() == 0
    {
      LemmaTrimmableVal(digits, length);
      LemmaNormalizedLower(digits, length);
      if length == 1 {
        LemmaValSingle(digits[..1]);
      }
      r := length == 1 && digits[0] == '0';
    }

    /** The multiplication that follows the zero test of `operator*=`
        (int2048_basic.hpp:776-802): the string becomes Length + B.Length
        digits of the product and Length drops by one when the last carry
        is zero. The result is normalized when neither factor is zero. */
    method MultiplyBy(bd: seq<char>, bl: int)
      modifies this
      requires Valid() && Normalized(bd, bl)
      ensures Shaped() && positive == old(positive)
      ensures Magnitude() == old(Magnitude()) * Val(bd[..bl])
      ensures |digits| == old(length) + bl && length == |digits| - (if digits[|digits| - 1] == '0' then 1 else 0)
      ensures old(Magnitude()) != 0 && Val(bd[..bl]) != 0 ==> Valid()
    {
      var s, n0 := digits, length;
      ghost var a, bv := Magnitude(), Val(bd[..bl]);
      LemmaTrimmableVal(s, n0);
      LemmaTrimmableVal(bd, bl);
      LemmaNormalizedLower(s, n0);
      LemmaNormalizedLower(bd, bl);
      var carry;
      s, carry := Schoolbook(s, n0, bd, bl);
      var n;
      if carry != 0 {
        n := n0 + bl;
      } else {
        n := n0 + bl - 1;
      }
      assert n == if s[n0 + bl - 1] != '0' then n0 + bl else n0 + bl - 1;
      LemmaProductShape(s, n0, bl, a, bv);
      digits, length := s, n;
    }

    /** `operator*=` as written (int2048_basic.hpp:760-805). B is taken by
        value. The sign is set to the XOR of the signs first; then `B == 0
        || (*this) == 0` compares with a positive zero, signs included, so
        positive zero times a negative number misses the test and yields a
        negative zero whose Length keeps a '0' top digit. */
    method MulAssign(b: Int2048)
      modifies this
      requires Valid() && b.Valid()
      ensures Shaped()
      ensures Model() == Signed.ProductAsWritten(old(Model()), old(b.Model()))
      ensures old(Magnitude()) != 0 && old(b.Magnitude()) != 0 ==> Valid()
      ensures Signed.ZeroTestAsWritten(old(Model()), old(b.Model())) ==> Valid() && digits == "0" && length == 1
      ensures !Signed.ZeroTestAsWritten(old(Model()), old(b.Model())) ==>
                |digits| == old(length) + old(b.length) &&
                length == |digits| - (if digits[|digits| - 1] == '0' then 1 else 0)
    {
      var bc := new Int2048.CopyOf(b);
      if (!positive && bc.positive) || (positive && !bc.positive) {
        positive := false;
      } else {
        positive := true;
      }
      var zero := new Int2048.FromLongLong(0);
      var isZero := Equal(bc, zero);
      if !isZero {
        isZero := Equal(this, zero);
      }
      if isZero {
        SetZero();
        return;
      }
      MultiplyBy(bc.digits, bc.length);
    }

    /** `operator*=` with the zero test the source intends: a zero factor,
        of either sign, gives positive "0". */
    method MulAssignZeroSafe(b: Int2048)
      modifies this
      requires Valid() && b.Valid()
      ensures Valid() && Model() == Signed.Product(old(Model()), old(b.Model()))
    {
      var bc := new Int2048.CopyOf(b);
      if (!positive && bc.positive) || (positive && !bc.positive) {
        positive := false;
      } else {
        positive := true;
      }
      var zb := bc.IsZero();
      var za := IsZero();
      if zb || za {
        SetZero();
        return;
      }
      MultiplyBy(bc.digits, bc.length);
    }

    /** `operator/=` (int2048_basic.hpp:854-898), B by value and nonzero
        (the source does not check). A dividend shorter than B gives
        positive "0"; otherwise B is subtracted from the remainder window at
        every position from Length - B.Length down to 0 for as long as the
        window is not below B, each subtraction counted in the quotient
        digit there, and the quotient keeps the XOR sign even when it is
        zero. */
    method DivAssign(b: Int2048)
      modifies this
      requires Valid() && b.Valid() && b.Magnitude() != 0
      ensures Valid()
      ensures Magnitude() == old(Magnitude()) / old(b.Magnitude())
      ensures positive == (old(length) < old(b.length) || Signed.ProductSign(old(Model()), old(b.Model())))
      ensures positive == Signed.ProductSign(old(Model()), old(b.Model())) || Magnitude() == 0
    {
      ghost var am, bm := Magnitude(), b.Magnitude();
      ghost var sign := Signed.ProductSign(Model(), b.Model());
      var bc := new Int2048.CopyOf(b);
      var a, aLength := digits, length;
      if (!positive && bc.positive) || (positive && !bc.positive) {
        positive := false;
      } else {
        positive := true;
      }
      assert positive == sign;
      if aLength < bc.length {
        LemmaShortDividend(a, aLength, bc.digits, bc.length);
        LemmaDivUnique(am, bm, 0, am);
        SetZero();
        return;
      }
      var bd, bl := bc.digits, bc.length;
      LemmaTrimmableVal(bd, bl);
      var q := DivideDigits(a, aLength, bd, bl);
      assert q[..aLength - bl + 1] == q;
      var m := TrimTop(q, aLength - bl + 1);
      assert Val(q[..m]) == am / bm;
      digits, length := q, m;
    }
  }

  // -------------------------------------------------------------------------
  // Literals
  // -------------------------------------------------------------------------

  /** What the string constructor and `read` accept: digits, optionally
      after a '-', at least one of them. */
  ghost predicate IsLiteral(s: string)
  {
    |s| >= 1 && if s[0] == '-' then |s| >= 2 && AllDigits(s[1..]) else AllDigits(s)
  }

  /** A literal as `print` writes it: no leading zero unless the number is
      a single digit, and no "-0". */
  ghost predicate Canonical(s: string)
  {
    IsLiteral(s) && var t := if s[0] == '-' then s[1..] else s; (|t| == 1 || t[0] != '0') && s != "-0"
  }

  /** The number the string constructor makes of a literal: the value
      written, except that a '-' followed by '0' reads as positive zero. */
  ghost function Parsed(s: string): Signed.Num
    requires IsLiteral(s)
  {
    if s[0] == '-' then
      LemmaDecimalNatural(s[1..]);
      if s[1] != '0' then Signed.Num(false, DecimalValue(s[1..])) else Signed.Num(true, 0)
    else
      LemmaDecimalNatural(s);
      Signed.Num(true, DecimalValue(s))
  }

  // -------------------------------------------------------------------------
  // Free functions
  // -------------------------------------------------------------------------

  /** Free `add` (int2048_basic.hpp:464-600), also `operator+`
      (int2048_basic.hpp:745-748), A by value. It repeats member `add`
      except that opposite signs compare with `A <= B`, so a tie takes the
      branch that makes the result positive. */
  method Add(a: Int2048, b: Int2048) returns (r: Int2048)
    requires a.Valid() && b.Valid()
    ensures fresh(r) && r.Valid() && r.Model() == Signed.BasicFreeSum(a.Model(), b.Model())
  {
    ghost var am, bm := a.Model(), b.Model();
    r := new Int2048.CopyOf(a);
    assert r != b && r.Model() == am && b.Model() == bm;
    if (r.positive && b.positive) || (!r.positive && !b.positive) {
      r.SimpleAdd(b);
      return;
    }
    if b.positive {
      r.positive := true;
      var atMost := LessEq(r, b);
      if atMost {
        r.ReversedSimpleMinus(b);
        assert r.Model() == Signed.Num(true, bm.magnitude - am.magnitude);
      } else {
        r.positive := false;
        r.SimpleMinus(b);
        assert r.Model() == Signed.Num(false, am.magnitude - bm.magnitude);
      }
    } else {
      r.positive := false;
      var atMost := LessEq(r, b);
      if atMost {
        r.positive := true;
        r.SimpleMinus(b);
        assert r.Model() == Signed.Num(true, am.magnitude - bm.magnitude);
      } else {
        r.ReversedSimpleMinus(b);
        assert r.Model() == Signed.Num(false, bm.magnitude - am.magnitude);
      }
    }
  }

  /** Free `minus` (int2048_basic.hpp:602-736), also `operator-`
      (int2048_basic.hpp:755-758), A by value: the same steps as member
      `minus` on the copy. */
  method Minus(a: Int2048, b: Int2048) returns (r: Int2048)
    requires a.Valid() && b.Valid()
    ensures fresh(r) && r.Valid() && r.Model() == Signed.BasicDifference(a.Model(), b.Model())
  {
    r := new Int2048.CopyOf(a);
    r.SubAssign(b);
  }

  /** `operator*` (int2048_basic.hpp:807-852), A by value: the steps of
      `operator*=` on the copy, zero test included. */
  method Times(a: Int2048, b: Int2048) returns (r: Int2048)
    requires a.Valid() && b.Valid()
    ensures fresh(r) && r.Shaped() && r.Model() == Signed.ProductAsWritten(a.Model(), b.Model())
    ensures a.Magnitude() != 0 && b.Magnitude() != 0 ==> r.Valid()
    ensures Signed.ZeroTestAsWritten(a.Model(), b.Model()) ==> r.Valid() && r.digits == "0" && r.length == 1
  {
    r := new Int2048.CopyOf(a);
    r.MulAssign(b);
  }

  /** `operator/` (int2048_basic.hpp:900-945), A by value: the steps of
      `operator/=` on the copy. */
  method Divide(a: Int2048, b: Int2048) returns (r: Int2048)
    requires a.Valid() && b.Valid() && b.Magnitude() != 0
    ensures fresh(r) && r.Valid() && r.Magnitude() == a.Magnitude() / b.Magnitude()
    ensures r.positive == (a.length < b.length || Signed.ProductSign(a.Model(), b.Model()))
    ensures r.positive == Signed.ProductSign(a.Model(), b.Model()) || r.Magnitude() == 0
  {
    r := new Int2048.CopyOf(a);
    r.DivAssign(b);
  }

  // -------------------------------------------------------------------------
  // Construction helpers
  // -------------------------------------------------------------------------

  /** The loop of `int2048(long long)` (int2048_basic.hpp:113-117): the
      decimal digits of m are pushed least significant first. They denote
      m and the last one pushed is not '0'. */
  method PushDigits(m: int) returns (s: seq<char>, i: int)
    requires 0 < m
    ensures |s| == i && Normalized(s, i) && Val(s) == m
  {
    var v := m;
    s, i := [], 0;
    while v != 0
      invariant 0 <= v && |s| == i && AllDigits(s)
      invariant Val(s) + Pow(10, i) * v == m
      invariant v == 0 ==> i >= 1 && s[i - 1] != '0'
      decreases v
    {
      var prev := s;
      s := s + [(v % 10 + 48) as char];
      assert s[..i] == prev;
      LemmaDecimalStep(v, Pow(10, i));
      v := v / 10;
      i := i + 1;
    }
    assert s[..i] == s;
  }

  // -------------------------------------------------------------------------
  // Addition and subtraction helpers
  // -------------------------------------------------------------------------

  /** The first branch of the same-sign addition (int2048_basic.hpp:193-215),
      where this has more digits than B: the string is resized to n + 1
      characters, B's m digits are added in and the carry is propagated
      through digit n - 1. A final carry writes '1' at index n. */
  method AddIntoLonger(s: seq<char>, n: int, t: seq<char>, m: int) returns (r: seq<char>, carry: bool)
    requires Normalized(s, n) && Normalized(t, m) && m < n
    ensures |r| == n + 1 && (if carry then Normalized(r[n := '1'], n + 1) else Normalized(r, n))
    ensures Val(if carry then r[n := '1'][..n + 1] else r[..n]) == Val(s[..n]) + Val(t[..m])
  {
    ghost var a, bv := Val(s[..n]), Val(t[..m]);
    LemmaTrimmableVal(s, n);
    LemmaTrimmableVal(t, m);
    LemmaNormalizedLower(s, n);
    LemmaResizedTrimmable(s, n, n + 1);
    r := Resized(s, n + 1);
    ghost var s0 := r;
    r, carry := AddDigits(r, t, m);
    ghost var r1, c1 := r, carry;
    r, carry := PropagateCarry(r, m, n, carry);
    LemmaCarryChain(s0, r1, r, m, n, c1, carry, a, bv);
    LemmaAddResult(r, n, carry, a + bv);
  }

  /** The second branch of the same-sign addition
      (int2048_basic.hpp:216-236), where B has at least as many digits:
      Length becomes B.Length = m, the string is resized to m + 1
      characters and B's m digits are added in. A final carry writes '1'
      at index m. */
  method AddIntoShorter(s: seq<char>, n: int, t: seq<char>, m: int) returns (r: seq<char>, carry: bool)
    requires Normalized(s, n) && Normalized(t, m) && n <= m
    ensures |r| == m + 1 && (if carry then Normalized(r[m := '1'], m + 1) else Normalized(r, m))
    ensures Val(if carry then r[m := '1'][..m + 1] else r[..m]) == Val(s[..n]) + Val(t[..m])
  {
    ghost var a, bv := Val(s[..n]), Val(t[..m]);
    LemmaTrimmableVal(s, n);
    LemmaTrimmableVal(t, m);
    LemmaNormalizedLower(t, m);
    LemmaResizedTrimmable(s, n, m + 1);
    r := Resized(s, m + 1);
    LemmaTrimmableVal(r, n);
    LemmaValZerosAbove(r, n, m);
    r, carry := AddDigits(r, t, m);
    LemmaAddResult(r, m, carry, a + bv);
  }

  // -------------------------------------------------------------------------
  // Lemmas for the object methods
  // -------------------------------------------------------------------------

  /** Peeling the lowest decimal digit off v at weight p. */
  lemma LemmaDecimalStep(v: int, p: int)
    requires 0 <= v && 1 <= p
    ensures p * v == (v % 10) * p + (p * 10) * (v / 10)
  {
    var q, r := v / 10, v % 10;
    assert v == q * 10 + r;
    LemmaScaleSum(p, r, q, 10);
  }

  /** The digits `print` writes for a normalized string: the used ones
      reversed, with no leading '0' unless there is only one, which then
      stands for zero. */
  lemma {:induction false} LemmaTextDigits(body: seq<char>, s: seq<char>, n: int)
    requires Normalized(s, n) && |body| == n
    requires forall k :: 0 <= k < n ==> body[k] == s[n - 1 - k]
    ensures AllDigits(body) && (n == 1 || body[0] != '0') && (body[0] == '0' <==> Val(s[..n]) == 0)
  {
    LemmaTrimmableVal(s, n);
    assert body[0] == s[n - 1] == s[..n][n - 1];
    if n == 1 {
      LemmaValSingle(s[..1]);
    } else {
      LemmaValTop(s[..n]);
    }
    if body[0] != '0' {
      LemmaValAtLeastDigit(s[..n], n - 1);
      LemmaMulLe(1, Dig(s[n - 1]), Pow(10, n - 1));
    }
  }

  /** The text of `print`: a sign for a negative number and then the
      digits, which read back as the number except for negative zero. */
  lemma {:induction false} LemmaSignedText(positive: bool, body: seq<char>, text: string, v: nat)
    requires AllDigits(body) && |body| >= 1 && (|body| == 1 || body[0] != '0') && (body[0] == '0' <==> v == 0)
    requires DecimalValue(body) == v && text == (if positive then "" else "-") + body
    ensures IsLiteral(text) && Parsed(text) == if !positive && v == 0 then Signed.Num(true, 0) else Signed.Num(positive, v)
    ensures Canonical(text) || text == "-0"
  {
    if positive {
      assert text == body;
    } else {
      assert text[1..] == body && text[0] == '-' && text[1] == body[0];
      if body[0] == '0' {
        assert body == "0" && text == "-0";
      } else {
        assert text != "-0";
      }
    }
  }

  /** Resizing a string to k >= n characters keeps its n used digits and
      pads with '0'. */
  lemma LemmaResizedTrimmable(s: seq<char>, n: int, k: int)
    requires Trimmable(s, n) && n <= k
    ensures Trimmable(Resized(s, k), n) && Resized(s, k)[..n] == s[..n]
  {
  }

  /** A string trimmable at n has the same value read to any m >= n. */
  lemma {:induction false} LemmaValZerosAbove(s: seq<char>, n: int, m: int)
    requires Trimmable(s, n) && n <= m <= |s|
    ensures Val(s[..m]) == Val(s[..n])
  {
    LemmaTrimmableVal(s, n);
    assert Trimmable(s[..m], n);
    LemmaTrimmableVal(s[..m], n);
    assert s[..m][..n] == s[..n];
  }

  /** The two carry loops of the same-sign addition add |B| to the first
      Length digits. */
  lemma {:induction false} LemmaCarryChain(s0: seq<char>, r1: seq<char>, r2: seq<char>, bl: int, n: int,
                                           c1: bool, c2: bool, a: int, bv: int)
    requires 0 <= bl <= n < |s0| && |r1| == |s0| && |r2| == |s0|
    requires forall k :: bl <= k < |s0| ==> r1[k] == s0[k]
    requires forall k :: 0 <= k < |r1| && !(bl <= k < n) ==> r2[k] == r1[k]
    requires Val(s0[..n]) == a
    requires Val(r1[..bl]) + Bit(c1) * Pow(10, bl) == Val(s0[..bl]) + bv
    requires Val(r2[..n]) + Bit(c2) * Pow(10, n) == Val(r1[..n]) + Bit(c1) * Pow(10, bl)
    ensures Val(r2[..n]) + Bit(c2) * Pow(10, n) == a + bv && r2[n] == s0[n]
  {
    assert r1[bl..n] == s0[bl..n];
    LemmaValSharedSpan(r1, s0, bl, n);
  }

  /** Writing '1' above the n used digits adds 10^n. */
  lemma {:induction false} LemmaAppendOne(s: seq<char>, n: int)
    requires 0 <= n < |s|
    ensures Val(s[n := '1'][..n + 1]) == Val(s[..n]) + Pow(10, n)
  {
    var u := s[n := '1'];
    LemmaValPrefix(u, n);
    assert u[..n] == s[..n];
  }

  /** The end of the same-sign addition: with no final carry the m digits
      hold the sum; with one, '1' is written above them. Either way the
      result is normalized when the sum reaches 10^(m-1). */
  lemma {:induction false} LemmaAddResult(s: seq<char>, m: int, carry: bool, v: int)
    requires 1 <= m && |s| == m + 1 && AllDigits(s) && s[m] == '0'
    requires Val(s[..m]) + Bit(carry) * Pow(10, m) == v
    requires m == 1 || v >= Pow(10, m - 1)
    ensures carry ==> Normalized(s[m := '1'], m + 1) && Val(s[m := '1'][..m + 1]) == v
    ensures !carry ==> Normalized(s, m) && Val(s[..m]) == v
  {
    if carry {
      LemmaAppendOne(s, m);
    } else if m > 1 {
      LemmaValTopNonzero(s[..m]);
    }
  }

  /** Subtraction that ends with a borrow would be negative: when the
      difference is known to be non-negative there is none. */
  lemma {:induction false} LemmaNoBorrow(s: seq<char>, n: int, borrow: bool, d: int)
    requires 0 <= n <= |s| && AllDigits(s[..n]) && d >= 0
    requires Val(s[..n]) - Bit(borrow) * Pow(10, n) == d
    ensures !borrow && Val(s[..n]) == d
  {
    LemmaValBounds(s[..n]);
  }

  /** The two borrow loops of the forward subtraction subtract |B| from
      the first Length digits, without a final borrow, and leave '0' above
      them. */
  lemma {:induction false} LemmaBorrowChain(s0: seq<char>, r1: seq<char>, r2: seq<char>, bl: int, n: int,
                                            b1: bool, b2: bool, a: int, bv: int)
    requires 0 <= bl <= n && Trimmable(s0, n) && |r1| == |s0| && |r2| == |s0| && AllDigits(r2)
    requires forall k :: bl <= k < |s0| ==> r1[k] == s0[k]
    requires forall k :: 0 <= k < |r1| && !(bl <= k < n) ==> r2[k] == r1[k]
    requires Val(s0[..n]) == a && a >= bv
    requires Val(r1[..bl]) - Bit(b1) * Pow(10, bl) == Val(s0[..bl]) - bv
    requires Val(r2[..n]) - Bit(b2) * Pow(10, n) == Val(r1[..n]) - Bit(b1) * Pow(10, bl)
    ensures Trimmable(r2, n) && Val(r2[..n]) == a - bv
  {
    assert r1[bl..n] == s0[bl..n];
    LemmaValSharedSpan(r1, s0, bl, n);
    LemmaNoBorrow(r2, n, b2, a - bv);
  }

  /** A normalized string whose value is at least another's has at least
      as many used digits. */
  lemma {:induction false} LemmaNotLonger(s: seq<char>, n: int, t: seq<char>, m: int)
    requires Normalized(s, n) && Normalized(t, m) && Val(s[..n]) >= Val(t[..m])
    ensures m <= n
  {
    if m > n {
      LemmaShorterSmaller(s, n, t, m);
    }
  }

  /** Normalized strings of different lengths: the shorter is smaller. */
  lemma {:induction false} LemmaLengthDecides(s: seq<char>, n: int, t: seq<char>, m: int)
    requires Normalized(s, n) && Normalized(t, m) && n != m
    ensures (n < m <==> Val(s[..n]) < Val(t[..m])) && Val(s[..n]) != Val(t[..m])
  {
    if n < m {
      LemmaShorterSmaller(s, n, t, m);
    } else {
      LemmaShorterSmaller(t, m, s, n);
    }
  }

  /** The end of `operator*=`: the n0 + bl digits hold the product, the
      used length drops by one when the top digit is '0', and the result
      is normalized when neither factor is zero. */
  lemma {:induction false} LemmaProductShape(r: seq<char>, n0: int, bl: int, a: int, bv: int)
    requires 1 <= n0 && 1 <= bl && |r| == n0 + bl && AllDigits(r) && Val(r) == a * bv
    requires 0 <= a && 0 <= bv && (n0 == 1 || a >= Pow(10, n0 - 1)) && (bl == 1 || bv >= Pow(10, bl - 1))
    ensures var sz := if r[n0 + bl - 1] != '0' then n0 + bl else n0 + bl - 1;
            Trimmable(r, sz) && Val(r[..sz]) == a * bv && (a != 0 && bv != 0 ==> Normalized(r, sz))
  {
    var sz := if r[n0 + bl - 1] != '0' then n0 + bl else n0 + bl - 1;
    if sz < |r| {
      LemmaValPrefix(r, sz);
      assert r[..sz + 1] == r;
    } else {
      assert r[..sz] == r;
    }
    if a != 0 && bv != 0 && sz > 1 && sz < |r| {
      LemmaProductLower(10, a, bv, n0, bl);
      LemmaValTopNonzero(r[..sz]);
    }
  }

  /** A dividend with fewer digits than a normalized divisor is smaller
      than it, so the quotient is zero. */
  lemma {:induction false} LemmaShortDividend(a: seq<char>, n: int, b: seq<char>, m: int)
    requires Normalized(a, n) && Normalized(b, m) && n < m
    ensures 0 <= Val(a[..n]) < Val(b[..m])
  {
    LemmaShorterSmaller(a, n, b, m);
  }

  // -------------------------------------------------------------------------
  // Division
  // -------------------------------------------------------------------------

  /** The state of the division loop of `operator/=` before the pass for
      quotient digit i: the dividend's string rem is a normalized remainder
      of remLen digits, the quotient digits 0 .. i (TempA in the source)
      are still '0', |A| = quotient·|B| + remainder, and the part of the
      remainder above digit i is below |B|. */
  ghost predicate DivisionInvariant(n: int, bl: int, bv: int, av: int, rem: seq<char>, remLen: int,
                                    quotient: seq<char>, i: int)
  {
    1 <= bl && -1 <= i <= n - bl && n <= |rem| && Normalized(rem, remLen)
    && |quotient| == n - bl + 1 && AllDigits(quotient)
    && (forall k :: 0 <= k <= i ==> quotient[k] == '0')
    && av == Val(quotient) * bv + Val(rem)
    && Val(rem[i + 1..]) < bv
  }

  /** The state of the subtraction loop at position i: quotient digit i
      counts the subtractions so far, the window from i on together with
      them still makes up the window w0 the pass started from, and w0 is
      below 10·|B|. */
  ghost predicate SubtractionInvariant(n: int, bl: int, bv: int, av: int, rem: seq<char>, remLen: int,
                                       quotient: seq<char>, i: int, w0: int)
  {
    1 <= bl && 0 <= i <= n - bl && n <= |rem| && Normalized(rem, remLen)
    && |quotient| == n - bl + 1 && AllDigits(quotient)
    && (forall k :: 0 <= k < i ==> quotient[k] == '0')
    && av == Val(quotient) * bv + Val(rem)
    && Dig(quotient[i]) * bv + Val(rem[i..]) == w0 && w0 < 10 * bv
  }

  /** One round of the inner loop of `operator/=` (int2048_basic.hpp:874-890),
      entered because the window from i on is not below B: B is subtracted
      from the window, `TempA[i] += 1` counts it and the remainder is
      trimmed. */
  method SubtractOnce(b: seq<char>, bl: int, n: int, rem: seq<char>, remLen: int, quotient: seq<char>,
                      i: int, ghost av: int, ghost w0: int)
    returns (rem': seq<char>, remLen': int, quotient': seq<char>)
    requires Normalized(b, bl) && Val(b[..bl]) > 0
    requires SubtractionInvariant(n, bl, Val(b[..bl]), av, rem, remLen, quotient, i, w0)
    requires Val(b[..bl]) <= Val(rem[i..])
    ensures SubtractionInvariant(n, bl, Val(b[..bl]), av, rem', remLen', quotient', i, w0)
    ensures Val(rem'[i..]) == Val(rem[i..]) - Val(b[..bl])
  {
    ghost var bv, d := Val(b[..bl]), Dig(quotient[i]);
    LemmaTrimmableVal(b, bl);
    LemmaWindowFits(d, bv, Val(rem[i..]), w0, bl);
    rem' := SubtractWindow(rem, i, b, bl, remLen);
    quotient' := quotient[i := (quotient[i] as int + 1) as char];
    remLen' := TrimTop(rem', remLen);
    LemmaSubtractEnd(n, bl, bv, av, rem, rem', remLen, remLen', quotient, quotient', i, w0);
  }

  /** The subtraction invariant after B was taken once more from the
      window from digit i on and quotient digit i was incremented. */
  lemma LemmaSubtractEnd(n: int, bl: int, bv: int, av: int, rem: seq<char>, rem': seq<char>,
                         remLen: int, remLen': int, quotient: seq<char>, quotient': seq<char>, i: int, w0: int)
    requires 0 < bv && SubtractionInvariant(n, bl, bv, av, rem, remLen, quotient, i, w0)
    requires Dig(quotient[i]) + 1 < 10 && quotient' == quotient[i := (quotient[i] as int + 1) as char]
    requires |rem'| == |rem| && rem'[..i] == rem[..i] && Normalized(rem', remLen')
    requires Val(rem'[i..]) == Val(rem[i..]) - bv
    ensures SubtractionInvariant(n, bl, bv, av, rem', remLen', quotient', i, w0)
  {
    var d := Dig(quotient[i]);
    assert Dig(quotient'[i]) == d + 1;
    LemmaValUpdate(quotient, i, quotient'[i]);
    LemmaDivStep(rem, rem', i, 1, bv, Val(quotient), av);
    LemmaMulDistrib(d, 1, bv);
  }

  /** One pass of the outer loop of `operator/=` (int2048_basic.hpp:872-891):
      B is subtracted from the window from digit i on until the window is
      below B, so quotient digit i ends as the window divided by |B| and
      the division invariant holds one digit down. */
  method DivisionPass(b: seq<char>, bl: int, n: int, rem: seq<char>, remLen: int, quotient: seq<char>,
                      i: int, ghost av: int)
    returns (rem': seq<char>, remLen': int, quotient': seq<char>)
    requires Normalized(b, bl) && Val(b[..bl]) > 0 && 0 <= i
    requires DivisionInvariant(n, bl, Val(b[..bl]), av, rem, remLen, quotient, i)
    ensures DivisionInvariant(n, bl, Val(b[..bl]), av, rem', remLen', quotient', i - 1)
    ensures Dig(quotient'[i]) == Val(rem[i..]) / Val(b[..bl])
  {
    ghost var bv := Val(b[..bl]);
    ghost var w0 := Val(rem[i..]);
    LemmaPassStart(n, bl, bv, av, rem, remLen, quotient, i);
    rem', remLen', quotient' := rem, remLen, quotient;
    var less := WindowLess(rem', i, remLen', b, bl);
    while !less
      invariant SubtractionInvariant(n, bl, bv, av, rem', remLen', quotient', i, w0)
      invariant less <==> Val(rem'[i..]) < bv
      decreases Val(rem'[i..])
    {
      rem', remLen', quotient' := SubtractOnce(b, bl, n, rem', remLen', quotient', i, av, w0);
      less := WindowLess(rem', i, remLen', b, bl);
    }
    LemmaPassEnd(n, bl, bv, av, rem', remLen', quotient', i, w0);
  }

  /** The test `AbsCompareLess(TempB, i, TempB.Length, B, B.Length)` of the
      inner loop of `operator/=`: whether the window from digit i on is
      below |B|. */
  method WindowLess(rem: seq<char>, i: int, remLen: int, b: seq<char>, bl: int) returns (less: bool)
    requires Normalized(rem, remLen) && 0 <= i <= |rem|
    requires Normalized(b, bl) && Val(b[..bl]) > 0
    ensures less <==> Val(rem[i..]) < Val(b[..bl])
  {
    less := AbsCompareLess(rem, i, remLen, b, bl);
    LemmaCompareWindow(rem, i, remLen, b, bl, less);
  }

  /** A pass starts with no subtraction counted: the window w0 from digit
      i on is below 10·|B| because the part above it is below |B|. */
  lemma {:induction false} LemmaPassStart(n: int, bl: int, bv: int, av: int, rem: seq<char>, remLen: int,
                                          quotient: seq<char>, i: int)
    requires 0 <= i && DivisionInvariant(n, bl, bv, av, rem, remLen, quotient, i)
    ensures SubtractionInvariant(n, bl, bv, av, rem, remLen, quotient, i, Val(rem[i..]))
  {
    LemmaWindowBound(rem, i, bv);
    assert Dig(quotient[i]) == 0;
  }

  /** A pass ends when the window is below |B|: quotient digit i is then
      the window w0 divided by |B|, and the division invariant holds for
      the digit below. */
  lemma {:induction false} LemmaPassEnd(n: int, bl: int, bv: int, av: int, rem: seq<char>, remLen: int,
                                        quotient: seq<char>, i: int, w0: int)
    requires 0 < bv && SubtractionInvariant(n, bl, bv, av, rem, remLen, quotient, i, w0)
    requires Val(rem[i..]) < bv
    ensures DivisionInvariant(n, bl, bv, av, rem, remLen, quotient, i - 1)
    ensures Dig(quotient[i]) == w0 / bv
  {
    LemmaWindowBelow(rem, remLen, i);
    LemmaDivUnique(w0, bv, Dig(quotient[i]), Val(rem[i..]));
  }

  /** The long division of `operator/=` (int2048_basic.hpp:870-891) on the
      dividend's n digits: quotient digits are found from n - B.Length
      down to 0 by repeated subtraction of B from the remainder window
      that starts there. The n - B.Length + 1 quotient digits hold
      |A| / |B|. */
  method DivideDigits(a: seq<char>, n: int, b: seq<char>, bl: int) returns (quotient: seq<char>)
    requires Normalized(a, n) && Normalized(b, bl) && Val(b[..bl]) > 0 && bl <= n
    ensures |quotient| == n - bl + 1 && AllDigits(quotient)
    ensures Val(quotient) == Val(a[..n]) / Val(b[..bl])
  {
    ghost var av, bv := Val(a[..n]), Val(b[..bl]);
    quotient := Resized([], n - bl + 1);
    var rem, remLen := a, n;
    var i := n - bl;
    LemmaDivisionStart(a, n, b, bl, quotient);
    while i >= 0
      invariant DivisionInvariant(n, bl, bv, av, rem, remLen, quotient, i)
    {
      rem, remLen, quotient := DivisionPass(b, bl, n, rem, remLen, quotient, i, av);
      i := i - 1;
    }
    LemmaDivisionEnd(n, bl, bv, av, rem, remLen, quotient);
  }

  /** The window at i is below 10·|B| when the part above it is below |B|. */
  lemma {:induction false} LemmaWindowBound(rem: seq<char>, i: int, bv: int)
    requires 0 <= i < |rem| && AllDigits(rem) && Val(rem[i + 1..]) < bv
    ensures Val(rem[i..]) < 10 * bv
  {
    LemmaValLowestDigit(rem, i, |rem|);
    assert rem[i..|rem|] == rem[i..] && rem[i + 1..|rem|] == rem[i + 1..];
  }

  /** A window not below |B| inside a pass: one more subtraction leaves
      the quotient digit a digit, and the window is below 10^(B.Length+1)
      as the window subtraction needs. */
  lemma {:induction false} LemmaWindowFits(d: int, bv: int, w: int, w0: int, bl: int)
    requires 0 <= d && 0 < bv <= w && d * bv + w == w0 && w0 < 10 * bv && 0 <= bl && bv < Pow(10, bl)
    ensures d + 1 < 10 && w < Pow(10, bl + 1)
  {
    LemmaMulLe(0, d, bv);
    if d + 1 >= 10 {
      LemmaMulLe(10, d + 1, bv);
    }
    LemmaMulLt(bv, Pow(10, bl), 10);
  }

  /** Before the first pass of the division the whole dividend is the
      remainder, every quotient digit is '0', and the window above the top
      quotient digit is below |B|. */
  lemma {:induction false} LemmaDivisionStart(a: seq<char>, n: int, b: seq<char>, bl: int, quotient: seq<char>)
    requires Normalized(a, n) && Normalized(b, bl) && Val(b[..bl]) > 0 && bl <= n
    requires |quotient| == n - bl + 1 && forall k :: 0 <= k < |quotient| ==> quotient[k] == '0'
    ensures DivisionInvariant(n, bl, Val(b[..bl]), Val(a[..n]), a, n, quotient, n - bl)
  {
    LemmaTrimmableVal(a, n);
    LemmaNormalizedLower(b, bl);
    LemmaWindowBelow(a, n, n - bl + 1);
    LemmaValZeros(quotient);
  }

  /** After the last pass the remainder is below |B|, so the quotient
      digits hold |A| / |B|. */
  lemma {:induction false} LemmaDivisionEnd(n: int, bl: int, bv: int, av: int, rem: seq<char>, remLen: int,
                                            quotient: seq<char>)
    requires 0 < bv && DivisionInvariant(n, bl, bv, av, rem, remLen, quotient, -1)
    ensures Val(quotient) == av / bv
  {
    assert rem[0..] == rem;
    LemmaTrimmableVal(rem, remLen);
    LemmaDivUnique(av, bv, Val(quotient), Val(rem));
  }

  /** One subtraction of q·|B| at digit i keeps |A| = quotient·|B| +
      remainder once q·10^i is added to the quotient. */
  lemma {:induction false} LemmaDivStep(before: seq<char>, after: seq<char>, i: int, q: int, bv: int, vq: int, a: int)
    requires 0 <= i <= |before| == |after| && after[..i] == before[..i]
    requires Val(after[i..]) == Val(before[i..]) - q * bv
    requires a == vq * bv + Val(before)
    ensures a == (vq + q * Pow(10, i)) * bv + Val(after)
  {
    LemmaValSplit(before, i);
    LemmaValSplit(after, i);
    LemmaDivStepArith(a, vq, bv, Val(before), Val(after), Val(before[..i]),
                      Pow(10, i), Val(before[i..]), Val(after[i..]), q);
  }

  // -------------------------------------------------------------------------
  // The zero test of operator*=
  // -------------------------------------------------------------------------

  /** 0 *= -10 as written: the result is negative and keeps two used
      digits, both '0', so `print` writes "-00". */
  method ZeroTimesNegativeTen() returns (positive: bool, used: seq<char>)
    ensures !positive && used == "00"
  {
    var x := new Int2048();
    var y := new Int2048.FromLongLong(-10);
    LemmaTwoDigits(y.digits, y.length, 10);
    x.MulAssign(y);
    assert x.Model() == Signed.Num(false, 0);
    LemmaTrimmableVal(x.digits, x.length);
    LemmaZeroAbove(x.digits[..x.length], 0);
    assert x.digits[..x.length][x.length - 1] == x.digits[x.length - 1];
    positive, used := x.positive, x.digits[..x.length];
    assert used[0] == '0' && used[1] == '0';
  }

  lemma LemmaSmallPowers()
    ensures Pow(10, 1) == 10 && Pow(10, 2) == 100
  {
  }

  /** A normalized value in [10, 100) uses exactly two digits. */
  lemma {:induction false} LemmaTwoDigits(s: seq<char>, n: int, v: int)
    requires Normalized(s, n) && Val(s[..n]) == v && 10 <= v < 100
    ensures n == 2
  {
    LemmaTrimmableVal(s, n);
    LemmaNormalizedLower(s, n);
    LemmaSmallPowers();
  }

  // -------------------------------------------------------------------------
  // Comparison
  // -------------------------------------------------------------------------

  /** `operator<` (int2048_basic.hpp:964-980): signs first; then Length,
      then the digits from the most significant down, in reverse for two
      negative numbers. */
  method Less(a: Int2048, b: Int2048) returns (r: bool)
    requires a.Valid() && b.Valid()
    ensures r == Signed.Less(a.Model(), b.Model())
  {
    if a.positive && !b.positive {
      return false;
    }
    if !a.positive && b.positive {
      return true;
    }
    LemmaTrimmableVal(a.digits, a.length);
    LemmaTrimmableVal(b.digits, b.length);
    if a.length != b.length {
      LemmaLengthDecides(a.digits, a.length, b.digits, b.length);
      return if a.positive then a.length < b.length else a.length > b.length;
    }
    var k := HighestDifference(a.digits, b.digits, a.length);
    LemmaDigitDecides(a.digits, b.digits, a.length, k);
    if k >= 0 {
      return if a.positive then a.digits[k] < b.digits[k] else a.digits[k] > b.digits[k];
    }
    return false;
  }

  /** `operator>` (int2048_basic.hpp:982-998). */
  method Greater(a: Int2048, b: Int2048) returns (r: bool)
    requires a.Valid() && b.Valid()
    ensures r == Signed.Greater(a.Model(), b.Model())
  {
    if a.positive && !b.positive {
      return true;
    }
    if !a.positive && b.positive {
      return false;
    }
    LemmaTrimmableVal(a.digits, a.length);
    LemmaTrimmableVal(b.digits, b.length);
    if a.length != b.length {
      LemmaLengthDecides(a.digits, a.length, b.digits, b.length);
      return if a.positive then a.length > b.length else a.length < b.length;
    }
    var k := HighestDifference(a.digits, b.digits, a.length);
    LemmaDigitDecides(a.digits, b.digits, a.length, k);
    if k >= 0 {
      return if a.positive then a.digits[k] > b.digits[k] else a.digits[k] < b.digits[k];
    }
    return false;
  }

  /** `operator==` (int2048_basic.hpp:1000-1010): same sign, same Length
      and the same used digits. */
  method Equal(a: Int2048, b: Int2048) returns (r: bool)
    requires a.Valid() && b.Valid()
    ensures r == Signed.Equal(a.Model(), b.Model())
  {
    if (a.positive && b.positive) || (!a.positive && !b.positive) {
      LemmaTrimmableVal(a.digits, a.length);
      LemmaTrimmableVal(b.digits, b.length);
      if a.length != b.length {
        LemmaLengthDecides(a.digits, a.length, b.digits, b.length);
        return false;
      }
      LemmaValInjective(a.digits[..a.length], b.digits[..b.length]);
      r := SameDigits(a.digits, b.digits, a.length);
      return;
    }
    return false;
  }

  /** `operator!=` (int2048_basic.hpp:1012-1015). */
  method NotEqual(a: Int2048, b: Int2048) returns (r: bool)
    requires a.Valid() && b.Valid()
    ensures r == !Signed.Equal(a.Model(), b.Model())
  {
    var e := Equal(a, b);
    return !e;
  }

  /** `operator<=` (int2048_basic.hpp:1017-1033). */
  method LessEq(a: Int2048, b: Int2048) returns (r: bool)
    requires a.Valid() && b.Valid()
    ensures r == Signed.LessEq(a.Model(), b.Model())
  {
    if a.positive && !b.positive {
      return false;
    }
    if !a.positive && b.positive {
      return true;
    }
    LemmaTrimmableVal(a.digits, a.length);
    LemmaTrimmableVal(b.digits, b.length);
    if a.length != b.length {
      LemmaLengthDecides(a.digits, a.length, b.digits, b.length);
      return if a.positive then a.length < b.length else a.length > b.length;
    }
    var k := HighestDifference(a.digits, b.digits, a.length);
    LemmaDigitDecides(a.digits, b.digits, a.length, k);
    if k >= 0 {
      return if a.positive then a.digits[k] < b.digits[k] else a.digits[k] > b.digits[k];
    }
    return true;
  }

  /** `operator>=` (int2048_basic.hpp:1035-1051). */
  method GreaterEq(a: Int2048, b: Int2048) returns (r: bool)
    requires a.Valid() && b.Valid()
    ensures r == Signed.GreaterEq(a.Model(), b.Model())
  {
    if a.positive && !b.positive {
      return true;
    }
    if !a.positive && b.positive {
      return false;
    }
    LemmaTrimmableVal(a.digits, a.length);
    LemmaTrimmableVal(b.digits, b.length);
    if a.length != b.length {
      LemmaLengthDecides(a.digits, a.length, b.digits, b.length);
      return if a.positive then a.length > b.length else a.length < b.length;
    }
    var k := HighestDifference(a.digits, b.digits, a.length);
    LemmaDigitDecides(a.digits, b.digits, a.length, k);
    if k >= 0 {
      return if a.positive then a.digits[k] > b.digits[k] else a.digits[k] < b.digits[k];
    }
    return true;
  }
}
