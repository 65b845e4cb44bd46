/** The digit-string routines of the naive engine (int2048_basic.hpp).

    A `std::string BigInt` holds ASCII decimal digits, least significant
    first; the character c stands for the digit c - 48. The source writes
    its loops inline, again and again, in `add`, `minus`, their free
    versions, `operator*=` and `operator/=`; each routine here is one such
    loop, keeps its `±48` and `±10` character arithmetic and returns the
    rewritten string. The proofs read a string through its digit view
    Digits and the radix-10 Value of module Positional. */
module Digits {
  import opened Positional

  /** `c - 48`: the digit an ASCII character stands for. */
  function Dig(c: char): int
  {
    c as int - 48
  }

  /** Every character of s is one of '0' .. '9'. */
  ghost predicate AllDigits(s: seq<char>)
  {
    forall k :: 0 <= k < |s| ==> '0' <= s[k] <= '9'
  }

  /** The digits the characters of s stand for. */
  ghost function Digits(s: seq<char>): (d: seq<int>)
    ensures |d| == |s| && forall k :: 0 <= k < |s| ==> d[k] == Dig(s[k])
  {
    seq(|s|, k requires 0 <= k < |s| => Dig(s[k]))
  }

  /** The number the digit string s denotes, least significant digit
      first: Value of module Positional read through Dig. */
  ghost function Val(s: seq<char>): int
  {
    if |s| == 0 then 0 else Val(s[..|s| - 1]) + Dig(s[|s| - 1]) * Pow(10, |s| - 1)
  }

  /** The first n characters are in use: every character is a digit and
      every one from n on is '0'. */
  ghost predicate Trimmable(s: seq<char>, n: int)
  {
    1 <= n <= |s| && AllDigits(s) && forall k :: n <= k < |s| ==> s[k] == '0'
  }

  /** Trimmable, and the top used digit is not '0' unless only one is used. */
  ghost predicate Normalized(s: seq<char>, n: int)
  {
    Trimmable(s, n) && (n == 1 || s[n - 1] != '0')
  }

  /** `std::string::resize(n, '0')`: truncate, or pad with '0'. */
  function Resized(s: seq<char>, n: nat): (r: seq<char>)
    ensures |r| == n
    ensures forall k :: 0 <= k < n ==> r[k] == if k < |s| then s[k] else '0'
  {
    if n <= |s| then s[..n] else s + seq(n - |s|, _ => '0')
  }

  /** The number a decimal literal denotes, read most significant digit
      first as it is written. */
  ghost function DecimalValue(t: seq<char>): int
  {
    if |t| == 0 then 0 else 10 * DecimalValue(t[..|t| - 1]) + Dig(t[|t| - 1])
  }

  // ---------------------------------------------------------------------
  // The digit view
  // ---------------------------------------------------------------------

  lemma {:induction false} LemmaDigitsPrefix(s: seq<char>, j: int)
    requires 0 <= j <= |s|
    ensures Digits(s[..j]) == Digits(s)[..j]
  {
  }

  lemma {:induction false} LemmaDigitsSuffix(s: seq<char>, i: int)
    requires 0 <= i <= |s|
    ensures Digits(s[i..]) == Digits(s)[i..]
  {
  }

  lemma {:induction false} LemmaDigitsInRange(s: seq<char>)
    requires AllDigits(s)
    ensures InRange(Digits(s), 10)
  {
  }

  /** Val is the radix-10 Value of the digit view. */
  lemma {:induction false} LemmaValIsValue(s: seq<char>)
    ensures Val(s) == Value(Digits(s), 10)
  {
    if |s| > 0 {
      LemmaValIsValue(s[..|s| - 1]);
      LemmaDigitsPrefix(s, |s| - 1);
    }
  }

  lemma {:induction false} LemmaValPrefix(s: seq<char>, k: int)
    requires 0 <= k < |s|
    ensures Val(s[..k + 1]) == Val(s[..k]) + Dig(s[k]) * Pow(10, k)
  {
    assert s[..k + 1][..k] == s[..k];
  }

  lemma {:induction false} LemmaValSplit(s: seq<char>, k: int)
    requires 0 <= k <= |s|
    ensures Val(s) == Val(s[..k]) + Pow(10, k) * Val(s[k..])
  {
    LemmaValIsValue(s);
    LemmaValIsValue(s[..k]);
    LemmaValIsValue(s[k..]);
    LemmaDigitsPrefix(s, k);
    LemmaDigitsSuffix(s, k);
    LemmaValueSplit(Digits(s), k, 10);
  }

  lemma {:induction false} LemmaValUpdate(s: seq<char>, k: int, c: char)
    requires 0 <= k < |s|
    ensures Val(s[k := c]) == Val(s) + (Dig(c) - Dig(s[k])) * Pow(10, k)
  {
    LemmaValIsValue(s);
    LemmaValIsValue(s[k := c]);
    assert Digits(s[k := c]) == Digits(s)[k := Dig(c)];
    LemmaValueUpdate(Digits(s), k, Dig(c), 10);
  }

  lemma {:induction false} LemmaValBounds(s: seq<char>)
    requires AllDigits(s)
    ensures 0 <= Val(s) < Pow(10, |s|)
  {
    LemmaValIsValue(s);
    LemmaDigitsInRange(s);
    LemmaValueBounds(Digits(s), 10);
  }

  lemma {:induction false} LemmaValZeros(s: seq<char>)
    requires forall k :: 0 <= k < |s| ==> s[k] == '0'
    ensures Val(s) == 0
  {
    if |s| > 0 {
      LemmaValZeros(s[..|s| - 1]);
    }
  }

  lemma {:induction false} LemmaValTop(s: seq<char>)
    requires AllDigits(s) && |s| >= 1 && s[|s| - 1] != '0'
    ensures Val(s) >= Pow(10, |s| - 1)
  {
    LemmaValIsValue(s);
    LemmaDigitsInRange(s);
    LemmaValueTop(Digits(s), 10);
  }

  /** A string of digits whose value reaches 10^(|s|-1) has a top digit
      other than '0'. */
  lemma {:induction false} LemmaValTopNonzero(s: seq<char>)
    requires AllDigits(s) && |s| >= 1 && Val(s) >= Pow(10, |s| - 1)
    ensures s[|s| - 1] != '0'
  {
    LemmaValIsValue(s);
    LemmaDigitsInRange(s);
    LemmaTopNonzero(Digits(s), 10);
  }

  lemma {:induction false} LemmaValSingle(s: seq<char>)
    requires |s| == 1
    ensures Val(s) == Dig(s[0])
  {
    assert s[..0] == [];
  }

  /** Two strings that agree on [lo, hi) gain the same amount from their
      first lo digits to their first hi digits. */
  lemma {:induction false} LemmaValSharedSpan(s: seq<char>, t: seq<char>, lo: int, hi: int)
    requires 0 <= lo <= hi <= |s| && hi <= |t| && s[lo..hi] == t[lo..hi]
    ensures Val(s[..hi]) - Val(s[..lo]) == Val(t[..hi]) - Val(t[..lo])
  {
    LemmaValSplit(s[..hi], lo);
    LemmaValSplit(t[..hi], lo);
    assert s[..hi][..lo] == s[..lo] && s[..hi][lo..] == s[lo..hi];
    assert t[..hi][..lo] == t[..lo] && t[..hi][lo..] == t[lo..hi];
  }

  /** One step of a carry or borrow chain on characters: digit i was
      written as d + cin, reduced by cout·10. */
  lemma {:induction false} LemmaCharStep(s: seq<char>, i: int, cin: int, cout: int, d: int)
    requires 0 <= i < |s| && Dig(s[i]) + cout * 10 == d + cin
    ensures Val(s[..i + 1]) + cout * Pow(10, i + 1) == Val(s[..i]) + cin * Pow(10, i) + d * Pow(10, i)
  {
    LemmaValIsValue(s[..i + 1]);
    LemmaValIsValue(s[..i]);
    LemmaDigitsPrefix(s, i + 1);
    LemmaDigitsPrefix(s, i);
    LemmaCarryStep(Digits(s), i, 10, cin, cout, d);
  }

  /** One step of a borrow chain computing s - t into r. */
  lemma {:induction false} LemmaCharBorrowStep(r: seq<char>, s: seq<char>, t: seq<char>, i: int, bin: bool, bout: bool)
    requires 0 <= i < |r| && i < |s| && i < |t|
    requires Dig(r[i]) - Bit(bout) * 10 == Dig(s[i]) - Dig(t[i]) - Bit(bin)
    ensures Val(r[..i + 1]) - Bit(bout) * Pow(10, i + 1)
         == Val(r[..i]) - Bit(bin) * Pow(10, i) + (Val(s[..i + 1]) - Val(s[..i])) - (Val(t[..i + 1]) - Val(t[..i]))
  {
    var p, q: int := Pow(10, i), Pow(10, i + 1);
    var bi, bo := Bit(bin), Bit(bout);
    LemmaCharStep(r, i, -bi, -bo, Dig(s[i]) - Dig(t[i]));
    assert (-bi) * p == -(bi * p) && (-bo) * q == -(bo * q);
    LemmaValPrefix(s, i);
    LemmaValPrefix(t, i);
    LemmaMulDistrib(Dig(s[i]) - Dig(t[i]), Dig(t[i]), p);
  }

  /** A literal's digits denote a natural number. */
  lemma {:induction false} LemmaDecimalNatural(t: seq<char>)
    requires AllDigits(t)
    ensures DecimalValue(t) >= 0
  {
    if |t| > 0 {
      assert AllDigits(t[..|t| - 1]);
      LemmaDecimalNatural(t[..|t| - 1]);
    }
  }

  /** Reading a literal from its most significant digit: the first digit
      weighs 10^(|t|-1). */
  lemma {:induction false} LemmaDecimalFront(t: seq<char>)
    requires |t| >= 1
    ensures DecimalValue(t) == Dig(t[0]) * Pow(10, |t| - 1) + DecimalValue(t[1..])
  {
    if |t| == 1 {
      assert t[..0] == [] && t[1..] == [];
    } else {
      var u := t[..|t| - 1];
      LemmaDecimalFront(u);
      assert u[1..] == t[1..][..|t| - 2];
      var p := Pow(10, |t| - 2);
      assert 10 * (Dig(t[0]) * p) == Dig(t[0]) * (10 * p);
    }
  }

  // ---------------------------------------------------------------------
  // Facts about used digits
  // ---------------------------------------------------------------------

  /** The used digits of a trimmable string carry its whole value. */
  lemma {:induction false} LemmaTrimmableVal(s: seq<char>, n: int)
    requires Trimmable(s, n)
    ensures AllDigits(s[..n]) && 0 <= Val(s[..n]) < Pow(10, n)
    ensures Val(s) == Val(s[..n])
  {
    LemmaValBounds(s[..n]);
    LemmaValSplit(s, n);
    LemmaValZeros(s[n..]);
  }

  /** A normalized value of n digits, n > 1, reaches 10^(n-1). */
  lemma {:induction false} LemmaNormalizedLower(s: seq<char>, n: int)
    requires Normalized(s, n)
    ensures n == 1 || Val(s[..n]) >= Pow(10, n - 1)
  {
    if n > 1 {
      LemmaValTop(s[..n]);
    }
  }

  /** A shorter normalized magnitude is smaller. */
  lemma {:induction false} LemmaShorterSmaller(s: seq<char>, n: int, t: seq<char>, m: int)
    requires Normalized(s, n) && Normalized(t, m) && n < m
    ensures 0 <= Val(s[..n]) < Val(t[..m])
  {
    LemmaTrimmableVal(s, n);
    LemmaValTop(t[..m]);
    LemmaPowMono(10, n, m - 1);
  }

  /** Most significant digit first: the highest position where two equally
      long digit strings differ decides their order. */
  lemma {:induction false} LemmaValCompareAt(s: seq<char>, t: seq<char>, k: int)
    requires AllDigits(s) && AllDigits(t) && |s| == |t| && 0 <= k < |s|
    requires s[k + 1..] == t[k + 1..] && s[k] < t[k]
    ensures Val(s) < Val(t)
  {
    LemmaSharedHigh(t, s, k + 1);
    LemmaValLowerAt(s, t, k);
  }

  /** Digit k decides between the first k + 1 digits of s and t. */
  lemma {:induction false} LemmaValLowerAt(s: seq<char>, t: seq<char>, k: int)
    requires 0 <= k < |s| && k < |t| && AllDigits(s) && AllDigits(t) && s[k] < t[k]
    ensures Val(s[..k + 1]) < Val(t[..k + 1])
  {
    LemmaValPrefix(s, k);
    LemmaValPrefix(t, k);
    assert AllDigits(s[..k]) && AllDigits(t[..k]);
    LemmaValBounds(s[..k]);
    LemmaValBounds(t[..k]);
    var w := Pow(10, k);
    LemmaMulLe(Dig(s[k]) + 1, Dig(t[k]), w);
    LemmaMulDistrib(Dig(s[k]), 1, w);
  }

  /** Equally long digit strings have the same value exactly when they
      are the same string. */
  lemma {:induction false} LemmaValInjective(s: seq<char>, t: seq<char>)
    requires AllDigits(s) && AllDigits(t) && |s| == |t|
    ensures Val(s) == Val(t) <==> s == t
  {
    if s != t {
      var k := LemmaHighestDifference(s, t);
      if s[k] < t[k] {
        LemmaValCompareAt(s, t, k);
      } else {
        LemmaValCompareAt(t, s, k);
      }
    }
  }

  /** Equally long digit strings that agree above position k are decided
      by their digits at k, and equal when they agree everywhere. */
  lemma {:induction false} LemmaDigitDecides(s: seq<char>, t: seq<char>, n: int, k: int)
    requires 0 <= n <= |s| && n <= |t| && AllDigits(s[..n]) && AllDigits(t[..n])
    requires -1 <= k < n && s[k + 1..n] == t[k + 1..n] && (k >= 0 ==> s[k] != t[k])
    ensures k >= 0 ==> (s[k] < t[k] <==> Val(s[..n]) < Val(t[..n])) && Val(s[..n]) != Val(t[..n])
    ensures k < 0 ==> s[..n] == t[..n]
  {
    if k >= 0 {
      var x, y := s[..n], t[..n];
      assert x[k + 1..] == s[k + 1..n] && y[k + 1..] == t[k + 1..n];
      if s[k] < t[k] {
        LemmaValCompareAt(x, y, k);
      } else {
        LemmaValCompareAt(y, x, k);
      }
    } else {
      assert s[..n] == s[0..n] && t[..n] == t[0..n];
    }
  }

  /** What the scan of AbsCompareLess establishes: the window of a from
      start and the first n digits of b agree above i and, when i >= 0,
      differ at i; then position i decides, and with no difference the
      window is not less. */
  lemma {:induction false} LemmaWindowDecides(a: seq<char>, start: int, b: seq<char>, n: int, i: int)
    requires 0 <= start && start + n <= |a| && n <= |b| && -1 <= i < n
    requires forall k :: i < k < n ==> a[start + k] == b[k]
    requires i >= 0 ==> a[start + i] != b[i]
    ensures AllDigits(a[start..start + n]) && AllDigits(b[..n]) ==>
            if i >= 0 then (a[start + i] < b[i] <==> Val(a[start..start + n]) < Val(b[..n]))
            else !(Val(a[start..start + n]) < Val(b[..n]))
  {
    var s, t := a[start..start + n], b[..n];
    if AllDigits(s) && AllDigits(t) {
      assert s[..n] == s && t[..n] == t;
      assert s[i + 1..n] == t[i + 1..n];
      LemmaDigitDecides(s, t, n, i);
    }
  }

  /** The window of a trimmable string from i on is below 10^m, m being
      the number of used digits in the window. */
  lemma {:induction false} LemmaWindowBelow(s: seq<char>, n: int, i: int)
    requires Trimmable(s, n) && 0 <= i <= |s|
    ensures AllDigits(s[i..]) && 0 <= Val(s[i..]) < Pow(10, if n > i then n - i else 0)
  {
    var u := s[i..];
    var m := if n > i then n - i else 0;
    LemmaValSplit(u, m);
    LemmaValZeros(u[m..]);
    LemmaValBounds(u[..m]);
  }

  /** A digit string is worth at least any one of its digits at its weight. */
  lemma {:induction false} LemmaValAtLeastDigit(s: seq<char>, k: int)
    requires AllDigits(s) && 0 <= k < |s|
    ensures Val(s) >= Dig(s[k]) * Pow(10, k)
  {
    LemmaValIsValue(s);
    LemmaDigitsInRange(s);
    LemmaValueAtLeastLimb(Digits(s), k, 10);
  }

  /** Digits at or above m of a value below 10^m are '0'. */
  lemma {:induction false} LemmaZeroAbove(s: seq<char>, m: int)
    requires AllDigits(s) && 0 <= m <= |s| && Val(s) < Pow(10, m)
    ensures forall k :: m <= k < |s| ==> s[k] == '0'
  {
    forall k | m <= k < |s|
      ensures s[k] == '0'
    {
      LemmaValAtLeastDigit(s, k);
      if s[k] != '0' {
        LemmaMulLe(1, Dig(s[k]), Pow(10, k));
        LemmaPowMono(10, m, k);
      }
    }
  }

  /** One digit of the magnitude addition: `x + y + Carry - 48`, less 10
      with the carry out set when it passes '9'. */
  method AddDigit(x: char, y: char, cin: bool) returns (z: char, cout: bool)
    requires '0' <= x <= '9' && '0' <= y <= '9'
    ensures '0' <= z <= '9' && Dig(z) + Bit(cout) * 10 == Dig(x) + Dig(y) + Bit(cin)
  {
    var v := x as int + y as int + Bit(cin) - 48;
    if v > 57 {
      z, cout := (v - 10) as char, true;
    } else {
      z, cout := v as char, false;
    }
  }

  /** One digit of the magnitude subtraction: `x - y - Carry + 48`, plus 10
      with the borrow out set when it falls below '0'. */
  method SubtractDigit(x: char, y: char, bin: bool) returns (z: char, bout: bool)
    requires '0' <= x <= '9' && '0' <= y <= '9'
    ensures '0' <= z <= '9' && Dig(z) - Bit(bout) * 10 == Dig(x) - Dig(y) - Bit(bin)
  {
    var v := x as int - y as int - Bit(bin) + 48;
    if v < 48 {
      z, bout := (v + 10) as char, true;
    } else {
      z, bout := v as char, false;
    }
  }

  /** One step of a carry chain computing s + t into r. */
  lemma {:induction false} LemmaCharAddStep(r: seq<char>, s: seq<char>, t: seq<char>, i: int, cin: bool, cout: bool)
    requires 0 <= i < |r| && i < |s| && i < |t|
    requires Dig(r[i]) + Bit(cout) * 10 == Dig(s[i]) + Dig(t[i]) + Bit(cin)
    requires Val(r[..i]) + Bit(cin) * Pow(10, i) == Val(s[..i]) + Val(t[..i])
    ensures Val(r[..i + 1]) + Bit(cout) * Pow(10, i + 1) == Val(s[..i + 1]) + Val(t[..i + 1])
  {
    LemmaCharStep(r, i, Bit(cin), Bit(cout), Dig(s[i]) + Dig(t[i]));
    LemmaValPrefix(s, i);
    LemmaValPrefix(t, i);
    LemmaMulDistrib(Dig(s[i]), Dig(t[i]), Pow(10, i));
  }

  /** Digits 0 .. i-1 of r plus the carry pending at digit i equal s over
      those digits plus the carry total that entered the run. */
  ghost predicate RunSoFar(r: seq<char>, s: seq<char>, i: int, cin: int, total: int)
  {
    0 <= i <= |r| && i <= |s| && Val(r[..i]) + cin * Pow(10, i) == Val(s[..i]) + total
  }

  /** One step of a carry running through s into r: digit i becomes c. */
  lemma {:induction false} LemmaCharRunStep(r: seq<char>, s: seq<char>, i: int, cin: int, cout: int, total: int, c: char)
    requires 0 <= i < |r| && i < |s| && Dig(c) + cout * 10 == Dig(s[i]) + cin
    requires RunSoFar(r, s, i, cin, total)
    ensures RunSoFar(r[i := c], s, i + 1, cout, total)
  {
    var r' := r[i := c];
    assert r'[..i] == r[..i];
    LemmaCharStep(r', i, cin, cout, Dig(s[i]));
    LemmaValPrefix(s, i);
  }

  /** Digits 0 .. i-1 of r minus the borrow pending at digit i equal s over
      those digits minus the borrow total that entered the run. */
  ghost predicate BorrowSoFar(r: seq<char>, s: seq<char>, i: int, bin: int, total: int)
  {
    0 <= i <= |r| && i <= |s| && Val(r[..i]) - bin * Pow(10, i) == Val(s[..i]) - total
  }

  /** One step of a borrow running through s into r: digit i becomes c. */
  lemma {:induction false} LemmaCharBorrowRunStep(r: seq<char>, s: seq<char>, i: int, bin: int, bout: int, total: int, c: char)
    requires 0 <= i < |r| && i < |s| && Dig(c) - bout * 10 == Dig(s[i]) - bin
    requires BorrowSoFar(r, s, i, bin, total)
    ensures BorrowSoFar(r[i := c], s, i + 1, bout, total)
  {
    var r' := r[i := c];
    assert r'[..i] == r[..i];
    LemmaCharStep(r', i, -bin, -bout, Dig(s[i]));
    LemmaValPrefix(s, i);
    assert (-bin) * Pow(10, i) == -(bin * Pow(10, i));
    assert (-bout) * Pow(10, i + 1) == -(bout * Pow(10, i + 1));
  }

  // ---------------------------------------------------------------------
  // Carry and borrow chains
  // ---------------------------------------------------------------------

  /** The first carry loop of the magnitude addition (int2048_basic.hpp:196-204,
      219-227 and their copies in `minus` and the free functions):
      `s[i] + t[i] + Carry - 48`, less 10 above '9', for i < n. */
  method AddDigits(s: seq<char>, t: seq<char>, n: int) returns (r: seq<char>, carry: bool)
    requires 0 <= n <= |s| && n <= |t| && AllDigits(s) && AllDigits(t)
    ensures |r| == |s| && AllDigits(r) && forall k :: n <= k < |s| ==> r[k] == s[k]
    ensures Val(r[..n]) + Bit(carry) * Pow(10, n) == Val(s[..n]) + Val(t[..n])
  {
    r, carry := s, false;
    var i := 0;
    while i < n
      invariant 0 <= i <= n && |r| == |s| && AllDigits(r)
      invariant forall k :: i <= k < |s| ==> r[k] == s[k]
      invariant Val(r[..i]) + Bit(carry) * Pow(10, i) == Val(s[..i]) + Val(t[..i])
    {
      var prev, cin := r, carry;
      var z;
      z, carry := AddDigit(r[i], t[i], carry);
      r := r[i := z];
      assert r[..i] == prev[..i];
      LemmaCharAddStep(r, s, t, i, cin, carry);
      i := i + 1;
    }
  }

  /** The second carry loop (int2048_basic.hpp:205-213): `s[i] + Carry`
      through digits lo .. hi-1 of the longer operand. */
  method PropagateCarry(s: seq<char>, lo: int, hi: int, cin: bool) returns (r: seq<char>, carry: bool)
    requires 0 <= lo <= hi <= |s| && AllDigits(s)
    ensures |r| == |s| && AllDigits(r)
    ensures forall k :: 0 <= k < |s| && !(lo <= k < hi) ==> r[k] == s[k]
    ensures Val(r[..hi]) + Bit(carry) * Pow(10, hi) == Val(s[..hi]) + Bit(cin) * Pow(10, lo)
  {
    r, carry := s, cin;
    var i := lo;
    ghost var total := Bit(cin) * Pow(10, lo);
    while i < hi
      invariant lo <= i <= hi && |r| == |s|
      invariant forall k :: 0 <= k < lo ==> r[k] == s[k]
      invariant forall k :: lo <= k < i ==> '0' <= r[k] <= '9'
      invariant forall k :: i <= k < |s| ==> r[k] == s[k]
      invariant RunSoFar(r, s, i, Bit(carry), total)
    {
      var c := carry;
      var z;
      z, carry := AddDigit(r[i], '0', carry);
      LemmaCharRunStep(r, s, i, Bit(c), Bit(carry), total, z);
      r := r[i := z];
      i := i + 1;
    }
  }

  /** The first borrow loop of the magnitude subtraction (int2048_basic.hpp:259-267
      and its copies), also the window subtraction of `operator/=`
      (int2048_basic.hpp:877-885): `s[i] - t[i] - Carry + 48`, plus 10
      below '0', for i < n. */
  method SubtractDigits(s: seq<char>, t: seq<char>, n: int) returns (r: seq<char>, borrow: bool)
    requires 0 <= n <= |s| && n <= |t| && AllDigits(s) && AllDigits(t)
    ensures |r| == |s| && AllDigits(r) && forall k :: n <= k < |s| ==> r[k] == s[k]
    ensures Val(r[..n]) - Bit(borrow) * Pow(10, n) == Val(s[..n]) - Val(t[..n])
  {
    r, borrow := s, false;
    var i := 0;
    while i < n
      invariant 0 <= i <= n && |r| == |s| && AllDigits(r)
      invariant forall k :: i <= k < |s| ==> r[k] == s[k]
      invariant Val(r[..i]) - Bit(borrow) * Pow(10, i) == Val(s[..i]) - Val(t[..i])
    {
      var prev, bin := r, borrow;
      var z;
      z, borrow := SubtractDigit(r[i], t[i], borrow);
      r := r[i := z];
      assert r[..i] == prev[..i];
      LemmaCharBorrowStep(r, s, t, i, bin, borrow);
      i := i + 1;
    }
  }

  /** The second borrow loop (int2048_basic.hpp:268-276): `s[i] - Carry`
      through digits lo .. hi-1. */
  method PropagateBorrow(s: seq<char>, lo: int, hi: int, bin: bool) returns (r: seq<char>, borrow: bool)
    requires 0 <= lo <= hi <= |s| && AllDigits(s)
    ensures |r| == |s| && AllDigits(r)
    ensures forall k :: 0 <= k < |s| && !(lo <= k < hi) ==> r[k] == s[k]
    ensures Val(r[..hi]) - Bit(borrow) * Pow(10, hi) == Val(s[..hi]) - Bit(bin) * Pow(10, lo)
  {
    r, borrow := s, bin;
    var i := lo;
    ghost var total := Bit(bin) * Pow(10, lo);
    while i < hi
      invariant lo <= i <= hi && |r| == |s|
      invariant forall k :: 0 <= k < lo ==> r[k] == s[k]
      invariant forall k :: lo <= k < i ==> '0' <= r[k] <= '9'
      invariant forall k :: i <= k < |s| ==> r[k] == s[k]
      invariant BorrowSoFar(r, s, i, Bit(borrow), total)
    {
      var c := borrow;
      var z;
      z, borrow := SubtractDigit(r[i], '0', borrow);
      LemmaCharBorrowRunStep(r, s, i, Bit(c), Bit(borrow), total, z);
      r := r[i := z];
      i := i + 1;
    }
  }

  /** The reversed subtraction loop (int2048_basic.hpp:243-251 and its
      copies): `t[i] - s[i] - Carry + 48`, plus 10 below '0', for i < n. */
  method ReverseSubtractDigits(s: seq<char>, t: seq<char>, n: int) returns (r: seq<char>, borrow: bool)
    requires 0 <= n <= |s| && n <= |t| && AllDigits(s) && AllDigits(t)
    ensures |r| == |s| && AllDigits(r) && forall k :: n <= k < |s| ==> r[k] == s[k]
    ensures Val(r[..n]) - Bit(borrow) * Pow(10, n) == Val(t[..n]) - Val(s[..n])
  {
    r, borrow := s, false;
    var i := 0;
    while i < n
      invariant 0 <= i <= n && |r| == |s| && AllDigits(r)
      invariant forall k :: i <= k < |s| ==> r[k] == s[k]
      invariant Val(r[..i]) - Bit(borrow) * Pow(10, i) == Val(t[..i]) - Val(s[..i])
    {
      var prev, bin := r, borrow;
      var z;
      z, borrow := SubtractDigit(t[i], r[i], borrow);
      r := r[i := z];
      assert r[..i] == prev[..i];
      LemmaCharBorrowStep(r, t, s, i, bin, borrow);
      i := i + 1;
    }
  }

  // ---------------------------------------------------------------------
  // Rows of a product
  // ---------------------------------------------------------------------

  /** A digit product plus carries stays within two decimal digits. */
  lemma {:induction false} LemmaDigitProduct(x: int, y: int, c1: int, c2: int)
    requires 0 <= x < 10 && 0 <= y < 10 && 0 <= c1 < 10 && 0 <= c2 < 10
    ensures 0 <= x * y + c1 + c2 <= 99
  {
    LemmaMulLe(0, x, y);
    LemmaMulLe(x, 9, y);
  }

  /** The `Temp = x * y + c1 + c2` of the product rows, split into the
      digit kept, `(Temp % 10) + 48`, and the carry, `Temp / 10`. */
  method SplitDigit(x: int, y: int, c1: int, c2: int) returns (low: char, high: int)
    requires 0 <= x < 10 && 0 <= y < 10 && 0 <= c1 < 10 && 0 <= c2 < 10
    ensures '0' <= low <= '9' && 0 <= high < 10 && Dig(low) + high * 10 == x * y + c1 + c2
  {
    LemmaDigitProduct(x, y, c1, c2);
    var temp := x * y + c1 + c2;
    high := temp / 10;
    low := (temp % 10 + 48) as char;
  }

  /** One step of the scaling row: digit i of r takes the low digit of
      a[i]·d + cin and cout carries the high one. */
  lemma {:induction false} LemmaScaleStep(r: seq<char>, a: seq<char>, i: int, d: int, cin: int, cout: int)
    requires 0 <= i < |r| && i < |a| && Dig(r[i]) + cout * 10 == Dig(a[i]) * d + cin + 0
    requires Val(r[..i]) + cin * Pow(10, i) == d * Val(a[..i])
    ensures Val(r[..i + 1]) + cout * Pow(10, i + 1) == d * Val(a[..i + 1])
  {
    LemmaCharStep(r, i, cin, cout, Dig(a[i]) * d);
    LemmaValPrefix(a, i);
    LemmaScaleLimb(d, Val(a[..i]), Dig(a[i]), Pow(10, i));
    assert d * Dig(a[i]) == Dig(a[i]) * d;
  }

  /** Digits 0 .. i-1 of the row r, with the carry out of digit i-1, hold
      the old window s plus d·a over those digits. */
  ghost predicate RowSoFar(r: seq<char>, s: seq<char>, a: seq<char>, i: int, d: int, carry: int)
  {
    0 <= i <= |r| && i <= |s| && i <= |a|
    && Val(r[..i]) + carry * Pow(10, i) == Val(s[..i]) + d * Val(a[..i])
  }

  /** One step of a multiply-accumulate row: digit i of r takes the low
      digit c of a[i]·d + cin + s[i] and cout carries the high one. */
  lemma {:induction false} LemmaMulAddStep(r: seq<char>, s: seq<char>, a: seq<char>, i: int, d: int,
                                           cin: int, cout: int, c: char)
    requires 0 <= i < |r| && i < |s| && i < |a| && Dig(c) + cout * 10 == Dig(a[i]) * d + cin + Dig(s[i])
    requires RowSoFar(r, s, a, i, d, cin)
    ensures RowSoFar(r[i := c], s, a, i + 1, d, cout)
  {
    var r' := r[i := c];
    assert r'[..i] == r[..i];
    LemmaCharStep(r', i, cin, cout, Dig(a[i]) * d + Dig(s[i]));
    LemmaValPrefix(a, i);
    LemmaValPrefix(s, i);
    LemmaScaleLimb(d, Val(a[..i]), Dig(a[i]), Pow(10, i));
    LemmaMulDistrib(Dig(a[i]) * d, Dig(s[i]), Pow(10, i));
  }

  /** The first row of `operator*=` (int2048_basic.hpp:777-786): digits
      0 .. n of r receive d·a[..n], `(Temp % 10) + 48` each, the top one
      being the final carry. The source stores the carry at index n under
      `if (Carry != 0)` and then again unconditionally; one store is the
      same. */
  method ScaleRow(s: seq<char>, a: seq<char>, n: int, d: int) returns (r: seq<char>, carry: int)
    requires 0 <= n < |s| && n <= |a| && AllDigits(a) && 0 <= d < 10
    ensures |r| == |s| && AllDigits(r[..n + 1]) && 0 <= carry < 10 && Dig(r[n]) == carry
    ensures forall k :: n < k < |s| ==> r[k] == s[k]
    ensures Val(r[..n + 1]) == d * Val(a[..n])
  {
    r, carry := s, 0;
    var i := 0;
    while i < n
      invariant 0 <= i <= n && |r| == |s| && AllDigits(r[..i]) && 0 <= carry < 10
      invariant forall k :: i <= k < |s| ==> r[k] == s[k]
      invariant Val(r[..i]) + carry * Pow(10, i) == d * Val(a[..i])
    {
      var prev, cin := r, carry;
      var low;
      low, carry := SplitDigit(Dig(a[i]), d, carry, 0);
      r := r[i := low];
      assert r[..i] == prev[..i];
      LemmaScaleStep(r, a, i, d, cin, carry);
      i := i + 1;
    }
    var prev := r;
    r := r[n := (carry + 48) as char];
    assert r[..n] == prev[..n];
    LemmaValPrefix(r, n);
  }

  /** One inner row of `operator*=` (int2048_basic.hpp:788-796) on the
      window of the result that starts at the current digit of B: digits
      0 .. n of the window become its old value plus d·a[..n]. `Temp`
      never exceeds 9·9 + 9 + 9 = 99. */
  method MulAddRow(s: seq<char>, a: seq<char>, n: int, d: int) returns (r: seq<char>, carry: int)
    requires 0 <= n < |s| && n <= |a| && AllDigits(a) && AllDigits(s[..n]) && 0 <= d < 10
    ensures |r| == |s| && AllDigits(r[..n + 1]) && 0 <= carry < 10 && Dig(r[n]) == carry
    ensures forall k :: n < k < |s| ==> r[k] == s[k]
    ensures Val(r[..n + 1]) == Val(s[..n]) + d * Val(a[..n])
  {
    r, carry := s, 0;
    var i := 0;
    while i < n
      invariant 0 <= i <= n && |r| == |s| && 0 <= carry < 10
      invariant forall k :: 0 <= k < i ==> '0' <= r[k] <= '9'
      invariant forall k :: i <= k < |s| ==> r[k] == s[k]
      invariant RowSoFar(r, s, a, i, d, carry)
    {
      var cin := carry;
      assert s[..n][i] == s[i];
      var low;
      low, carry := SplitDigit(Dig(a[i]), d, carry, Dig(r[i]));
      LemmaMulAddStep(r, s, a, i, d, cin, carry, low);
      r := r[i := low];
      i := i + 1;
    }
    var prev := r;
    r := r[n := (carry + 48) as char];
    assert r[..n] == prev[..n];
    LemmaValPrefix(r, n);
  }

  /** The window a row of the product starts from holds digits. */
  lemma {:induction false} LemmaRowWindow(r: seq<char>, j: int, n: int)
    requires 0 <= j && 0 <= n && n + j <= |r| && AllDigits(r[..n + j])
    ensures AllDigits(r[j..][..n])
  {
    assert forall k :: 0 <= k < n ==> r[j..][..n][k] == r[..n + j][k + j];
  }

  /** Splicing row j (computed on the window of prev from j on) back into
      prev extends the product by a·b[j]·10^j. */
  lemma {:induction false} LemmaSchoolbookRow(prev: seq<char>, row: seq<char>, j: nat, n: nat, va: int, b: seq<char>)
    requires j < |b| && n + j < |prev| && |row| == |prev| - j
    requires Val(prev[..n + j]) == va * Val(b[..j])
    requires Val(row[..n + 1]) == Val(prev[j..][..n]) + Dig(b[j]) * va
    requires AllDigits(prev[..n + j]) && AllDigits(row[..n + 1])
    ensures Val((prev[..j] + row)[..n + j + 1]) == va * Val(b[..j + 1])
    ensures AllDigits((prev[..j] + row)[..n + j + 1]) && (prev[..j] + row)[n + j] == row[n]
  {
    var r := prev[..j] + row;
    assert prev[j..][..n] == prev[j..n + j];
    LemmaSpliceWindow(prev[..j], row, n + 1);
    LemmaValSplit(r[..n + j + 1], j);
    LemmaValSplit(prev[..n + j], j);
    assert prev[..n + j][..j] == prev[..j] && prev[..n + j][j..] == prev[j..n + j];
    LemmaValPrefix(b, j);
    LemmaRowStep(Val(prev[..j]), Val(prev[j..n + j]), Val(row[..n + 1]), va, Val(b[..j]), Dig(b[j]), Pow(10, j));
  }

  /** The state of `operator*=` after rows 0 .. j-1: the first n + j
      digits are digits, the last of them is the last row's carry, and
      they hold the n-digit factor times the first j digits of b. */
  ghost predicate RowsDone(r: seq<char>, n: int, j: int, va: int, b: seq<char>, carry: int)
  {
    1 <= j <= |b| && 0 <= n && n + j <= |r| && AllDigits(r[..n + j])
    && 0 <= carry < 10 && Dig(r[n + j - 1]) == carry && Val(r[..n + j]) == va * Val(b[..j])
  }

  /** Row 0, the factor scaled by b[0], starts the state. */
  lemma {:induction false} LemmaRowsStart(r: seq<char>, n: int, va: int, b: seq<char>, carry: int)
    requires 1 <= |b| && 0 <= n < |r| && AllDigits(r[..n + 1]) && 0 <= carry < 10 && Dig(r[n]) == carry
    requires Val(r[..n + 1]) == Dig(b[0]) * va
    ensures RowsDone(r, n, 1, va, b, carry)
  {
    LemmaValSingle(b[..1]);
    assert Dig(b[0]) * va == va * Dig(b[0]);
  }

  /** Row j added into the window at j and spliced back extends the
      state by one row. */
  lemma {:induction false} LemmaRowDone(prev: seq<char>, row: seq<char>, j: nat, n: nat, va: int, b: seq<char>,
                                        carry: int, c: int)
    requires j < |b| && n + j < |prev| && |row| == |prev| - j && RowsDone(prev, n, j, va, b, carry)
    requires AllDigits(row[..n + 1]) && 0 <= c < 10 && Dig(row[n]) == c
    requires Val(row[..n + 1]) == Val(prev[j..][..n]) + Dig(b[j]) * va
    ensures RowsDone(prev[..j] + row, n, j + 1, va, b, c)
  {
    LemmaSchoolbookRow(prev, row, j, n, va, b);
  }

  /** The multiplication of `operator*=` (int2048_basic.hpp:775-798):
      A_Origin holds the n digits of this, b the m digits of B; the string
      is resized to n + m digits which receive the product, and carry is
      the last row's carry, the top digit. */
  method Schoolbook(aOrigin: seq<char>, n: int, b: seq<char>, m: int) returns (r: seq<char>, carry: int)
    requires 1 <= n <= |aOrigin| && 1 <= m <= |b| && AllDigits(aOrigin) && AllDigits(b)
    ensures |r| == n + m && AllDigits(r) && 0 <= carry < 10 && Dig(r[n + m - 1]) == carry
    ensures Val(r) == Val(aOrigin[..n]) * Val(b[..m])
  {
    ghost var va := Val(aOrigin[..n]);
    r := Resized(aOrigin, n + m);
    r, carry := ScaleRow(r, aOrigin, n, Dig(b[0]));
    LemmaRowsStart(r, n, va, b, carry);
    var j := 1;
    while j < m
      invariant 1 <= j <= m && |r| == n + m && RowsDone(r, n, j, va, b, carry)
    {
      LemmaRowWindow(r, j, n);
      var row, c := MulAddRow(r[j..], aOrigin, n, Dig(b[j]));
      LemmaRowDone(r, row, j, n, va, b, carry, c);
      r := r[..j] + row;
      carry := c;
      j := j + 1;
    }
    assert r[..n + m] == r;
  }

  // ---------------------------------------------------------------------
  // Trim and comparisons
  // ---------------------------------------------------------------------

  /** `while (BigInt[Length - 1] == '0' && Length > 1) --Length;`, which
      ends every subtraction, the string constructor and `operator/=`
      (int2048_basic.hpp:277-279, 143-145, 893-895): only '0' top digits
      are dropped, so the value is kept and the result is normalized. */
  method TrimTop(s: seq<char>, n: int) returns (m: int)
    requires Trimmable(s, n)
    ensures Normalized(s, m) && m <= n
    ensures Val(s[..m]) == Val(s[..n])
  {
    m := n;
    while s[m - 1] == '0' && m > 1
      invariant Trimmable(s, m) && m <= n
      invariant Val(s[..m]) == Val(s[..n])
    {
      LemmaValPrefix(s, m - 1);
      m := m - 1;
    }
  }

  /** The scan `for (int i = A.Length - 1; i >= 0; --i) if (A.BigInt[i] !=
      B.BigInt[i]) ...` of the ordering operators (int2048_basic.hpp:969-971,
      974-976 and their copies): the most significant position below n
      where a and b differ, or -1. */
  method HighestDifference(a: seq<char>, b: seq<char>, n: int) returns (k: int)
    requires 0 <= n <= |a| && n <= |b|
    ensures -1 <= k < n && a[k + 1..n] == b[k + 1..n] && (k >= 0 ==> a[k] != b[k])
  {
    k := n - 1;
    while k >= 0 && a[k] == b[k]
      invariant -1 <= k < n && a[k + 1..n] == b[k + 1..n]
    {
      assert a[k..n] == [a[k]] + a[k + 1..n] && b[k..n] == [b[k]] + b[k + 1..n];
      k := k - 1;
    }
  }

  /** The scan of `operator==` (int2048_basic.hpp:1003-1005): digits
      compared from the least significant up. */
  method SameDigits(a: seq<char>, b: seq<char>, n: int) returns (r: bool)
    requires 0 <= n <= |a| && n <= |b|
    ensures r <==> a[..n] == b[..n]
  {
    var i := 0;
    while i < n
      invariant 0 <= i <= n && a[..i] == b[..i]
    {
      if a[i] != b[i] {
        assert a[..n][i] != b[..n][i];
        return false;
      }
      assert a[..i + 1] == a[..i] + [a[i]] && b[..i + 1] == b[..i] + [b[i]];
      i := i + 1;
    }
    return true;
  }

  /** `AbsCompareLess` (int2048_basic.hpp:1053-1061): a window
      A[Start..End) and the first BLength digits of B. A different length
      decides by length alone; otherwise the digits decide, most
      significant first, and equal windows are not less. */
  method AbsCompareLess(a: seq<char>, start: int, end: int, b: seq<char>, bLength: int) returns (r: bool)
    requires 0 <= start && 0 <= bLength
    requires end - start == bLength ==> end <= |a| && bLength <= |b|
    ensures end - start != bLength ==> r == (end - start < bLength)
    ensures end - start == bLength && AllDigits(a[start..end]) && AllDigits(b[..bLength])
            ==> (r <==> Val(a[start..end]) < Val(b[..bLength]))
  {
    if end - start != bLength {
      return end - start < bLength;
    }
    var i := bLength - 1;
    while i >= 0
      invariant -1 <= i < bLength
      invariant forall k :: i < k < bLength ==> a[start + k] == b[k]
    {
      if a[start + i] != b[i] {
        LemmaWindowDecides(a, start, b, bLength, i);
        return a[start + i] < b[i];
      }
      i := i - 1;
    }
    LemmaWindowDecides(a, start, b, bLength, i);
    return false;
  }

  // ---------------------------------------------------------------------
  // The remainder window of repeated-subtraction division
  // ---------------------------------------------------------------------

  /** `AbsCompareLess(BigInt, i, Length, B.BigInt, B.Length)` as used by
      `operator/=` decides whether the window from i on is below the
      nonzero normalized B: a shorter window is smaller, a longer one
      larger, and equal lengths compare digit by digit. */
  lemma {:induction false} LemmaCompareWindow(rem: seq<char>, i: int, remLen: int, b: seq<char>, bl: int, less: bool)
    requires Normalized(rem, remLen) && 0 <= i <= |rem|
    requires Normalized(b, bl) && Val(b[..bl]) > 0
    requires remLen - i != bl ==> less == (remLen - i < bl)
    requires remLen - i == bl ==> (less <==> Val(rem[i..remLen]) < Val(b[..bl]))
    ensures less <==> Val(rem[i..]) < Val(b[..bl])
  {
    if remLen - i < bl {
      LemmaShortWindow(rem, i, remLen, b, bl);
    } else if remLen - i > bl {
      LemmaLongWindow(rem, i, remLen, b, bl);
    } else {
      var u := rem[i..];
      assert u[..bl] == rem[i..remLen];
      LemmaValSplit(u, bl);
      LemmaValZeros(u[bl..]);
    }
  }

  /** A window with fewer used digits than the nonzero normalized B is below it. */
  lemma {:induction false} LemmaShortWindow(rem: seq<char>, i: int, remLen: int, b: seq<char>, bl: int)
    requires Normalized(rem, remLen) && 0 <= i <= |rem| && remLen - i < bl
    requires Normalized(b, bl) && Val(b[..bl]) > 0
    ensures Val(rem[i..]) < Val(b[..bl])
  {
    var m := if remLen > i then remLen - i else 0;
    LemmaWindowBelow(rem, remLen, i);
    if bl > 1 {
      LemmaValTop(b[..bl]);
      LemmaPowMono(10, m, bl - 1);
    }
  }

  /** A window with more used digits than B is above it. */
  lemma {:induction false} LemmaLongWindow(rem: seq<char>, i: int, remLen: int, b: seq<char>, bl: int)
    requires Normalized(rem, remLen) && 0 <= i <= |rem| && remLen - i > bl
    requires Normalized(b, bl)
    ensures Val(rem[i..]) > Val(b[..bl])
  {
    var u, top := rem[i..], remLen - 1 - i;
    assert u[top] == rem[remLen - 1] != '0';
    LemmaValAtLeastDigit(u, top);
    LemmaMulLe(1, Dig(u[top]), Pow(10, top));
    LemmaPowMono(10, bl, top);
    LemmaTrimmableVal(b, bl);
  }

  /** When subtracting x from the window leaves a borrow after bl digits,
      the window is exactly bl + 1 digits long, so the borrow lands on
      BigInt[Length - 1], which is not '0'. */
  lemma {:induction false} LemmaBorrowTarget(rem: seq<char>, i: int, bl: int, remLen: int, x: int)
    requires Normalized(rem, remLen) && 0 <= i && 1 <= bl && i + bl < |rem|
    requires x <= Val(rem[i..]) < Pow(10, bl + 1)
    requires Val(rem[i..][..bl]) < x
    ensures remLen - 1 == i + bl && rem[remLen - 1] != '0'
  {
    var u := rem[i..];
    LemmaZeroAbove(u, bl + 1);
    LemmaTopDigit(u, bl);
    assert Dig(u[bl]) != 0;
    assert forall k :: i + bl < k < |rem| ==> rem[k] == u[k - i];
  }

  /** A digit string that is '0' above position k has the value of its
      first k digits plus digit k at weight 10^k. */
  lemma {:induction false} LemmaTopDigit(u: seq<char>, k: int)
    requires 0 <= k < |u| && forall j :: k < j < |u| ==> u[j] == '0'
    ensures Val(u) == Val(u[..k]) + Pow(10, k) * Dig(u[k])
  {
    LemmaValSplit(u, k);
    var hi := u[k..];
    LemmaValSplit(hi, 1);
    LemmaValZeros(hi[1..]);
    LemmaValSingle(hi[..1]);
  }

  /** SubtractWindow's borrow: it lands on the top used digit, which the
      subtraction loop left unchanged. */
  lemma {:induction false} LemmaBorrowLands(rem: seq<char>, i: int, b: seq<char>, bl: int, remLen: int, w: seq<char>)
    requires Normalized(rem, remLen) && 0 <= i && 1 <= bl <= |b| && i + bl <= |rem| && AllDigits(b)
    requires Val(b[..bl]) <= Val(rem[i..]) < Pow(10, bl + 1)
    requires |w| == |rem| - i && AllDigits(w) && w[bl..] == rem[i..][bl..]
    requires Val(w[..bl]) - Pow(10, bl) == Val(rem[i..][..bl]) - Val(b[..bl])
    ensures remLen - 1 == i + bl && w[bl] == rem[remLen - 1] && '1' <= w[bl] <= '9'
  {
    var u, x := rem[i..], Val(b[..bl]);
    LemmaValBounds(w[..bl]);
    assert Val(u[..bl]) < x;
    LemmaValSplit(u, bl);
    assert Val(u[bl..]) != 0;
    assert |u[bl..]| > 0;
    LemmaBorrowTarget(rem, i, bl, remLen, x);
    assert w[bl] == w[bl..][0] == u[bl..][0];
  }

  /** A window rewritten to a smaller value leaves a string that is still
      trimmable at the same length. */
  lemma {:induction false} LemmaWindowShrinks(rem: seq<char>, i: int, remLen: int, t: seq<char>)
    requires Trimmable(rem, remLen) && |t| == |rem| && 0 <= i <= |t| && t[..i] == rem[..i]
    requires AllDigits(t[i..]) && Val(t[i..]) <= Val(rem[i..])
    ensures Trimmable(t, remLen)
  {
    assert forall k :: 0 <= k < i ==> t[k] == rem[k] by {
      forall k | 0 <= k < i
        ensures t[k] == rem[k]
      {
        assert t[..i][k] == rem[..i][k];
      }
    }
    assert forall k :: i <= k < |t| ==> t[k] == t[i..][k - i];
    LemmaWindowBelow(rem, remLen, i);
    LemmaZeroAbove(t[i..], if remLen > i then remLen - i else 0);
  }

  /** Subtracting x from the window u digit by digit: with no borrow the
      difference is exact; with a borrow the digit above the subtracted
      ones gives up one unit. */
  lemma {:induction false} LemmaWindowDifference(u: seq<char>, w: seq<char>, bl: int, x: int, borrow: bool, c: char)
    requires 0 <= bl <= |u| == |w| && w[bl..] == u[bl..]
    requires Val(w[..bl]) - Bit(borrow) * Pow(10, bl) == Val(u[..bl]) - x
    ensures !borrow ==> Val(w) == Val(u) - x
    ensures borrow && bl < |w| && Dig(c) == Dig(w[bl]) - 1 ==> Val(w[bl := c]) == Val(u) - x
  {
    var p: int := Pow(10, bl);
    LemmaSharedHigh(u, w, bl);
    if !borrow {
      assert Bit(borrow) * p == 0;
    } else if bl < |w| && Dig(c) == Dig(w[bl]) - 1 {
      assert Bit(borrow) * p == p;
      LemmaValDecrement(w, bl, c);
    }
  }

  /** Lowering digit k by one lowers the value by 10^k. */
  lemma {:induction false} LemmaValDecrement(s: seq<char>, k: int, c: char)
    requires 0 <= k < |s| && Dig(c) == Dig(s[k]) - 1
    ensures Val(s[k := c]) == Val(s) - Pow(10, k)
  {
    LemmaValUpdate(s, k, c);
    assert Dig(c) - Dig(s[k]) == -1;
  }

  /** Two digit strings that agree from digit bl up differ in value by
      what their low bl digits differ by. */
  lemma {:induction false} LemmaSharedHigh(u: seq<char>, w: seq<char>, bl: int)
    requires 0 <= bl <= |u| == |w| && w[bl..] == u[bl..]
    ensures Val(w) - Val(u) == Val(w[..bl]) - Val(u[..bl])
  {
    LemmaValSplit(u, bl);
    LemmaValSplit(w, bl);
  }

  /** The in-place subtraction of `operator/=` (int2048_basic.hpp:876-886):
      B's bl digits are subtracted from the window of the remainder that
      starts at i, and a borrow left over is taken from
      `BigInt[Length - 1]`. The window must not be below B and must be less
      than 10^(bl+1); the digits below i are kept and the window holds the
      difference. */
  method SubtractWindow(rem: seq<char>, i: int, b: seq<char>, bl: int, remLen: int) returns (t: seq<char>)
    requires Normalized(rem, remLen) && 0 <= i && 1 <= bl <= |b| && i + bl <= |rem| && AllDigits(b)
    requires Val(b[..bl]) <= Val(rem[i..]) < Pow(10, bl + 1)
    ensures |t| == |rem| && t[..i] == rem[..i] && Trimmable(t, remLen)
    ensures Val(t[i..]) == Val(rem[i..]) - Val(b[..bl])
  {
    ghost var u, x := rem[i..], Val(b[..bl]);
    var w, borrow := SubtractDigits(rem[i..], b, bl);
    assert w[bl..] == u[bl..];
    t := rem[..i] + w;
    LemmaValBounds(b[..bl]);
    ghost var v := w;
    if borrow {
      LemmaBorrowLands(rem, i, b, bl, remLen, w);
      var c := (w[bl] as int - 1) as char;
      LemmaWindowDifference(u, w, bl, x, borrow, c);
      LemmaSpliceUpdate(rem[..i], w, bl, c);
      t := t[remLen - 1 := c];
      v := w[bl := c];
    } else {
      LemmaWindowDifference(u, w, bl, x, borrow, '0');
    }
    LemmaWindowResult(rem, i, remLen, x, v, t);
  }

  /** Replacing character j of w inside p + w. */
  lemma LemmaSpliceUpdate(p: seq<char>, w: seq<char>, j: int, c: char)
    requires 0 <= j < |w|
    ensures (p + w)[|p| + j := c] == p + w[j := c]
  {
  }

  /** The window of Rem from i on replaced by v, a reduction of it by x. */
  lemma LemmaWindowResult(rem: seq<char>, i: int, remLen: int, x: int, v: seq<char>, t: seq<char>)
    requires Trimmable(rem, remLen) && 0 <= i <= |rem| && |v| == |rem| - i && t == rem[..i] + v
    requires AllDigits(v) && 0 <= x && Val(v) == Val(rem[i..]) - x
    ensures |t| == |rem| && t[..i] == rem[..i] && Trimmable(t, remLen)
    ensures Val(t[i..]) == Val(rem[i..]) - x
  {
    assert t[i..] == v && t[..i] == rem[..i];
    LemmaWindowShrinks(rem, i, remLen, t);
  }

  // ---------------------------------------------------------------------
  // Literals
  // ---------------------------------------------------------------------

  /** The copy loop of the string constructor and `read`
      (int2048_basic.hpp:131-133, 139-141, 161-163, 172-174): the digits of
      s from lo on are stored reversed, `BigInt[i] = s[s.length() - 1 - i]`,
      into a string first resized to their count with '0'. */
  method ReversedDigits(s: seq<char>, lo: int) returns (r: seq<char>)
    requires 0 <= lo <= |s| && AllDigits(s[lo..])
    ensures |r| == |s| - lo && AllDigits(r)
    ensures forall k :: 0 <= k < |r| ==> r[k] == s[|s| - 1 - k]
    ensures Val(r) == DecimalValue(s[lo..])
  {
    var n := |s| - lo;
    r := Resized([], n);
    var i := 0;
    assert s[|s|..] == [];
    while i < n
      invariant 0 <= i <= n && |r| == n && AllDigits(r)
      invariant forall k :: 0 <= k < i ==> r[k] == s[|s| - 1 - k]
      invariant ReversedSoFar(r, s, i)
    {
      assert s[lo..][n - 1 - i] == s[|s| - 1 - i];
      LemmaReverseStep(s, r, i);
      r := r[i := s[|s| - 1 - i]];
      i := i + 1;
    }
    assert r[..n] == r && s[|s| - n..] == s[lo..];
  }

  /** The first i characters of r are the last i of s reversed, as values. */
  ghost predicate ReversedSoFar(r: seq<char>, s: seq<char>, i: int)
  {
    0 <= i <= |r| && i <= |s| && Val(r[..i]) == DecimalValue(s[|s| - i..])
  }

  /** Storing the character i places from the end of s at position i of r
      extends the reversed prefix of r to one more character. */
  lemma LemmaReverseStep(s: seq<char>, r: seq<char>, i: int)
    requires i < |r| && i < |s| && ReversedSoFar(r, s, i)
    ensures ReversedSoFar(r[i := s[|s| - 1 - i]], s, i + 1)
  {
    var r' := r[i := s[|s| - 1 - i]];
    assert r'[..i] == r[..i];
    LemmaValPrefix(r', i);
    LemmaDecimalFront(s[|s| - 1 - i..]);
    assert s[|s| - 1 - i..][1..] == s[|s| - i..];
  }

  /** The loop of `print` and `operator<<` (int2048_basic.hpp:184-187,
      958-960): the n used digits from the most significant down, which
      is the literal that denotes them. */
  method WrittenDigits(s: seq<char>, n: int) returns (body: seq<char>)
    requires 0 <= n <= |s|
    ensures |body| == n && forall k :: 0 <= k < n ==> body[k] == s[n - 1 - k]
    ensures DecimalValue(body) == Val(s[..n])
  {
    body := [];
    var i := n - 1;
    while i >= 0
      invariant -1 <= i < n && |body| == n - 1 - i
      invariant forall k :: 0 <= k < |body| ==> body[k] == s[n - 1 - k]
      invariant DecimalValue(body) == Val(s[i + 1..n])
    {
      var prev := body;
      body := body + [s[i]];
      assert body[..|prev|] == prev && body[|prev|] == s[i];
      LemmaValLowestDigit(s, i, n);
      i := i - 1;
    }
    assert s[0..n] == s[..n];
  }

  /** Reading digits[i..n) from the top: its lowest digit comes last. */
  lemma {:induction false} LemmaValLowestDigit(s: seq<char>, i: int, n: int)
    requires 0 <= i < n <= |s|
    ensures Val(s[i..n]) == Dig(s[i]) + 10 * Val(s[i + 1..n])
  {
    LemmaValSplit(s[i..n], 1);
    LemmaValSingle(s[i..n][..1]);
    assert s[i..n][1..] == s[i + 1..n];
  }
}
