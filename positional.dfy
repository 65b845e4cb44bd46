/** Positional notation shared by both engines.

    A magnitude is stored least significant limb first: the sequence s in
    radix r stands for s[0]·r^0 + s[1]·r^1 + ... + s[|s|-1]·r^(|s|-1).
    The compressed engine uses r = 10^9, the basic engine r = 10. */
module Positional {

  /** r^n; positive whenever the radix is. */
  function Pow(r: nat, n: nat): (p: nat)
    ensures r >= 1 ==> p >= 1
  {
    if n == 0 then 1 else r * Pow(r, n - 1)
  }

  /** The largest C++ `long long`, the widest integer both engines are
      constructed from. */
  const LongLongMax: int := 0x7FFF_FFFF_FFFF_FFFF

  /** A C++ `bool` carry or borrow flag promoted to an integer. */
  function Bit(b: bool): int
  {
    if b then 1 else 0
  }

  /** Every limb of s lies in [0, r). */
  ghost predicate InRange(s: seq<int>, r: nat)
  {
    forall i :: 0 <= i < |s| ==> 0 <= s[i] < r
  }

  /** Every limb of s is zero. */
  ghost predicate AllZero(s: seq<int>)
  {
    forall i :: 0 <= i < |s| ==> s[i] == 0
  }

  /** The number denoted by the little-endian limb sequence s in radix r. */
  ghost function Value(s: seq<int>, r: nat): int
  {
    if |s| == 0 then 0 else Value(s[..|s| - 1], r) + s[|s| - 1] * Pow(r, |s| - 1)
  }

  // ---------------------------------------------------------------------
  // Arithmetic building blocks
  // ---------------------------------------------------------------------

  lemma LemmaMulLe(a: int, b: int, c: int)
    requires a <= b && 0 <= c
    ensures a * c <= b * c
  {
    assert (b - a) * c >= 0;
  }

  lemma LemmaMulLt(a: int, b: int, c: int)
    requires a < b && 0 < c
    ensures a * c < b * c
  {
    LemmaMulLe(a + 1, b, c);
    LemmaMulDistrib(a, 1, c);
  }

  lemma LemmaMulDistrib(a: int, b: int, c: int)
    ensures (a + b) * c == a * c + b * c
  {
  }

  lemma LemmaMulAssoc(a: int, b: int, c: int)
    ensures a * (b * c) == (a * b) * c
  {
  }

  lemma LemmaScaleSum(w: int, x: int, d: int, y: int)
    ensures w * (x + d * y) == w * x + d * (w * y)
  {
  }

  lemma {:induction false} LemmaPowAdd(r: nat, a: nat, b: nat)
    ensures Pow(r, a + b) == Pow(r, a) * Pow(r, b)
  {
    if a > 0 {
      LemmaPowAdd(r, a - 1, b);
      assert Pow(r, a + b) == r * (Pow(r, a - 1) * Pow(r, b));
      LemmaMulAssoc(r, Pow(r, a - 1), Pow(r, b));
    }
  }

  lemma {:induction false} LemmaPowMono(r: nat, a: nat, b: nat)
    requires r >= 1 && a <= b
    ensures Pow(r, a) <= Pow(r, b)
  {
    if a < b {
      LemmaPowMono(r, a, b - 1);
      LemmaMulLe(1, r, Pow(r, b - 1));
    }
  }

  /** Euclidean division is determined by quotient and remainder. */
  lemma LemmaDivUnique(a: int, b: int, q: int, rem: int)
    requires 0 < b && a == q * b + rem && 0 <= rem < b
    ensures q == a / b && rem == a % b
  {
    var q', rem' := a / b, a % b;
    assert a == q' * b + rem' && 0 <= rem' < b;
    if q < q' {
      LemmaMulLe(q + 1, q', b);
      assert false;
    } else if q' < q {
      LemmaMulLe(q' + 1, q, b);
      assert false;
    }
  }

  lemma LemmaScaleLimb(d: int, v: int, x: int, p: int)
    ensures d * (v + x * p) == d * v + (d * x) * p
  {
    LemmaScaleSum(d, v, x, p);
  }

  /** Adding row j of a schoolbook product keeps the running total equal to
      a times the first j digits of b. */
  lemma LemmaRowStep(low: int, mid: int, row: int, a: int, vb: int, bj: int, p: int)
    requires low + p * mid == a * vb
    requires row == mid + bj * a
    ensures low + p * row == a * (vb + bj * p)
  {
    LemmaScaleSum(p, mid, bj, a);
    LemmaScaleSum(a, vb, bj, p);
  }

  /** One quotient step of long division: the window reduced by q·bv at
      weight p adds q·p to the quotient. */
  lemma LemmaDivStepArith(a: int, vq: int, bv: int, vb: int, va: int, lo: int, p: int, wb: int, wa: int, q: int)
    requires vb == lo + p * wb && va == lo + p * wa && wa == wb - q * bv && a == vq * bv + vb
    ensures a == (vq + q * p) * bv + va
  {
    assert p * wa == p * wb - p * (q * bv);
    assert p * (q * bv) == (q * p) * bv;
    LemmaMulDistrib(vq, q * p, bv);
  }

  // ---------------------------------------------------------------------
  // Value of a limb sequence
  // ---------------------------------------------------------------------

  /** Extending a prefix by one limb adds that limb at its weight. */
  lemma LemmaValuePrefix(s: seq<int>, k: nat, r: nat)
    requires k < |s|
    ensures Value(s[..k + 1], r) == Value(s[..k], r) + s[k] * Pow(r, k)
  {
    assert s[..k + 1][..k] == s[..k];
  }

  /** A limb sequence with limbs in [0, r) denotes a number in [0, r^|s|). */
  lemma {:induction false} LemmaValueBounds(s: seq<int>, r: nat)
    requires r >= 1 && InRange(s, r)
    ensures 0 <= Value(s, r) < Pow(r, |s|)
  {
    if |s| > 0 {
      var p := s[..|s| - 1];
      assert InRange(p, r);
      LemmaValueBounds(p, r);
      var d, w := s[|s| - 1], Pow(r, |s| - 1);
      assert Value(s, r) == Value(p, r) + d * w;
      assert Pow(r, |s|) == r * w;
      LemmaMulLe(0, d, w);
      LemmaMulLe(d, r - 1, w);
      LemmaMulDistrib(r - 1, 1, w);
    }
  }

  /** A limb sequence whose top limb is nonzero is at least r^(|s|-1). */
  lemma LemmaValueTop(s: seq<int>, r: nat)
    requires r >= 1 && InRange(s, r) && |s| >= 1 && s[|s| - 1] != 0
    ensures Value(s, r) >= Pow(r, |s| - 1)
  {
    var p := s[..|s| - 1];
    assert InRange(p, r);
    LemmaValueBounds(p, r);
    LemmaMulLe(1, s[|s| - 1], Pow(r, |s| - 1));
  }

  /** All-zero limbs denote zero. */
  lemma {:induction false} LemmaValueZeros(s: seq<int>, r: nat)
    requires AllZero(s)
    ensures Value(s, r) == 0
  {
    if |s| > 0 {
      assert AllZero(s[..|s| - 1]);
      LemmaValueZeros(s[..|s| - 1], r);
    }
  }

  /** Cutting s at k: the low part plus the high part scaled by r^k. */
  lemma {:induction false} LemmaValueSplit(s: seq<int>, k: nat, r: nat)
    requires k <= |s|
    ensures Value(s, r) == Value(s[..k], r) + Pow(r, k) * Value(s[k..], r)
  {
    if |s| == k {
      assert s[..k] == s;
      assert s[k..] == [];
    } else {
      var n := |s|;
      var p := s[..n - 1];
      LemmaValueSplit(p, k, r);
      assert p[..k] == s[..k];
      var hi := s[k..];
      assert hi[..|hi| - 1] == p[k..];
      assert hi[|hi| - 1] == s[n - 1];
      LemmaPowAdd(r, k, n - 1 - k);
      var w, x, d, y := Pow(r, k), Value(p[k..], r), s[n - 1], Pow(r, n - 1 - k);
      assert Value(hi, r) == x + d * y;
      assert Pow(r, n - 1) == w * y;
      LemmaScaleSum(w, x, d, y);
    }
  }

  /** Zero limbs at and above n do not contribute. */
  lemma LemmaValueZeroTail(s: seq<int>, n: nat, r: nat)
    requires n <= |s| && forall i :: n <= i < |s| ==> s[i] == 0
    ensures Value(s, r) == Value(s[..n], r)
  {
    LemmaValueSplit(s, n, r);
    assert AllZero(s[n..]);
    LemmaValueZeros(s[n..], r);
  }

  /** Each limb contributes at least its own weight. */
  lemma LemmaValueAtLeastLimb(s: seq<int>, k: nat, r: nat)
    requires r >= 1 && InRange(s, r) && k < |s|
    ensures Value(s, r) >= s[k] * Pow(r, k)
  {
    LemmaValueSplit(s, k + 1, r);
    LemmaValuePrefix(s, k, r);
    assert InRange(s[..k], r) && InRange(s[k + 1..], r);
    LemmaValueBounds(s[..k], r);
    LemmaValueBounds(s[k + 1..], r);
    LemmaMulLe(0, Value(s[k + 1..], r), Pow(r, k + 1));
    assert Value(s, r) == Value(s[..k], r) + s[k] * Pow(r, k) + Pow(r, k + 1) * Value(s[k + 1..], r);
  }

  /** A limb sequence that denotes zero has only zero limbs. */
  lemma LemmaValueZeroIsAllZero(s: seq<int>, r: nat)
    requires r >= 1 && InRange(s, r) && Value(s, r) == 0
    ensures AllZero(s)
  {
    forall k | 0 <= k < |s|
      ensures s[k] == 0
    {
      LemmaValueAtLeastLimb(s, k, r);
      if s[k] != 0 {
        LemmaMulLe(1, s[k], Pow(r, k));
      }
    }
  }

  /** Replacing limb k by v changes the value by (v - s[k])·r^k. */
  lemma LemmaValueUpdate(s: seq<int>, k: nat, v: int, r: nat)
    requires k < |s|
    ensures Value(s[k := v], r) == Value(s, r) + (v - s[k]) * Pow(r, k)
  {
    var t := s[k := v];
    LemmaValueSplit(s, k + 1, r);
    LemmaValueSplit(t, k + 1, r);
    LemmaValuePrefix(s, k, r);
    LemmaValuePrefix(t, k, r);
    assert t[..k] == s[..k];
    assert t[k + 1..] == s[k + 1..];
    var w, h := Pow(r, k), Pow(r, k + 1) * Value(s[k + 1..], r);
    assert Value(s, r) == Value(s[..k], r) + s[k] * w + h;
    assert Value(t, r) == Value(s[..k], r) + v * w + h;
    LemmaMulDistrib(v - s[k], s[k], w);
  }

  /** Most significant limb first: the highest limb where two equally long
      sequences differ decides their order. */
  lemma {:induction false} LemmaValueCompare(s: seq<int>, t: seq<int>, k: nat, r: nat)
    requires r >= 1 && InRange(s, r) && InRange(t, r)
    requires |s| == |t| && k < |s| && s[k + 1..] == t[k + 1..] && s[k] < t[k]
    ensures Value(s, r) < Value(t, r)
  {
    LemmaValueSplit(s, k + 1, r);
    LemmaValueSplit(t, k + 1, r);
    LemmaTopLimbDecides(s[..k + 1], t[..k + 1], r);
  }

  /** Two equally long sequences whose top limbs differ are ordered as
      those limbs are. */
  lemma LemmaTopLimbDecides(s: seq<int>, t: seq<int>, r: nat)
    requires r >= 1 && InRange(s, r) && InRange(t, r)
    requires |s| == |t| >= 1 && s[|s| - 1] < t[|t| - 1]
    ensures Value(s, r) < Value(t, r)
  {
    var k := |s| - 1;
    var p, q := s[..k], t[..k];
    assert InRange(p, r) && InRange(q, r);
    LemmaValueBounds(p, r);
    LemmaValueBounds(q, r);
    var w: int := Pow(r, k);
    LemmaValuePrefix(s, k, r);
    LemmaValuePrefix(t, k, r);
    assert s[..k + 1] == s && t[..k + 1] == t;
    LemmaMulLe(s[k] + 1, t[k], w);
    LemmaMulDistrib(s[k], 1, w);
  }

  /** A shorter sequence is smaller than a longer one whose top limb is nonzero. */
  lemma LemmaShorterIsSmaller(s: seq<int>, t: seq<int>, r: nat)
    requires r >= 1 && InRange(s, r) && InRange(t, r)
    requires |s| < |t| && t[|t| - 1] != 0
    ensures Value(s, r) < Value(t, r)
  {
    LemmaValueBounds(s, r);
    LemmaPowMono(r, |s|, |t| - 1);
    LemmaValueTop(t, r);
  }

  /** One step of a carry (or borrow, with negative carries) chain: limb i was
      written as d + cin, reduced by cout·r. */
  lemma LemmaCarryStep(s: seq<int>, i: nat, r: nat, cin: int, cout: int, d: int)
    requires i < |s| && s[i] + cout * r == d + cin
    ensures Value(s[..i + 1], r) + cout * Pow(r, i + 1)
         == Value(s[..i], r) + cin * Pow(r, i) + d * Pow(r, i)
  {
    LemmaValuePrefix(s, i, r);
    var w := Pow(r, i);
    assert Pow(r, i + 1) == r * w;
    LemmaMulAssoc(cout, r, w);
    LemmaMulDistrib(s[i], cout * r, w);
    LemmaMulDistrib(d, cin, w);
  }

  /** A sequence with limbs in range whose value reaches r^(|s|-1) has a
      nonzero top limb. */
  lemma LemmaTopNonzero(s: seq<int>, r: nat)
    requires r >= 1 && InRange(s, r) && |s| >= 1 && Value(s, r) >= Pow(r, |s| - 1)
    ensures s[|s| - 1] != 0
  {
    if s[|s| - 1] == 0 {
      assert InRange(s[..|s| - 1], r);
      LemmaValueBounds(s[..|s| - 1], r);
    }
  }

  /** A single limb denotes itself. */
  lemma LemmaValueSingle(s: seq<int>, r: nat)
    requires |s| == 1
    ensures Value(s, r) == s[0]
  {
  }

  /** The lowest limb plus r times the rest. */
  lemma LemmaValueLowest(s: seq<int>, r: nat)
    requires |s| >= 1
    ensures Value(s, r) == s[0] + r * Value(s[1..], r)
  {
    LemmaValueSplit(s, 1, r);
    LemmaValueSingle(s[..1], r);
  }

  /** A product of a value of n digits and one of m digits, both without
      a leading zero, reaches r^(n+m-2). */
  lemma LemmaProductLower(r: nat, a: int, b: int, n: int, m: int)
    requires 1 <= n && 1 <= m && a >= Pow(r, n - 1) && b >= Pow(r, m - 1)
    ensures a * b >= Pow(r, n + m - 2)
  {
    LemmaPowAdd(r, n - 1, m - 1);
    LemmaMulLe(Pow(r, n - 1), a, Pow(r, m - 1));
    LemmaMulLe(Pow(r, m - 1), b, a);
  }

  // ---------------------------------------------------------------------
  // Most-significant-first comparison
  // ---------------------------------------------------------------------

  /** s and t are equally long and, at the most significant position where
      they differ, s holds the smaller limb. */
  ghost predicate LexLess(s: seq<int>, t: seq<int>)
  {
    |s| == |t| && exists k :: 0 <= k < |s| && s[k] < t[k] && s[k + 1..] == t[k + 1..]
  }

  /** When s and t agree above position i and differ at i, position i decides. */
  lemma LemmaLexLessAt(s: seq<int>, t: seq<int>, i: nat)
    requires |s| == |t| && i < |s| && s[i] != t[i] && s[i + 1..] == t[i + 1..]
    ensures LexLess(s, t) <==> s[i] < t[i]
  {
    if LexLess(s, t) {
      var k :| 0 <= k < |s| && s[k] < t[k] && s[k + 1..] == t[k + 1..];
      if k > i {
        assert s[i + 1..][k - i - 1] == t[i + 1..][k - i - 1];
      }
    }
  }

  /** Equally long s and t that agree above position i: when they differ
      at i, position i decides both the lexicographic and the value order;
      when i is -1 they are equal. */
  lemma {:induction false} LemmaValueDecides(s: seq<int>, t: seq<int>, i: int, r: nat)
    requires r >= 1 && InRange(s, r) && InRange(t, r) && |s| == |t| && -1 <= i < |s|
    requires forall k :: i < k < |s| ==> s[k] == t[k]
    requires i >= 0 ==> s[i] != t[i]
    ensures i >= 0 ==> (Value(s, r) < Value(t, r) <==> s[i] < t[i]) && Value(s, r) != Value(t, r)
    ensures i >= 0 ==> (LexLess(s, t) <==> s[i] < t[i])
    ensures i < 0 ==> s == t && !LexLess(s, t)
  {
    if i >= 0 {
      assert s[i + 1..] == t[i + 1..];
      LemmaLexLessAt(s, t, i);
      if s[i] < t[i] {
        LemmaValueCompare(s, t, i, r);
      } else {
        LemmaValueCompare(t, s, i, r);
      }
    } else {
      assert s == t;
      LemmaLexLessIrreflexive(s);
    }
  }

  /** No sequence is lexicographically below itself. */
  lemma LemmaLexLessIrreflexive(s: seq<int>)
    ensures !LexLess(s, s)
  {
  }

  /** Equally long sequences that differ have a most significant difference. */
  lemma {:induction false} LemmaHighestDifference<T>(s: seq<T>, t: seq<T>) returns (k: nat)
    requires |s| == |t| && s != t
    ensures k < |s| && s[k] != t[k] && s[k + 1..] == t[k + 1..]
  {
    var n := |s|;
    if s[n - 1] != t[n - 1] {
      k := n - 1;
    } else {
      assert s == s[..n - 1] + [s[n - 1]] && t == t[..n - 1] + [t[n - 1]];
      k := LemmaHighestDifference(s[..n - 1], t[..n - 1]);
      assert s[k + 1..] == s[..n - 1][k + 1..] + [s[n - 1]];
      assert t[k + 1..] == t[..n - 1][k + 1..] + [t[n - 1]];
    }
  }

  /** For limbs in range, most-significant-first comparison is comparison
      of values. */
  lemma LemmaLexLessIsValueLess(s: seq<int>, t: seq<int>, r: nat)
    requires r >= 1 && InRange(s, r) && InRange(t, r) && |s| == |t|
    ensures LexLess(s, t) <==> Value(s, r) < Value(t, r)
  {
    if s == t {
      LemmaLexLessIrreflexive(s);
    } else {
      var k := LemmaHighestDifference(s, t);
      LemmaLexLessAt(s, t, k);
      if s[k] < t[k] {
        LemmaValueCompare(s, t, k, r);
      } else {
        LemmaValueCompare(t, s, k, r);
      }
    }
  }

  /** The first |p| + m elements of p + w are p followed by w[..m]. */
  lemma LemmaSpliceWindow<T>(p: seq<T>, w: seq<T>, m: nat)
    requires m <= |w|
    ensures (p + w)[..|p| + m][..|p|] == p && (p + w)[..|p| + m][|p|..] == w[..m]
  {
    var x := (p + w)[..|p| + m];
    assert forall k :: 0 <= k < |p| ==> x[..|p|][k] == p[k];
    assert forall k :: 0 <= k < m ==> x[|p|..][k] == w[k];
  }

  /** Two sequences that agree on [lo, hi) gain the same amount from
      their first lo limbs to their first hi limbs. */
  lemma LemmaValueSharedSpan(s: seq<int>, t: seq<int>, lo: nat, hi: nat, r: nat)
    requires lo <= hi <= |s| && hi <= |t| && s[lo..hi] == t[lo..hi]
    ensures Value(s[..hi], r) - Value(s[..lo], r) == Value(t[..hi], r) - Value(t[..lo], r)
  {
    LemmaValueSplit(s[..hi], lo, r);
    LemmaValueSplit(t[..hi], lo, r);
    assert s[..hi][..lo] == s[..lo] && s[..hi][lo..] == s[lo..hi];
    assert t[..hi][..lo] == t[..lo] && t[..hi][lo..] == t[lo..hi];
  }
}
