/** The limb-vector routines of the compressed engine (int2048.hpp).

    A `std::vector<long long>` is a sequence of ints; every routine returns
    the rewritten vector. Each is one loop of the source: the carry and
    borrow chains of `_simple_add`, `_simple_minus` and
    `_reversed_simple_minus`, the rows of `operator*=` and
    `_single_multiply`, the leading-zero trim of `_resize` and `operator/=`,
    and the windowed `AbsCompareLess`. */
module Limbs {
  import opened Positional

  /** Max in int2048.hpp: one limb holds nine decimal digits. */
  const Base: int := 1_000_000_000

  /** The first n limbs of s are in use: every limb is in [0, Base) and
      every slot from n on holds zero. */
  ghost predicate Trimmable(s: seq<int>, n: int)
  {
    1 <= n <= |s| && InRange(s, Base) && forall k :: n <= k < |s| ==> s[k] == 0
  }

  /** Trimmable, and the top used limb is nonzero unless only one is used. */
  ghost predicate Normalized(s: seq<int>, n: int)
  {
    Trimmable(s, n) && (n == 1 || s[n - 1] != 0)
  }

  /** `std::vector::resize(n, 0)`: truncate, or pad with zeros. */
  function Resized(s: seq<int>, n: nat): (r: seq<int>)
    ensures |r| == n
    ensures forall k :: 0 <= k < n ==> r[k] == if k < |s| then s[k] else 0
  {
    if n <= |s| then s[..n] else s + seq(n - |s|, _ => 0)
  }

  /** n zero limbs. */
  function Zeros(n: nat): (r: seq<int>)
    ensures |r| == n && AllZero(r)
  {
    seq(n, _ => 0)
  }

  // ---------------------------------------------------------------------
  // Arithmetic facts about one limb step
  // ---------------------------------------------------------------------

  /** One limb times one limb plus two limbs fits in [0, Base²), and Base²
      fits in a `long long`. */
  lemma LemmaLimbProduct(x: int, y: int, c1: int, c2: int)
    requires 0 <= x < Base && 0 <= y < Base && 0 <= c1 < Base && 0 <= c2 < Base
    ensures 0 <= x * y + c1 + c2 < Base * Base <= LongLongMax
  {
    LemmaMulLe(0, x, y);
    LemmaMulLe(x, Base - 1, y);
    LemmaMulLe(y, Base - 1, Base - 1);
    assert (Base - 1) * y <= (Base - 1) * (Base - 1);
  }

  /** Splitting t in [0, Base²) into a carry and a limb. */
  lemma LemmaSplitLimb(t: int)
    requires 0 <= t < Base * Base
    ensures 0 <= t / Base < Base && 0 <= t % Base < Base
    ensures t % Base + (t / Base) * Base == t
  {
  }

  /** One step of a borrow chain computing s - t into r. */
  lemma LemmaBorrowStep(r: seq<int>, s: seq<int>, t: seq<int>, i: nat, bin: bool, bout: bool)
    requires i < |r| && i < |s| && i < |t|
    requires r[i] - Bit(bout) * Base == s[i] - t[i] - Bit(bin)
    ensures Value(r[..i + 1], Base) - Bit(bout) * Pow(Base, i + 1)
         == Value(r[..i], Base) - Bit(bin) * Pow(Base, i)
          + (Value(s[..i + 1], Base) - Value(s[..i], Base)) - (Value(t[..i + 1], Base) - Value(t[..i], Base))
  {
    var p, q: int := Pow(Base, i), Pow(Base, i + 1);
    var bi, bo := Bit(bin), Bit(bout);
    LemmaCarryStep(r, i, Base, -bi, -bo, s[i] - t[i]);
    assert (-bi) * p == -(bi * p) && (-bo) * q == -(bo * q);
    LemmaValuePrefix(s, i, Base);
    LemmaValuePrefix(t, i, Base);
    LemmaMulDistrib(s[i] - t[i], t[i], p);
  }

  /** One limb of `_simple_add`: x + y + carry, reduced below Base with
      the carry out set when it reaches Base. */
  method AddLimb(x: int, y: int, cin: bool) returns (z: int, cout: bool)
    requires 0 <= x < Base && 0 <= y < Base
    ensures 0 <= z < Base && z + Bit(cout) * Base == x + y + Bit(cin)
  {
    z := x + y + Bit(cin);
    if z >= Base {
      z, cout := z - Base, true;
    } else {
      cout := false;
    }
  }

  /** One limb of `_simple_minus`: x - y - borrow, raised into [0, Base)
      with the borrow out set when it is negative. */
  method SubtractLimb(x: int, y: int, bin: bool) returns (z: int, bout: bool)
    requires 0 <= x < Base && 0 <= y < Base
    ensures 0 <= z < Base && z - Bit(bout) * Base == x - y - Bit(bin)
  {
    z := x - y - Bit(bin);
    if z < 0 {
      z, bout := z + Base, true;
    } else {
      bout := false;
    }
  }

  /** One step of a carry chain computing s + t into r. */
  lemma {:induction false} LemmaAddStep(r: seq<int>, s: seq<int>, t: seq<int>, i: nat, cin: bool, cout: bool)
    requires i < |r| && i < |s| && i < |t|
    requires r[i] + Bit(cout) * Base == s[i] + t[i] + Bit(cin)
    requires Value(r[..i], Base) + Bit(cin) * Pow(Base, i) == Value(s[..i], Base) + Value(t[..i], Base)
    ensures Value(r[..i + 1], Base) + Bit(cout) * Pow(Base, i + 1) == Value(s[..i + 1], Base) + Value(t[..i + 1], Base)
  {
    LemmaCarryStep(r, i, Base, Bit(cin), Bit(cout), s[i] + t[i]);
    LemmaValuePrefix(s, i, Base);
    LemmaValuePrefix(t, i, Base);
    LemmaMulDistrib(s[i], t[i], Pow(Base, i));
  }

  /** Limbs 0 .. i-1 of r plus the carry pending at limb i equal s over
      those limbs plus the carry total that entered the run. */
  ghost predicate RunSoFar(r: seq<int>, s: seq<int>, i: int, cin: int, total: int)
  {
    0 <= i <= |r| && i <= |s| && Value(r[..i], Base) + cin * Pow(Base, i) == Value(s[..i], Base) + total
  }

  /** One step of a carry running through s into r: limb i becomes c. */
  lemma {:induction false} LemmaRunStep(r: seq<int>, s: seq<int>, i: int, cin: int, cout: int, total: int, c: int)
    requires 0 <= i < |r| && i < |s| && c + cout * Base == s[i] + cin
    requires RunSoFar(r, s, i, cin, total)
    ensures RunSoFar(r[i := c], s, i + 1, cout, total)
  {
    var r' := r[i := c];
    assert r'[..i] == r[..i];
    LemmaCarryStep(r', i, Base, cin, cout, s[i]);
    LemmaValuePrefix(s, i, Base);
  }

  /** Limbs 0 .. i-1 of r minus the borrow pending at limb i equal s over
      those limbs minus the borrow total that entered the run. */
  ghost predicate BorrowSoFar(r: seq<int>, s: seq<int>, i: int, bin: int, total: int)
  {
    0 <= i <= |r| && i <= |s| && Value(r[..i], Base) - bin * Pow(Base, i) == Value(s[..i], Base) - total
  }

  /** One step of a borrow running through s into r: limb i becomes c. */
  lemma {:induction false} LemmaBorrowRunStep(r: seq<int>, s: seq<int>, i: int, bin: int, bout: int, total: int, c: int)
    requires 0 <= i < |r| && i < |s| && c - bout * Base == s[i] - bin
    requires BorrowSoFar(r, s, i, bin, total)
    ensures BorrowSoFar(r[i := c], s, i + 1, bout, total)
  {
    var r' := r[i := c];
    assert r'[..i] == r[..i];
    LemmaCarryStep(r', i, Base, -bin, -bout, s[i]);
    LemmaValuePrefix(s, i, Base);
    assert (-bin) * Pow(Base, i) == -(bin * Pow(Base, i));
    assert (-bout) * Pow(Base, i + 1) == -(bout * Pow(Base, i + 1));
  }

  // ---------------------------------------------------------------------
  // Carry and borrow chains
  // ---------------------------------------------------------------------

  /** The first loop of `_simple_add` (int2048.hpp:254-262, 279-287):
      s[i] + t[i] + carry for i < n, reduced below Base. */
  method AddLimbs(s: seq<int>, t: seq<int>, n: int) returns (r: seq<int>, carry: bool)
    requires 0 <= n <= |s| && n <= |t| && InRange(s, Base) && InRange(t, Base)
    ensures |r| == |s| && InRange(r, Base) && forall k :: n <= k < |s| ==> r[k] == s[k]
    ensures Value(r[..n], Base) + Bit(carry) * Pow(Base, n) == Value(s[..n], Base) + Value(t[..n], Base)
  {
    r, carry := s, false;
    var i := 0;
    while i < n
      invariant 0 <= i <= n && |r| == |s| && InRange(r, Base)
      invariant forall k :: i <= k < |s| ==> r[k] == s[k]
      invariant Value(r[..i], Base) + Bit(carry) * Pow(Base, i) == Value(s[..i], Base) + Value(t[..i], Base)
    {
      var prev, cin := r, carry;
      var z;
      z, carry := AddLimb(r[i], t[i], carry);
      r := r[i := z];
      assert r[..i] == prev[..i];
      LemmaAddStep(r, s, t, i, cin, carry);
      i := i + 1;
    }
  }

  /** The second loop of `_simple_add` (int2048.hpp:263-271): the carry
      runs through limbs lo .. hi-1 of the longer operand. */
  method PropagateCarry(s: seq<int>, lo: int, hi: int, cin: bool) returns (r: seq<int>, carry: bool)
    requires 0 <= lo <= hi <= |s| && InRange(s, Base)
    ensures |r| == |s| && InRange(r, Base)
    ensures forall k :: 0 <= k < |s| && !(lo <= k < hi) ==> r[k] == s[k]
    ensures Value(r[..hi], Base) + Bit(carry) * Pow(Base, hi) == Value(s[..hi], Base) + Bit(cin) * Pow(Base, lo)
  {
    r, carry := s, cin;
    var i := lo;
    ghost var total := Bit(cin) * Pow(Base, lo);
    while i < hi
      invariant lo <= i <= hi && |r| == |s|
      invariant forall k :: 0 <= k < lo ==> r[k] == s[k]
      invariant forall k :: lo <= k < i ==> 0 <= r[k] < Base
      invariant forall k :: i <= k < |s| ==> r[k] == s[k]
      invariant RunSoFar(r, s, i, Bit(carry), total)
    {
      var c := carry;
      var z;
      z, carry := AddLimb(r[i], 0, carry);
      LemmaRunStep(r, s, i, Bit(c), Bit(carry), total, z);
      r := r[i := z];
      i := i + 1;
    }
  }

  /** The first loop of `_simple_minus` (int2048.hpp:300-308), also the
      window subtraction of `operator/=` (int2048.hpp:537-545):
      s[i] - t[i] - borrow for i < n, raised into [0, Base). */
  method SubtractLimbs(s: seq<int>, t: seq<int>, n: int) returns (r: seq<int>, borrow: bool)
    requires 0 <= n <= |s| && n <= |t| && InRange(s, Base) && InRange(t[..n], Base)
    ensures |r| == |s| && InRange(r, Base) && forall k :: n <= k < |s| ==> r[k] == s[k]
    ensures Value(r[..n], Base) - Bit(borrow) * Pow(Base, n) == Value(s[..n], Base) - Value(t[..n], Base)
  {
    r, borrow := s, false;
    var i := 0;
    while i < n
      invariant 0 <= i <= n && |r| == |s| && InRange(r, Base)
      invariant forall k :: i <= k < |s| ==> r[k] == s[k]
      invariant Value(r[..i], Base) - Bit(borrow) * Pow(Base, i) == Value(s[..i], Base) - Value(t[..i], Base)
    {
      var prev, bin := r, borrow;
      assert t[..n][i] == t[i];
      var z;
      z, borrow := SubtractLimb(r[i], t[i], borrow);
      r := r[i := z];
      assert r[..i] == prev[..i];
      LemmaBorrowStep(r, s, t, i, bin, borrow);
      i := i + 1;
    }
  }

  /** The second loop of `_simple_minus` (int2048.hpp:309-317): the borrow
      runs through limbs lo .. hi-1. */
  method PropagateBorrow(s: seq<int>, lo: int, hi: int, bin: bool) returns (r: seq<int>, borrow: bool)
    requires 0 <= lo <= hi <= |s| && InRange(s, Base)
    ensures |r| == |s| && InRange(r, Base)
    ensures forall k :: 0 <= k < |s| && !(lo <= k < hi) ==> r[k] == s[k]
    ensures Value(r[..hi], Base) - Bit(borrow) * Pow(Base, hi) == Value(s[..hi], Base) - Bit(bin) * Pow(Base, lo)
  {
    r, borrow := s, bin;
    var i := lo;
    ghost var total := Bit(bin) * Pow(Base, lo);
    while i < hi
      invariant lo <= i <= hi && |r| == |s|
      invariant forall k :: 0 <= k < lo ==> r[k] == s[k]
      invariant forall k :: lo <= k < i ==> 0 <= r[k] < Base
      invariant forall k :: i <= k < |s| ==> r[k] == s[k]
      invariant BorrowSoFar(r, s, i, Bit(borrow), total)
    {
      var c := borrow;
      var z;
      z, borrow := SubtractLimb(r[i], 0, borrow);
      LemmaBorrowRunStep(r, s, i, Bit(c), Bit(borrow), total, z);
      r := r[i := z];
      i := i + 1;
    }
  }

  /** The loop of `_reversed_simple_minus` (int2048.hpp:326-334):
      t[i] - s[i] - borrow for i < n. */
  method ReverseSubtractLimbs(s: seq<int>, t: seq<int>, n: int) returns (r: seq<int>, borrow: bool)
    requires 0 <= n <= |s| && n <= |t| && InRange(s, Base) && InRange(t, Base)
    ensures |r| == |s| && InRange(r, Base) && forall k :: n <= k < |s| ==> r[k] == s[k]
    ensures Value(r[..n], Base) - Bit(borrow) * Pow(Base, n) == Value(t[..n], Base) - Value(s[..n], Base)
  {
    r, borrow := s, false;
    var i := 0;
    while i < n
      invariant 0 <= i <= n && |r| == |s| && InRange(r, Base)
      invariant forall k :: i <= k < |s| ==> r[k] == s[k]
      invariant Value(r[..i], Base) - Bit(borrow) * Pow(Base, i) == Value(t[..i], Base) - Value(s[..i], Base)
    {
      var prev, bin := r, borrow;
      var z;
      z, borrow := SubtractLimb(t[i], r[i], borrow);
      r := r[i := z];
      assert r[..i] == prev[..i];
      LemmaBorrowStep(r, t, s, i, bin, borrow);
      i := i + 1;
    }
  }

  // ---------------------------------------------------------------------
  // Rows of a product
  // ---------------------------------------------------------------------

  /** The accumulator `temp = x * y + c1 + c2` of the product loops, split
      into the limb kept, `temp % Base`, and the carry, `temp / Base`. The
      accumulator stays inside a `long long`. */
  method SplitLimb(x: int, y: int, c1: int, c2: int) returns (low: int, high: int)
    requires 0 <= x < Base && 0 <= y < Base && 0 <= c1 < Base && 0 <= c2 < Base
    ensures 0 <= low < Base && 0 <= high < Base && low + high * Base == x * y + c1 + c2
  {
    LemmaLimbProduct(x, y, c1, c2);
    var temp := x * y + c1 + c2;
    assert temp <= LongLongMax;
    LemmaSplitLimb(temp);
    low, high := temp % Base, temp / Base;
  }

  /** One step of a scaling loop: limb i of r takes the low part of
      d·a[i] + cin and cout carries the high part. */
  lemma {:induction false} LemmaScaleStep(r: seq<int>, a: seq<int>, i: nat, d: int, cin: int, cout: int)
    requires i < |r| && i < |a| && r[i] + cout * Base == d * a[i] + cin
    requires Value(r[..i], Base) + cin * Pow(Base, i) == d * Value(a[..i], Base)
    ensures Value(r[..i + 1], Base) + cout * Pow(Base, i + 1) == d * Value(a[..i + 1], Base)
  {
    LemmaCarryStep(r, i, Base, cin, cout, d * a[i]);
    LemmaValuePrefix(a, i, Base);
    LemmaScaleLimb(d, Value(a[..i], Base), a[i], Pow(Base, i));
  }

  /** Limbs 0 .. i-1 of the row r, with the carry out of limb i-1, hold
      the old window s plus d·a over those limbs. */
  ghost predicate RowSoFar(r: seq<int>, s: seq<int>, a: seq<int>, i: int, d: int, carry: int)
  {
    0 <= i <= |r| && i <= |s| && i <= |a|
    && Value(r[..i], Base) + carry * Pow(Base, i) == Value(s[..i], Base) + d * Value(a[..i], Base)
  }

  /** One step of a multiply-accumulate loop: limb i of r takes the low
      part of a[i]·d + cin + s[i] and cout carries the high part. */
  lemma {:induction false} LemmaMulAddStep(r: seq<int>, s: seq<int>, a: seq<int>, i: int, d: int,
                                           cin: int, cout: int, c: int)
    requires 0 <= i < |r| && i < |s| && i < |a| && c + cout * Base == a[i] * d + cin + s[i]
    requires RowSoFar(r, s, a, i, d, cin)
    ensures RowSoFar(r[i := c], s, a, i + 1, d, cout)
  {
    var r' := r[i := c];
    assert r'[..i] == r[..i];
    LemmaCarryStep(r', i, Base, cin, cout, a[i] * d + s[i]);
    LemmaValuePrefix(a, i, Base);
    LemmaValuePrefix(s, i, Base);
    LemmaScaleLimb(d, Value(a[..i], Base), a[i], Pow(Base, i));
    LemmaMulDistrib(a[i] * d, s[i], Pow(Base, i));
  }

  /** The loop of `_single_multiply` (int2048.hpp:792-798) and the first row
      of `operator*=` (int2048.hpp:429-438): limbs 0 .. n of r receive
      d·a[..n], the top one being the final carry. Every intermediate
      `d * a[k] + carry` stays below Base², hence inside a `long long`. */
  method ScaleRow(s: seq<int>, a: seq<int>, n: int, d: int) returns (r: seq<int>, carry: int)
    requires 0 <= n < |s| && n <= |a| && InRange(a, Base) && 0 <= d < Base
    ensures |r| == |s| && InRange(r[..n + 1], Base) && r[n] == carry
    ensures forall k :: n < k < |s| ==> r[k] == s[k]
    ensures Value(r[..n + 1], Base) == d * Value(a[..n], Base)
  {
    r, carry := s, 0;
    var i := 0;
    while i < n
      invariant 0 <= i <= n && |r| == |s| && InRange(r[..i], Base) && 0 <= carry < Base
      invariant forall k :: i <= k < |s| ==> r[k] == s[k]
      invariant Value(r[..i], Base) + carry * Pow(Base, i) == d * Value(a[..i], Base)
    {
      var prev, cin := r, carry;
      var low;
      low, carry := SplitLimb(d, a[i], carry, 0);
      r := r[i := low];
      assert r[..i] == prev[..i];
      LemmaScaleStep(r, a, i, d, cin, carry);
      i := i + 1;
    }
    var prev := r;
    r := r[n := carry];
    assert r[..n] == prev[..n];
    LemmaValuePrefix(r, n, Base);
  }

  /** One inner loop of `operator*=` (int2048.hpp:441-448) on the window
      of the result that starts at the current digit of B: limbs 0 .. n of
      the window become its old value plus d·a[..n]. The accumulator
      `a[k] * d + carry + s[k]` stays below Base², inside a `long long`. */
  method MulAddRow(s: seq<int>, a: seq<int>, n: int, d: int) returns (r: seq<int>, carry: int)
    requires 0 <= n < |s| && n <= |a| && InRange(a, Base) && InRange(s[..n], Base) && 0 <= d < Base
    ensures |r| == |s| && InRange(r[..n + 1], Base) && r[n] == carry
    ensures forall k :: n < k < |s| ==> r[k] == s[k]
    ensures Value(r[..n + 1], Base) == Value(s[..n], Base) + d * Value(a[..n], Base)
  {
    r, carry := s, 0;
    var i := 0;
    while i < n
      invariant 0 <= i <= n && |r| == |s| && 0 <= carry < Base
      invariant forall k :: 0 <= k < i ==> 0 <= r[k] < Base
      invariant forall k :: i <= k < |s| ==> r[k] == s[k]
      invariant RowSoFar(r, s, a, i, d, carry)
    {
      var cin := carry;
      assert s[..n][i] == s[i];
      var low;
      low, carry := SplitLimb(a[i], d, carry, r[i]);
      LemmaMulAddStep(r, s, a, i, d, cin, carry, low);
      r := r[i := low];
      i := i + 1;
    }
    var prev := r;
    r := r[n := carry];
    assert r[..n] == prev[..n];
    LemmaValuePrefix(r, n, Base);
  }

  /** Splicing row j (computed on the window of prev from j on) back into
      prev extends the product by a·b[j]·Base^j. */
  lemma LemmaSchoolbookRow(prev: seq<int>, row: seq<int>, j: nat, n: nat, va: int, b: seq<int>)
    requires j < |b| && n + j < |prev| && |row| == |prev| - j
    requires Value(prev[..n + j], Base) == va * Value(b[..j], Base)
    requires Value(row[..n + 1], Base) == Value(prev[j..][..n], Base) + b[j] * va
    ensures Value((prev[..j] + row)[..n + j + 1], Base) == va * Value(b[..j + 1], Base)
  {
    var r := prev[..j] + row;
    assert prev[j..][..n] == prev[j..n + j];
    LemmaSpliceWindow(prev[..j], row, n + 1);
    LemmaValueSplit(r[..n + j + 1], j, Base);
    LemmaValueSplit(prev[..n + j], j, Base);
    assert prev[..n + j][..j] == prev[..j] && prev[..n + j][j..] == prev[j..n + j];
    LemmaValuePrefix(b, j, Base);
    LemmaRowStep(Value(prev[..j], Base), Value(prev[j..n + j], Base), Value(row[..n + 1], Base),
                 va, Value(b[..j], Base), b[j], Pow(Base, j));
  }

  /** The state of `operator*=` after rows 0 .. j-1: the first n + j limbs
      are in range, the last of them is the last row's carry, and they
      hold the n-limb factor times the first j limbs of b. */
  ghost predicate RowsDone(r: seq<int>, n: int, j: int, va: int, b: seq<int>, carry: int)
  {
    1 <= j <= |b| && 0 <= n && n + j <= |r| && InRange(r[..n + j], Base) && r[n + j - 1] == carry
    && Value(r[..n + j], Base) == va * Value(b[..j], Base)
  }

  /** Row 0, the factor scaled by b[0], starts the state. */
  lemma LemmaRowsStart(r: seq<int>, n: nat, va: int, b: seq<int>, carry: int)
    requires 1 <= |b| && n < |r| && InRange(r[..n + 1], Base) && r[n] == carry
    requires Value(r[..n + 1], Base) == b[0] * va
    ensures RowsDone(r, n, 1, va, b, carry)
  {
    assert b[..1] == [b[0]];
    LemmaValuePrefix(b, 0, Base);
    assert b[..0] == [];
  }

  /** Row j added into the window at j and spliced back extends the
      state by one row. */
  lemma LemmaRowDone(prev: seq<int>, row: seq<int>, j: nat, n: nat, va: int, b: seq<int>, carry: int, c: int)
    requires j < |b| && n + j < |prev| && |row| == |prev| - j && RowsDone(prev, n, j, va, b, carry)
    requires InRange(row[..n + 1], Base) && row[n] == c
    requires Value(row[..n + 1], Base) == Value(prev[j..][..n], Base) + b[j] * va
    ensures RowsDone(prev[..j] + row, n, j + 1, va, b, c)
  {
    LemmaSchoolbookRow(prev, row, j, n, va, b);
    LemmaRowSplice(prev, row, j, n);
  }

  /** The window a row of the product is added into: the n limbs of r
      from j on are limbs j .. n+j-1 of r, all in range. */
  lemma LemmaRowWindow(r: seq<int>, j: nat, n: nat)
    requires n + j <= |r| && InRange(r[..n + j], Base)
    ensures r[j..][..n] == r[..n + j][j..] && InRange(r[j..][..n], Base)
  {
    assert r[j..][..n] == r[..n + j][j..];
  }

  /** Splicing a row whose first n + 1 limbs are in range back in at j
      keeps the first n + j + 1 limbs in range, with the row's top limb
      at n + j. */
  lemma LemmaRowSplice(prev: seq<int>, row: seq<int>, j: nat, n: nat)
    requires n + j < |prev| && |row| == |prev| - j
    requires InRange(prev[..n + j], Base) && InRange(row[..n + 1], Base)
    ensures |prev[..j] + row| == |prev| && InRange((prev[..j] + row)[..n + j + 1], Base)
    ensures (prev[..j] + row)[n + j] == row[n]
  {
    var r := prev[..j] + row;
    forall k | 0 <= k < n + j + 1
      ensures 0 <= r[k] < Base
    {
      if k < j {
        assert r[k] == prev[..n + j][k];
      } else {
        assert r[k] == row[..n + 1][k - j];
      }
    }
  }

  /** The multiplication of `operator*=` (int2048.hpp:427-449): A_Origin
      holds the n limbs of this, b the m limbs of B; the result vector has
      n + m limbs and carry is the last row's carry, its top limb. */
  method Schoolbook(aOrigin: seq<int>, n: int, b: seq<int>, m: int) returns (r: seq<int>, carry: int)
    requires 1 <= n <= |aOrigin| && 1 <= m <= |b| && InRange(aOrigin, Base) && InRange(b, Base)
    ensures |r| == n + m && InRange(r, Base) && r[n + m - 1] == carry
    ensures Value(r, Base) == Value(aOrigin[..n], Base) * Value(b[..m], Base)
  {
    ghost var va := Value(aOrigin[..n], Base);
    r := Resized(aOrigin, n + m);
    r, carry := ScaleRow(r, aOrigin, n, b[0]);
    LemmaRowsStart(r, n, va, b, carry);
    var j := 1;
    while j < m
      invariant 1 <= j <= m && |r| == n + m && RowsDone(r, n, j, va, b, carry)
    {
      LemmaRowWindow(r, j, n);
      var row, c := MulAddRow(r[j..], aOrigin, n, b[j]);
      LemmaRowDone(r, row, j, n, va, b, carry, c);
      r := r[..j] + row;
      carry := c;
      j := j + 1;
    }
    assert r[..n + m] == r;
  }

  // ---------------------------------------------------------------------
  // Facts about used limbs
  // ---------------------------------------------------------------------

  /** The used limbs of a trimmable vector carry its whole value. */
  lemma LemmaTrimmableValue(s: seq<int>, n: int)
    requires Trimmable(s, n)
    ensures InRange(s[..n], Base) && 0 <= Value(s[..n], Base) < Pow(Base, n)
    ensures forall k :: n <= k <= |s| ==> Value(s[..k], Base) == Value(s[..n], Base)
  {
    assert InRange(s[..n], Base);
    LemmaValueBounds(s[..n], Base);
    forall k | n <= k <= |s|
      ensures Value(s[..k], Base) == Value(s[..n], Base)
    {
      assert s[..k][..n] == s[..n];
      LemmaValueZeroTail(s[..k], n, Base);
    }
  }

  /** A normalized nonzero value of n limbs is at least Base^(n-1). */
  lemma LemmaNormalizedLower(s: seq<int>, n: int)
    requires Normalized(s, n) && Value(s[..n], Base) > 0
    ensures Value(s[..n], Base) >= Pow(Base, n - 1)
  {
    if n > 1 {
      assert InRange(s[..n], Base);
      LemmaValueTop(s[..n], Base);
    }
  }

  /** The window of a trimmable vector from i on is below Base^m, m being
      the number of used limbs in the window. */
  lemma LemmaWindowBelow(s: seq<int>, n: int, i: int)
    requires Trimmable(s, n) && 0 <= i <= |s|
    ensures InRange(s[i..], Base) && 0 <= Value(s[i..], Base) < Pow(Base, if n > i then n - i else 0)
  {
    var u := s[i..];
    var m := if n > i then n - i else 0;
    assert InRange(u, Base);
    LemmaValueZeroTail(u, m, Base);
    assert InRange(u[..m], Base);
    LemmaValueBounds(u[..m], Base);
  }

  /** Limbs at or above m of a value below Base^m are zero. */
  lemma LemmaZeroAbove(s: seq<int>, m: int)
    requires InRange(s, Base) && 0 <= m <= |s| && Value(s, Base) < Pow(Base, m)
    ensures forall k :: m <= k < |s| ==> s[k] == 0
  {
    forall k | m <= k < |s|
      ensures s[k] == 0
    {
      LemmaValueAtLeastLimb(s, k, Base);
      if s[k] != 0 {
        LemmaMulLe(1, s[k], Pow(Base, k));
        LemmaPowMono(Base, m, k);
      }
    }
  }

  // ---------------------------------------------------------------------
  // The remainder window of long division
  // ---------------------------------------------------------------------

  /** `AbsCompareLess(TempA, i, ASize, Temp, TempSize)` as used by
      `operator/=` decides whether the window from i on is below the
      normalized Temp[..TempSize]: a shorter window is smaller, a longer
      one larger, and equal lengths compare limb by limb. */
  lemma LemmaCompareWindow(tempA: seq<int>, i: int, aSize: int, temp: seq<int>, ts: int, less: bool)
    requires Normalized(tempA, aSize) && 0 <= i <= |tempA|
    requires 1 <= ts <= |temp| && InRange(temp[..ts], Base) && temp[ts - 1] != 0
    requires aSize - i != ts ==> less == (aSize - i < ts)
    requires aSize - i == ts ==> less == LexLess(tempA[i..aSize], temp[..ts])
    ensures less <==> Value(tempA[i..], Base) < Value(temp[..ts], Base)
  {
    if aSize - i < ts {
      LemmaShortWindow(tempA, i, aSize, temp[..ts]);
    } else if aSize - i > ts {
      assert InRange(temp[..ts], Base);
      LemmaLongWindow(tempA, i, aSize, temp[..ts]);
    } else {
      var u := tempA[i..];
      LemmaWindowBelow(tempA, aSize, i);
      assert u[..ts] == tempA[i..aSize];
      LemmaValueZeroTail(u, ts, Base);
      assert InRange(temp[..ts], Base);
      LemmaLexLessIsValueLess(tempA[i..aSize], temp[..ts], Base);
    }
  }

  /** A window with fewer significant limbs than x is below x. */
  lemma LemmaShortWindow(tempA: seq<int>, i: int, aSize: int, x: seq<int>)
    requires Normalized(tempA, aSize) && 0 <= i <= |tempA|
    requires 1 <= |x| && InRange(x, Base) && x[|x| - 1] != 0 && aSize - i < |x|
    ensures Value(tempA[i..], Base) < Value(x, Base)
  {
    var m := if aSize > i then aSize - i else 0;
    LemmaWindowBelow(tempA, aSize, i);
    LemmaValueTop(x, Base);
    LemmaPowMono(Base, m, |x| - 1);
  }

  /** A window with more significant limbs than x is above x. */
  lemma LemmaLongWindow(tempA: seq<int>, i: int, aSize: int, x: seq<int>)
    requires Normalized(tempA, aSize) && 0 <= i <= |tempA|
    requires 1 <= |x| && InRange(x, Base) && aSize - i > |x|
    ensures Value(tempA[i..], Base) > Value(x, Base)
  {
    var u := tempA[i..];
    var top := aSize - 1 - i;
    assert InRange(u, Base) && u[top] == tempA[aSize - 1] >= 1;
    LemmaValueAtLeastLimb(u, top, Base);
    LemmaMulLe(1, u[top], Pow(Base, top));
    LemmaValueBounds(x, Base);
    LemmaPowMono(Base, |x|, top);
  }

  /** When subtracting x from the window leaves a borrow after ts limbs,
      the window is exactly ts + 1 limbs long, so the borrow lands on
      TempA[ASize - 1], which is at least 1. */
  lemma LemmaBorrowTarget(tempA: seq<int>, i: int, ts: int, aSize: int, x: int)
    requires Normalized(tempA, aSize) && 0 <= i && 1 <= ts && i + ts <= |tempA|
    requires x <= Value(tempA[i..], Base) < Pow(Base, ts + 1)
    requires Value(tempA[i..][..ts], Base) < x
    ensures aSize - 1 == i + ts && tempA[aSize - 1] >= 1
    ensures Value(tempA[i..], Base) == Value(tempA[i..][..ts], Base) + Pow(Base, ts) * tempA[i + ts]
  {
    var u := tempA[i..];
    assert InRange(u, Base);
    assert u[..|u|] == u;
    LemmaZeroAbove(u, ts + 1);
    LemmaValueSplit(u, ts, Base);
    var hi := u[ts..];
    LemmaValueZeroTail(hi, 1, Base);
    assert hi[..1] == [tempA[i + ts]];
  }

  /** A window rewritten to a smaller value in range leaves a vector that
      is still trimmable at the same length. */
  lemma LemmaWindowShrinks(tempA: seq<int>, i: int, aSize: int, t: seq<int>)
    requires Trimmable(tempA, aSize) && |t| == |tempA| && 0 <= i <= |t| && t[..i] == tempA[..i]
    requires InRange(t[i..], Base) && Value(t[i..], Base) <= Value(tempA[i..], Base)
    ensures Trimmable(t, aSize)
  {
    assert forall k :: 0 <= k < i ==> t[k] == tempA[k] by {
      forall k | 0 <= k < i
        ensures t[k] == tempA[k]
      {
        assert t[..i][k] == tempA[..i][k];
      }
    }
    assert forall k :: i <= k < |t| ==> t[k] == t[i..][k - i];
    LemmaWindowBelow(tempA, aSize, i);
    LemmaZeroAbove(t[i..], if aSize > i then aSize - i else 0);
  }

  /** Subtracting x from the window u limb by limb: with no borrow the
      difference is exact; with a borrow the limb above the subtracted ones
      gives up one unit. */
  lemma LemmaWindowDifference(u: seq<int>, w: seq<int>, ts: int, x: int, borrow: bool)
    requires 0 <= ts <= |u| == |w| && w[ts..] == u[ts..]
    requires Value(w[..ts], Base) - Bit(borrow) * Pow(Base, ts) == Value(u[..ts], Base) - x
    ensures !borrow ==> Value(w, Base) == Value(u, Base) - x
    ensures borrow && ts < |w| ==> Value(w[ts := w[ts] - 1], Base) == Value(u, Base) - x
  {
    var p: int := Pow(Base, ts);
    LemmaValueSplit(u, ts, Base);
    LemmaValueSplit(w, ts, Base);
    assert Value(w, Base) - Value(u, Base) == Value(w[..ts], Base) - Value(u[..ts], Base);
    if !borrow {
      assert Bit(borrow) * p == 0;
    } else if ts < |w| {
      assert Bit(borrow) * p == p;
      LemmaValueUpdate(w, ts, w[ts] - 1, Base);
      assert (w[ts] - 1 - w[ts]) * p == -p;
    }
  }

  /** Lowering limb j of the part w of p + w by one is lowering limb
      |p| + j of the whole. */
  lemma LemmaSpliceDecrement(p: seq<int>, w: seq<int>, j: int)
    requires 0 <= j < |w|
    ensures (p + w)[|p| + j := (p + w)[|p| + j] - 1] == p + w[j := w[j] - 1]
  {
  }

  /** The in-place subtraction of `operator/=` (int2048.hpp:536-546,
      568-578): Temp[..TempSize] is subtracted from the window of TempA
      starting at i, and a borrow left over is taken from TempA[ASize-1].
      The window must not be below Temp and must be less than
      Base^(TempSize+1); the result keeps the limbs below i, keeps every
      limb in range and leaves the window holding the difference. */
  method SubtractWindow(tempA: seq<int>, i: int, temp: seq<int>, ts: int, aSize: int) returns (t: seq<int>)
    requires Normalized(tempA, aSize) && 0 <= i && 1 <= ts <= |temp| && i + ts <= |tempA|
    requires InRange(temp[..ts], Base)
    requires Value(temp[..ts], Base) <= Value(tempA[i..], Base) < Pow(Base, ts + 1)
    ensures |t| == |tempA| && t[..i] == tempA[..i] && Trimmable(t, aSize)
    ensures Value(t[i..], Base) == Value(tempA[i..], Base) - Value(temp[..ts], Base)
  {
    ghost var u, x := tempA[i..], Value(temp[..ts], Base);
    assert InRange(u, Base);
    LemmaValueBounds(temp[..ts], Base);
    var w, borrow := SubtractLimbs(tempA[i..], temp, ts);
    assert w[ts..] == u[ts..];
    LemmaWindowDifference(u, w, ts, x, borrow);
    t := tempA[..i] + w;
    ghost var v := w;
    if borrow {
      LemmaBorrowLands(tempA, i, ts, aSize, x, w);
      LemmaSpliceDecrement(tempA[..i], w, ts);
      t := t[aSize - 1 := t[aSize - 1] - 1];
      v := w[ts := w[ts] - 1];
    }
    LemmaWindowResult(tempA, i, aSize, x, v, t);
  }

  /** A borrow left after the ts limbs of x lands on limb ts of the
      window, which is TempA[ASize - 1] and at least 1. */
  lemma LemmaBorrowLands(tempA: seq<int>, i: int, ts: int, aSize: int, x: int, w: seq<int>)
    requires Normalized(tempA, aSize) && 0 <= i && 1 <= ts && i + ts <= |tempA|
    requires x <= Value(tempA[i..], Base) < Pow(Base, ts + 1)
    requires |w| == |tempA| - i && InRange(w, Base) && w[ts..] == tempA[i..][ts..]
    requires Value(w[..ts], Base) - Pow(Base, ts) == Value(tempA[i..][..ts], Base) - x
    ensures aSize - 1 == i + ts && w[ts] == tempA[aSize - 1] >= 1
    ensures InRange(w[ts := w[ts] - 1], Base)
  {
    assert InRange(w[..ts], Base);
    LemmaValueBounds(w[..ts], Base);
    LemmaBorrowTarget(tempA, i, ts, aSize, x);
    assert w[ts] == w[ts..][0];
  }

  /** The window of TempA from i on replaced by v, a reduction of it by x. */
  lemma LemmaWindowResult(tempA: seq<int>, i: int, aSize: int, x: int, v: seq<int>, t: seq<int>)
    requires Trimmable(tempA, aSize) && 0 <= i <= |tempA| && |v| == |tempA| - i && t == tempA[..i] + v
    requires InRange(v, Base) && 0 <= x && Value(v, Base) == Value(tempA[i..], Base) - x
    ensures |t| == |tempA| && t[..i] == tempA[..i] && Trimmable(t, aSize)
    ensures Value(t[i..], Base) == Value(tempA[i..], Base) - x
  {
    assert t[i..] == v && t[..i] == tempA[..i];
    LemmaWindowShrinks(tempA, i, aSize, t);
  }

  // ---------------------------------------------------------------------
  // Trim and windowed comparison
  // ---------------------------------------------------------------------

  /** The loop `while (V[N - 1] == 0 && N > 1) --N;` of `_resize`
      (int2048.hpp:342-344) and of the remainder trim in `operator/=`
      (int2048.hpp:548-550): it drops zero top limbs only, so the value is
      kept and the result is normalized. */
  method TrimTop(s: seq<int>, n: int) returns (m: int)
    requires Trimmable(s, n)
    ensures Normalized(s, m) && m <= n
    ensures Value(s[..m], Base) == Value(s[..n], Base)
  {
    m := n;
    while s[m - 1] == 0 && m > 1
      invariant Trimmable(s, m) && m <= n
      invariant Value(s[..m], Base) == Value(s[..n], Base)
    {
      LemmaValuePrefix(s, m - 1, Base);
      m := m - 1;
    }
  }

  /** `AbsCompareLess` (int2048.hpp:802-810): a window A[Start..End) and
      the first BLength limbs of B. A different length decides by length
      alone; otherwise the limbs decide, most significant first, and equal
      windows are not less. */
  method AbsCompareLess(a: seq<int>, start: int, end: int, b: seq<int>, bLength: int) returns (r: bool)
    requires 0 <= start && 0 <= bLength
    requires end - start == bLength ==> end <= |a| && bLength <= |b|
    ensures end - start != bLength ==> r == (end - start < bLength)
    ensures end - start == bLength ==> r == LexLess(a[start..end], b[..bLength])
  {
    if end - start != bLength {
      return end - start < bLength;
    }
    var i := bLength - 1;
    while i >= 0
      invariant -1 <= i < bLength
      invariant forall k :: i < k < bLength ==> a[start + k] == b[k]
    {
      if a[start + i] != b[i] {
        LemmaLexWindowDecides(a, start, b, bLength, i);
        return a[start + i] < b[i];
      }
      i := i - 1;
    }
    LemmaLexWindowDecides(a, start, b, bLength, i);
    return false;
  }

  /** The window of a from start and the first n limbs of b agree above
      position i: position i decides LexLess when they differ there, and
      the window is not LexLess when i is -1. */
  lemma {:induction false} LemmaLexWindowDecides(a: seq<int>, start: int, b: seq<int>, n: int, i: int)
    requires 0 <= start && start + n <= |a| && n <= |b| && -1 <= i < n
    requires forall k :: i < k < n ==> a[start + k] == b[k]
    requires i >= 0 ==> a[start + i] != b[i]
    ensures if i >= 0 then (LexLess(a[start..start + n], b[..n]) <==> a[start + i] < b[i])
            else !LexLess(a[start..start + n], b[..n])
  {
    var s, t := a[start..start + n], b[..n];
    if i >= 0 {
      assert s[i + 1..] == t[i + 1..];
      LemmaLexLessAt(s, t, i);
    } else {
      assert s == t;
      LemmaLexLessIrreflexive(s);
    }
  }
}
