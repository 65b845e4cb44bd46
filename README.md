# int2048 in Dafny

A model of `sjtu::int2048`, an arbitrary-precision signed integer, in both of
its implementations. The two share one meaning: a sign `IsPositive` and the
magnitude `Σ limb[i]·R^i` over the used limbs.

- **int2048.hpp, the compressed engine.** Limbs have radix R = 10^9. They are
  held in `std::vector<long long> BigInt`, least significant first, and
  `Size` of them are in use. Module `Compressed` holds the `Int2048` class.
  Its fields `limbs`, `positive` and `size` are updated in place by the
  operator methods. The carry, borrow, multiply and window loops it runs
  over limb sequences are in module `Limbs`.
- **int2048_basic.hpp, the naive engine.** Digits are radix-10 ASCII
  characters in `std::string BigInt`, and `Length` of them are in use.
  Module `Basic` holds the class, with fields `digits`, `positive` and
  `length`. Its digit loops are in module `Digits`.
- **Shared modules.**
  - `Positional` holds `Pow`, the positional value `Value(s, r)` and its
    lemmas. They are written for any radix.
  - `Signed` holds the sign-and-magnitude number `Num`, the order that the
    relational operators implement, and the sign rule of every arithmetic
    entry point.

Every addition, subtraction and multiplication method is proved against
`Signed`. Its new `Model()` is stated as the `Signed` function of the old
operands, for example
`Model() == Signed.CompressedSum(old(Model()), old(b.Model()))`. The
division methods state the magnitude, floor(|A| / |B|), and the sign
separately, because the source's sign rule for a zero quotient depends on
the operands' lengths. One of their clauses says that the sign is the
product sign unless the quotient is zero, which is exactly the
precondition of `Signed.LemmaQuotientTruncates`.

The lemmas in `Signed` then connect those functions to integer arithmetic:
- every sum and difference is exact;
- the relational operators form the strict total order of `Rank`;
- the quotient truncates toward zero;
- they also list exactly which entry points can leave negative zero.

Each loop is a method whose contract gives the value of its output
sequence. For example, after the borrow loop,
`Value(r[..n]) - borrow·R^n == Value(s[..n]) - Value(t[..n])`.

`Valid()` is the representation invariant. It requires:
- at least one limb in use;
- every limb in range;
- no zero top limb unless a single limb is in use;
- zeros in every storage slot above the used ones.

The last condition matters: the addition loop reads limbs of `this` above its
own size.

The arguments are passed in two ways:
- **By reference** (`+=`, `-=`, the comparisons). The argument is read
  through its fields as they are on entry. Every loop reads `B[i]` before it
  writes index `i`, so this equals the source even when `B` aliases `this`.
- **By value** (`*=`, `/=`). The argument is first copied with `CopyOf`.

## Model

| member | source | states |
|---|---|---|
| Compressed.Int2048.constructor | int2048.hpp:127-130 | a fresh number is valid positive zero with Reserve + 1 zero limbs and one in use |
| Compressed.Int2048.FromLongLong | int2048.hpp:132-150 | a `long long` other than the minimum gives a valid number whose sign is `x >= 0` and whose magnitude is \|x\| |
| Compressed.SplitLimbs | int2048.hpp:141-146 | splitting a positive magnitude below 2^63 into radix-10^9 limbs gives at most three normalized limbs that denote it |
| Compressed.Int2048.CopyOf | int2048.hpp:194 | the copy has the same limbs, sign and size as the original |
| Compressed.Int2048.SetZero | int2048.hpp:421-424 | the zero result of `*=` and `/=` is the single positive 0 limb |
| Compressed.Int2048.Resize | int2048.hpp:340-346 | `_resize` only lowers Size and leaves the limbs, sign and magnitude unchanged; afterwards the top used limb is nonzero unless Size is 1 |
| Compressed.Int2048.SimpleAdd | int2048.hpp:249-295 | `_simple_add` adds \|B\| to the magnitude and keeps the sign and validity; the new Size is max(Size, B.Size), plus one exactly when a final carry writes limb 1 on top |
| Compressed.AddIntoLonger | int2048.hpp:251-275 | the branch where this is at least as long: the n limbs, plus a top limb 1 on a final carry, are normalized and denote \|A\| + \|B\| |
| Compressed.AddIntoShorter | int2048.hpp:276-291 | the branch where B is longer: the same over B.Size limbs, relying on the zero slots of this above its Size |
| Compressed.Int2048.SimpleMinus | int2048.hpp:297-320 | when \|this\| ≥ \|B\|, `_simple_minus` leaves the valid magnitude \|this\| − \|B\| with the same sign and a Size no larger |
| Compressed.Int2048.ReversedSimpleMinus | int2048.hpp:322-338 | when \|B\| ≥ \|this\|, `_reversed_simple_minus` leaves the valid magnitude \|B\| − \|this\| over B.Size limbs with the same sign |
| Compressed.Int2048.AddAssign | int2048.hpp:370-383 | `+=` gives the valid signed sum: equal signs add; otherwise the larger magnitude keeps its sign and a tie flips the left sign |
| Compressed.Int2048.SubAssign | int2048.hpp:390-403 | `-=` gives the valid signed difference with the mirrored sign rule |
| Compressed.Int2048.SingleMultiply | int2048.hpp:789-800 | for a digit d < 10^9, the Answer limbs 0..Size are in range and denote d·\|this\|, and the slots above Size are untouched |
| Compressed.Int2048.MultiplyBy | int2048.hpp:427-455 | the schoolbook product of two magnitudes takes Size + B.Size limbs, minus one when the top limb is 0, and denotes the product; it is valid when both factors are nonzero |
| Compressed.Int2048.MulAssign | int2048.hpp:410-456 | `*=` as written gives the product with the XOR sign, or, when its zero test fires, the single positive 0 limb with Size 1; the result is valid unless the test misfires on a zero factor |
| Compressed.Int2048.MulAssignZeroSafe | int2048.hpp:410-456 | `*=` with the zero test intended gives a valid number equal to the integer product and never negative zero |
| Compressed.Int2048.DivAssign | int2048.hpp:503-586 | for a nonzero divisor, `/=` leaves a valid magnitude floor(\|A\|/\|B\|), positive when A has fewer limbs than B and otherwise the XOR sign even when it is zero; so the sign is the XOR sign unless the quotient is zero |
| Compressed.DivideLimbs | int2048.hpp:520-582 | the quotient limbs from Size − B.Size down to 0 are in range and together denote floor(\|A\|/\|B\|) |
| Compressed.DivisionStep | int2048.hpp:527-581 | one position of long division keeps dividend = quotient·\|B\| + remainder, with the remainder window below \|B\|, and sets that quotient limb to window / \|B\| |
| Compressed.SearchDigit | int2048.hpp:527-535 | trying R − 1 first and then binary search finds exactly the largest q with q·\|B\| at most the window, and leaves q·\|B\| in Temp |
| Compressed.TryDigit | int2048.hpp:530-533 | a trial digit d builds d·\|B\| and reports exactly whether the window is below it |
| Compressed.MultiplyDivisor | int2048.hpp:530-532 | Temp[..TempSize] holds d·\|B\| with a nonzero top limb when d > 0 |
| Compressed.AbsCompare | int2048.hpp:768-781 | `AbsCompare` returns 1, 0 or −1 exactly when \|A\| >, = or < \|B\| |
| Compressed.Equal | int2048.hpp:695-701 | `==` holds exactly when sign and magnitude agree |
| Compressed.NotEqual | int2048.hpp:703-706 | `!=` is the negation of `==` |
| Compressed.Less | int2048.hpp:708-719 | `<` puts every negative below every non-negative and compares two negatives by magnitude in reverse |
| Compressed.Greater | int2048.hpp:721-732 | `>` is the same order reversed |
| Compressed.LessEq | int2048.hpp:734-745 | `<=` is `<` or `==` |
| Compressed.GreaterEq | int2048.hpp:747-758 | `>=` is `>` or `==` |
| Compressed.ZeroTimesNegativeBase | int2048.hpp:410-456 | 0 `*=` −10^9 as written ends negative with two used limbs and a zero top limb |
| Limbs.AddLimbs | int2048.hpp:254-262 | the carry loop over n limbs leaves limbs in range whose value plus carry·R^n is the sum of the two prefixes; the limbs above n are untouched |
| Limbs.PropagateCarry | int2048.hpp:263-271 | carrying into limbs lo..hi adds carry·R^lo to the prefix and changes nothing outside lo..hi |
| Limbs.SubtractLimbs | int2048.hpp:300-308 | the borrow loop over n limbs leaves limbs in range whose value minus borrow·R^n is the difference of the prefixes |
| Limbs.PropagateBorrow | int2048.hpp:309-317 | borrowing through limbs lo..hi subtracts borrow·R^lo from the prefix and changes nothing outside lo..hi |
| Limbs.ReverseSubtractLimbs | int2048.hpp:326-334 | the loop of `_reversed_simple_minus` computes \|B\| − \|this\| over n limbs with a final borrow |
| Limbs.ScaleRow | int2048.hpp:792-798 | one row of the product: limbs 0..n are in range, limb n is the final carry, and together they denote d·\|A\| |
| Limbs.MulAddRow | int2048.hpp:441-448 | one accumulating row adds d·\|A\| to the n limbs it covers, with the carry as the new top limb |
| Limbs.Schoolbook | int2048.hpp:427-449 | the double loop of `*=` leaves n + m limbs in range that denote the product of the two magnitudes, the last of them being the final carry |
| Limbs.SubtractWindow | int2048.hpp:536-546 | subtracting Temp from the window at i leaves the limbs below i alone and lowers the window's value by exactly Temp's |
| Limbs.TrimTop | int2048.hpp:342-344 | trimming zero top limbs yields a normalized length no larger, with the same value |
| Limbs.AbsCompareLess | int2048.hpp:802-810 | `AbsCompareLess` decides by window length when it differs from BLength, and otherwise by most-significant-first comparison of the limbs |
| Positional.LemmaLexLessIsValueLess | int2048.hpp:802-810 | for limbs in range, most-significant-first comparison of equally long sequences is comparison of their values |
| Positional.LemmaValueDecides | int2048.hpp:773-779 | equal-length sequences that agree above position i are ordered by their limbs at i in value, and that limb also decides the lexicographic order |
| Basic.Int2048.constructor | int2048_basic.hpp:100-103 | a fresh number is "0", Length 1, positive |
| Basic.Int2048.FromLongLong | int2048_basic.hpp:105-122 | a `long long` other than the minimum gives a valid number with sign `x >= 0` and magnitude \|x\| |
| Basic.PushDigits | int2048_basic.hpp:113-117 | pushing the decimal digits of a positive m gives a normalized digit string denoting m |
| Basic.Int2048.FromString | int2048_basic.hpp:124-147 | a literal becomes a valid number equal to the value written, except that "-0…" reads as positive zero |
| Basic.Int2048.CopyOf | int2048_basic.hpp:149 | the copy has the same digits, sign and Length |
| Basic.Int2048.Read | int2048_basic.hpp:153-180 | `read` leaves the same number as the string constructor would |
| Basic.Int2048.ToText | int2048_basic.hpp:182-188 | the text printed reads back as this number, with negative zero read back as positive zero; it is canonical unless it is "-0" |
| Basic.Int2048.SetZero | int2048_basic.hpp:770-775 | the zero result of `*=` and `/=` is "0", Length 1, positive |
| Basic.Int2048.SimpleAdd | int2048_basic.hpp:192-237 | adding magnitudes with equal signs keeps the sign; Length becomes max(Length, B.Length), plus one on a final carry with top digit '1' |
| Basic.AddIntoLonger | int2048_basic.hpp:193-215 | the branch where this is at least as long: the digits, plus '1' on a final carry, are normalized and denote \|A\| + \|B\| |
| Basic.AddIntoShorter | int2048_basic.hpp:216-236 | the branch where B is longer, relying on '0' characters above this's Length |
| Basic.Int2048.SimpleMinus | int2048_basic.hpp:258-279 | when \|this\| ≥ \|B\|, subtracting leaves the valid magnitude \|this\| − \|B\| with the same sign |
| Basic.Int2048.ReversedSimpleMinus | int2048_basic.hpp:241-255 | when \|B\| ≥ \|this\|, the subtraction into B's length leaves the valid magnitude \|B\| − \|this\| |
| Basic.Int2048.AddAssign | int2048_basic.hpp:190-326 | member `add` and `+=` give the valid signed sum; a tie of opposite signs gives negative zero |
| Basic.Int2048.SubAssign | int2048_basic.hpp:328-462 | member `minus` and `-=` give the valid signed difference; equal values give positive "0" |
| Basic.Add | int2048_basic.hpp:464-600 | free `add` and `+` give a fresh valid signed sum; `add(x, -x)` is positive "0" |
| Basic.Minus | int2048_basic.hpp:602-736 | free `minus` and `-` give a fresh valid signed difference |
| Basic.Int2048.MultiplyBy | int2048_basic.hpp:776-802 | the schoolbook product has Length + B.Length digits, minus one when the top digit is '0', and denotes the product; it is valid when both factors are nonzero |
| Basic.Int2048.MulAssign | int2048_basic.hpp:760-805 | `*=` as written gives the product with the XOR sign, or, when its zero test fires, positive "0" with Length 1; the result is valid unless the test misfires on a zero factor |
| Basic.Int2048.MulAssignZeroSafe | int2048_basic.hpp:760-805 | `*=` with the zero test intended gives a valid number equal to the integer product and never negative zero |
| Basic.Int2048.IsZero | int2048_basic.hpp:770 | the zero test as intended: it holds exactly when the magnitude is zero, whatever the sign |
| Basic.Times | int2048_basic.hpp:807-852 | `operator*` gives, on a fresh copy, what `*=` gives: the as-written product, valid for nonzero factors, and positive "0" of Length 1 when the zero test fires |
| Basic.Int2048.DivAssign | int2048_basic.hpp:854-898 | for a nonzero divisor, `/=` leaves a valid magnitude floor(\|A\|/\|B\|), positive when A is shorter than B and otherwise the XOR sign; so the sign is the XOR sign unless the quotient is zero |
| Basic.Divide | int2048_basic.hpp:900-945 | `operator/` gives, on a fresh copy, what `/=` gives: a valid floor(\|A\|/\|B\|) with the product sign unless the quotient is zero |
| Basic.DivideDigits | int2048_basic.hpp:870-891 | the quotient digits of repeated subtraction denote floor(\|A\|/\|B\|) |
| Basic.DivisionPass | int2048_basic.hpp:872-891 | one position keeps dividend = quotient·\|B\| + remainder, and the number of subtractions counted there is window / \|B\| |
| Basic.SubtractOnce | int2048_basic.hpp:874-890 | one subtraction of B lowers the window by exactly \|B\| and keeps the pass invariant |
| Basic.WindowLess | int2048_basic.hpp:874 | the loop test of `/=` holds exactly when the window is below \|B\| |
| Basic.ZeroTimesNegativeTen | int2048_basic.hpp:760-805 | 0 `*=` −10 as written ends negative with the used digits "00" |
| Basic.Less | int2048_basic.hpp:964-980 | `<` is the signed order: sign first, then Length, then digits from the top, reversed for two negatives |
| Basic.Greater | int2048_basic.hpp:982-998 | `>` is the same order reversed |
| Basic.Equal | int2048_basic.hpp:1000-1010 | `==` holds exactly when sign and magnitude agree |
| Basic.NotEqual | int2048_basic.hpp:1012-1015 | `!=` is the negation of `==` |
| Basic.LessEq | int2048_basic.hpp:1017-1033 | `<=` is `<` or `==` |
| Basic.GreaterEq | int2048_basic.hpp:1035-1051 | `>=` is `>` or `==` |
| Digits.AddDigits | int2048_basic.hpp:196-204 | the character carry loop leaves digits whose value plus carry·10^n is the sum of the two prefixes |
| Digits.PropagateCarry | int2048_basic.hpp:205-213 | carrying into characters lo..hi adds carry·10^lo and changes nothing outside lo..hi |
| Digits.SubtractDigits | int2048_basic.hpp:259-267 | the character borrow loop leaves digits whose value minus borrow·10^n is the difference of the prefixes |
| Digits.PropagateBorrow | int2048_basic.hpp:268-276 | borrowing through characters lo..hi subtracts borrow·10^lo and changes nothing outside lo..hi |
| Digits.ReverseSubtractDigits | int2048_basic.hpp:243-251 | the loop writing \|B\| − \|this\| over n characters with a final borrow |
| Digits.ScaleRow | int2048_basic.hpp:777-786 | the first row of `*=`: digits 0..n denote d·\|A\| with the carry on top |
| Digits.MulAddRow | int2048_basic.hpp:788-796 | an accumulating row adds d·\|A\| to the digits it covers |
| Digits.Schoolbook | int2048_basic.hpp:775-798 | the double loop of `*=` leaves n + m digits denoting the product |
| Digits.TrimTop | int2048_basic.hpp:277-279 | stripping '0' top digits yields a normalized length with the same value |
| Digits.HighestDifference | int2048_basic.hpp:969-971 | the downward scan stops at the most significant differing digit, or at −1 when all agree |
| Digits.SameDigits | int2048_basic.hpp:1003-1005 | the digit scan of `==` holds exactly when the used digits agree |
| Digits.AbsCompareLess | int2048_basic.hpp:1053-1061 | `AbsCompareLess` decides by window length when it differs, and otherwise exactly when the window's value is below \|B\| |
| Digits.SubtractWindow | int2048_basic.hpp:876-886 | subtracting B from the window leaves the digits below i alone and lowers the window by exactly \|B\|, the final borrow landing in the digit just above |
| Digits.ReversedDigits | int2048_basic.hpp:131-133 | copying a literal reversed puts the digit of weight 10^k at index k, so the copy denotes the literal's value |
| Digits.WrittenDigits | int2048_basic.hpp:184-187 | writing the used digits from the top down gives the decimal numeral of the magnitude |
| Signed.LemmaRelationsAreRankOrder | int2048.hpp:708-758 | the four relational operators are the order of Rank, and `==` is identity of sign and magnitude |
| Signed.LemmaTrichotomy | int2048_basic.hpp:964-1051 | exactly one of <, ==, > holds, and <= and >= agree with < and == |
| Signed.LemmaLessTransitive | int2048.hpp:708-719 | `<` is transitive |
| Signed.LemmaOrderMatchesIntegers | int2048_basic.hpp:964-980 | away from negative zero the operators order by integer value |
| Signed.LemmaNegativeZeroBelowZero | int2048.hpp:695-719 | negative zero is unequal to, and below, positive zero although both denote 0 |
| Signed.LemmaSumsAreExact | int2048.hpp:370-403 | every addition and subtraction entry point of both engines computes the exact integer result |
| Signed.LemmaNegativeZeroResults | int2048_basic.hpp:256-280 | for operands that are not negative zero: compressed `+=` of x and −x, compressed `-=` of equal positives, and basic member `add` of x and −x leave negative zero; basic free `add` and `minus` never do |
| Signed.LemmaProducts | int2048.hpp:410-456 | both zero tests give the integer product, and only the intended one never gives negative zero |
| Signed.LemmaZeroTimesNegative | int2048.hpp:413-420 | positive zero times a negative number slips past the zero test as written and yields negative zero |
| Signed.LemmaQuotientTruncates | int2048.hpp:503-586 | the quotient sign and floor of magnitudes is division truncating toward zero, with a remainder below the divisor that has the dividend's sign |

## Left out

- Stream I/O: `operator>>` and `operator<<` of both files, and the compressed
  `print`, are not modelled. The basic `print`/`operator<<` is modelled as
  `ToText`, which returns the text instead of writing it.
- The compressed `read` and string constructor (int2048.hpp:152-242) are not
  modelled. They group decimal characters into 9-digit limbs, and they never
  call `_resize`, so input with leading zeros stays unnormalized.
- The value-returning duplicates of int2048.hpp (`operator+`, `-`, `*`, `/`,
  and the free `add` and `minus`, int2048.hpp:458-501, 588-671) repeat the
  compound-assignment algorithms and are not modelled again. The basic free
  functions are modelled, because free `add` differs from member `add` on
  the sign of zero.
- Division by zero is excluded by a precondition. The source does not check
  for it: the basic divider never terminates, and the compressed one fills
  the quotient with 10^9 − 1.
- Construction from the minimum `long long` is excluded by a precondition,
  because `x = -x` overflows there.
- The empty string and the string "-" are not literals here. For them the
  basic constructor sets Length to 0, which no valid number has.
- `Reserve` is modelled only as the length of a fresh limb vector. Vector
  capacity, move semantics and unused headers have no counterpart.
- 64-bit overflow of the `long long` accumulators is not modelled. The
  integers are unbounded, and the contracts bound every limb and carry below
  10^9 (or 10), which keeps every intermediate far below 2^63.
- Basic.Int2048.ToText: requires a valid number, although `print` would
  also write an unnormalized one.
- Basic.Int2048.MulAssign: when the zero test as written misfires, the
  result is only shaped (digits in range and zeros above), not valid,
  because the source leaves a '0' top digit there; see the findings below.
- Compressed.Int2048.MulAssign: the same weakening, for the same reason.

## Findings

| source | as written | input that shows it | evidently intended | confidence | as-written member | corrected member |
|---|---|---|---|---|---|---|
| int2048.hpp:410-456 | `*=` fixes the product sign first, then tests `B == 0 \|\| *this == 0` with `==`, which also compares signs | positive 0 `*=` −1000000000: `*this` is already negative, so the test misses it; the result is negative zero with Size 2 and a zero top limb | a zero factor gives the single positive 0 limb | not executed | Compressed.ZeroTimesNegativeBase | Compressed.Int2048.MulAssignZeroSafe |
| int2048_basic.hpp:760-805 | the same sign-sensitive zero test after the sign update | positive 0 `*=` −10: the result is negative with Length 2 and prints as "-00" | a zero factor gives positive "0" | not executed | Basic.ZeroTimesNegativeTen | Basic.Int2048.MulAssignZeroSafe |
