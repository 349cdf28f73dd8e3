# A verified model of libwolv's algorithms

This project models the algorithms of the C++ utility library libwolv in Dafny
and proves what its functions promise: fixed-width big integers, the
expression compiler, the table-driven CRC, the thread pool protocol, the
interval tree, the text conversions and the buffered reader.

`dafny verify dfyconfig.toml` checks everything. The modules:

| module | models |
|---|---|
| `Options`, `Sequences`, `Powers`, `Limbs` | shared helpers, and the number a run of base-b limbs stands for |
| `LimbArithmetic`, `Multiplication`, `Karatsuba` | carry and borrow loops, the three schoolbook products, Karatsuba on one memory with scratch |
| `KnuthDivision`, `SignedDivision`, `Shifts` | Algorithm D, `/=`, `%=`, `divmod`, `negate`, `<<`, `>>` on limbs |
| `Bits`, `NumberTheory`, `BinaryGcd`, `Primality`, `Roots` | bit positions, gcd, `pow`, `powm`, Miller-Rabin, `sqrt`, `cbrt` |
| `WideText`, `TextRoundTrips`, `BitChunks` | `wr_string`/`rd_string` and what reads back, `import_bits`/`export_bits` |
| `ExpressionTokens`, `OperatorGrammar`, `ShuntingYard`, `ConversionLimits` | tokens and trees, how operators group, infix to postfix, exactly when that is right |
| `MathEvaluation`, `Words`, `IntegerEvaluation` | the stack evaluator, 64-bit words, what each operator computes on 64-bit integers |
| `BitStrings`, `PolynomialDivision`, `CyclicRedundancy` | the CRC engine and the polynomial division it stands for |
| `ThreadPool` | the pool as atomic steps of enqueuers, workers and stoppers |
| `IntervalTrees`, `StringTools`, `Unicode`, `BufferedReaders` | the remaining components |

## How it is modelled

**Integers in two layers.** Code that walks limbs (addition, multiplication,
division, shifts, negation, `lsb`, `msb`, import and export) works in place on
`array<nat>` with a symbolic base b and a symbolic limb count, and is proved
against `Value`, the plain integer the limbs hold. The four-limb and signed
code need no more than "b is at least 256" or "b is even". Code that only uses
whole integers as values (gcd, `powm`, roots, Miller-Rabin, text) runs the
source's loops on numbers below the type's range `big`, with every wrap-around
of the type written out and proved harmless where it is.

**Two's complement.** `SignedDivision.Number` is the signed reading of the
limbs. `SignedDivision.TruncatedQuotient` and `FlooredQuotient` are defined on
integers, independently of the code.

**Expressions.** `ExpressionTokens.Expr` is a tree with explicit parenthesis
nodes, `Print` lists its infix tokens, `Meaning` evaluates it by structural
recursion. The arithmetic of the operand type is a record of total functions,
so one proof covers all integer instances; calls and division may fail.
`OperatorGrammar` states the grammar without the operators' codes, and
`IntegerEvaluation` states what every operator computes on 64-bit signed
integers, in terms of the two numbers.

**CRC.** Registers are bit strings over GF(2). The reference is the division
register that takes one message bit at a time (`CyclicRedundancy.Register`),
and `PolynomialDivision` shows that this register is the remainder of an
actual polynomial division.

**Thread pool.** Every mutex-protected block, every atomic read or update and
every notification is one step of `ThreadPool.Next`; waiting may also end
spuriously. The theorems hold in all states of all runs of any length with any
number of threads.

**Buffered reader.** The data is what the reader function delivers at each
address, so end addresses behind the end of a file are covered. Addresses wrap
around at 2^64 as in the source.

**Classes.** `DigitBuffer`, `MathEvaluator`, `Crc`, `IntervalTree` and
`BufferedReader` are classes whose methods update the fields the source
updates. `Valid()` is what a whole run of calls keeps.

## Where the code and its promises differ

The model follows the code; each point below is proved.

- Karatsuba splits with `n / 2`. If a halving level above 48 limbs is odd, as
  for width 8064 with 32-bit limbs, some products come out as 0
  (`UnevenSplitLosesProduct`); for all other limb counts every product is
  right (`KaratsubaMultiply`).
- The decimal digit buffer is too small for very wide integers, because
  301/1000 is less than the binary logarithm's share of a digit. Leading digits
  or a minus sign are then dropped without an error. `UnsignedPrints` and
  `SignedPrints` give the exact condition on the width, `WideDecimalIsCut` the
  widths from which it fails, `TextRoundTrip` the values that still read back.
- Padding breaks the text round trip for most fill characters; zeros, for
  example, select octal, so 42 padded to "00042" does not read back.
  `PaddedRoundTrip` gives the exact condition for each fill character, in octal
  for all but apostrophes and the digits 1 to 9. Octal reading also accepts the
  digit 8.
- `import_bits` ignores chunks beyond those the width needs instead of reducing
  the number modulo the width: three bytes 1, 0, 0 come in as 256 at width 16
  (`ThreeBytesInSixteenBits`, `ImportsExactly`).
- Unary operators have the highest precedence level and count as left
  associative, so two adjacent ones need parentheses between them: at the start
  of the input they never evaluate (`AdjacentUnaryFails`), and elsewhere the
  first one is output at once and so applied to whatever stands before it
  (`AdjacentUnaryMoves`): `1 + - - 2` computes (-1) + (-2)
  (`AdjacentUnaryRegroups`), `2 + (- - 3)` negates the 2. `ConvertsExactly` says
  for all trees when the conversion is right.
- `stopTasks` can see the pool idle while a worker holds a task it has popped
  but not yet counted (`PoppedTaskEscapes`). `EscapesExactly` says from which
  states that can happen.
- `stopTasks` takes the stop flag down when it returns, even while another
  caller still waits (`FlagLostExactly`).
- Postfix input evaluates: `1 2 +` is 3. `EvaluatesExactly` says for all token
  queues when there is a value.
- A reverse read below the window loads data from below it
  (`RefillRange` gives the exact condition).
- The logical exclusive or `^^` tests whether the bitwise one is positive: 1 and
  2 give 1, 1 and -1 give 0 (`IntegerEvaluation.Logic`).
- `splitString` ignores `removeEmpty` when the text or delimiter is empty
  (`SplitString`).
- `utf16ToUtf8` accepts any surrogate unit as the first of a pair. Text that
  is not well formed goes through, and comes back through `utf8ToUtf16`
  exactly when no such unit is 0xDFC0 or above (`Utf16RoundTrip`).
- A comment says that the sign of `%=` follows the denominator
  (`uintwide_t.h:2658`); the code follows the numerator, as C++ does.
- Dividing by zero gives the maximum and remainder 0; `x /= x` on one object
  gives 1 even for zero.

## Model

| member | source | states |
|---|---|---|
| `Limbs.ValueConcat` | libs/types/include/wolv/types/uintwide_t.h:3755-3792 | the number in a run of limbs is the number in its low part plus b^k times the number in its high part, for every split point k |
| `Limbs.ValueInjective` | libs/types/include/wolv/types/uintwide_t.h:3170-3200 | two equally long limb runs hold the same number only if every limb agrees, so comparing values and comparing limbs is the same thing |
| `LimbArithmetic.AddN` | libs/types/include/wolv/types/uintwide_t.h:3755-3792 | in place or not: sum limbs plus the returned carry times b^n are exactly u + v + carry-in; carry at most 1; no other limb of the array changes |
| `LimbArithmetic.SubtractN` | libs/types/include/wolv/types/uintwide_t.h:3797-3845 | in place or not: difference limbs plus v plus borrow-in are exactly u plus b^n if a borrow is returned; no other limb changes |
| `LimbArithmetic.PropagateCarry` | libs/types/include/wolv/types/uintwide_t.h:4530-4557 | adds the carry to the limbs above modulo b^n and touches nothing else |
| `LimbArithmetic.PropagateBorrow` | libs/types/include/wolv/types/uintwide_t.h:4561-4592 | takes the borrow from the limbs above modulo b^n and touches nothing else |
| `LimbArithmetic.CompareRanges` | libs/types/include/wolv/types/uintwide_t.h:3515-3546 | 1, 0 or -1 exactly as the first number is above, equal to or below the second |
| `Multiplication.MultiplyAddRow` | libs/types/include/wolv/types/uintwide_t.h:4396-4446 | one row: r + x * c is split without loss into n limbs and one carry limb |
| `Multiplication.MultiplyByLimb` | libs/types/include/wolv/types/uintwide_t.h:4450-4526 | product by one limb, in place or not: n limbs and a carry limb hold it exactly |
| `Multiplication.MultiplyFull` | libs/types/include/wolv/types/uintwide_t.h:4396-4446 | the schoolbook loop leaves exactly a * b in 2n limbs |
| `Multiplication.MultiplyLow` | libs/types/include/wolv/types/uintwide_t.h:4297-4391 | the truncated schoolbook loop leaves a * b modulo b^n |
| `Multiplication.MultiplyLowFour` | libs/types/include/wolv/types/uintwide_t.h:3852-3987 | the unrolled 4-limb columns leave a * b modulo b^4 too, and their double-limb sums never overflow for limbs of 8 bits or more |
| `Karatsuba.AbsoluteDifference` | libs/types/include/wolv/types/uintwide_t.h:4694-4720 | the absolute difference of two halves with its sign; equal halves leave the scratch untouched |
| `Karatsuba.AddMiddle` | libs/types/include/wolv/types/uintwide_t.h:4690-4693 | adding to r1 and letting the carry ripple into r3 adds b^(n/2) * t to the whole 2n-limb number whenever n is even and the sum fits; two zeros stay zero |
| `Karatsuba.SubtractMiddle` | libs/types/include/wolv/types/uintwide_t.h:4734-4739 | subtracting from r1 and letting the borrow ripple into r3 takes b^(n/2) * t from the whole number whenever n is even and the difference is not negative; two zeros stay zero |
| `Karatsuba.FinishProduct` | libs/types/include/wolv/types/uintwide_t.h:4612-4660 | no carry or borrow out of r3 is lost: the outer sum fits the 2n limbs, and after the middle product the number is exactly (a0 + B a1)(c0 + B c1) |
| `Karatsuba.KaratsubaMultiply` | libs/types/include/wolv/types/uintwide_t.h:4599-4741 | recursion on one memory with 4n scratch limbs: the 2n-limb result is the exact product whenever n halves evenly down to 48 limbs, operands and all memory outside result and scratch unchanged; for every other n, the operands for which it yields 0 instead |
| `Karatsuba.UnevenSplitLosesProduct` | libs/types/include/wolv/types/uintwide_t.h:4661-4684 | for EVERY limb count with an odd halving level above 48 there are operands (a power of b, and 1) whose computed product is 0: even halving is necessary as well as sufficient |
| `Karatsuba.Width8064SplitsUnevenly` | libs/types/include/wolv/types/uintwide_t.h:4661-4662 | width 8064 with 32-bit limbs (252 limbs, then 126, then 63) is such a limb count |
| `Karatsuba.KaratsubaUnary` | libs/types/include/wolv/types/uintwide_t.h:3705-3750 | x *= y through Karatsuba on one 8n-limb memory: product modulo b^n when n halves evenly, 0 on the losing operands otherwise |
| `Karatsuba.MultiplyUnary` | libs/types/include/wolv/types/uintwide_t.h:3672-3750 | x *= y at every limb count through whichever of the three multiplies the size selects: product modulo b^n below 129 limbs or at evenly halving counts |
| `KnuthDivision.EstimateQuotient` | libs/types/include/wolv/types/uintwide_t.h:4942-4974 | the q-hat correction loop ends, is entered at most twice, and leaves a digit below b that passes the two-limb test while its successor does not |
| `KnuthDivision.EstimateBounds` | libs/types/include/wolv/types/uintwide_t.h:4942-4974 | such a q-hat is the true digit or one more (TAOCP 4.3.1, Theorem B and Exercise 20) |
| `KnuthDivision.AddBack` | libs/types/include/wolv/types/uintwide_t.h:4997-5017 | after a borrow the n-limb add-back, its carry dropped, restores exactly the remainder of the true digit |
| `KnuthDivision.NoBorrow` | libs/types/include/wolv/types/uintwide_t.h:4976-5002 | without a borrow the top limb of the window is zero and the rest is the remainder |
| `KnuthDivision.DivideDigit` | libs/types/include/wolv/types/uintwide_t.h:4942-5018 | steps D3 to D6: the digit and the remainder limbs satisfy window = q * v + r with r < v |
| `KnuthDivision.DivideDigits` | libs/types/include/wolv/types/uintwide_t.h:4926-5027 | the whole digit loop: numerator = v * quotient + remainder with remainder < v |
| `KnuthDivision.DivideByLimb` | libs/types/include/wolv/types/uintwide_t.h:3215-3270 | short division in place: numerator = d * quotient + remainder with remainder < d |
| `KnuthDivision.NormaliserBounds` | libs/types/include/wolv/types/uintwide_t.h:4855-4924 | the factor d fits a limb and brings the leading limb to at least half the base without overflowing the denominator |
| `KnuthDivision.Denormalise` | libs/types/include/wolv/types/uintwide_t.h:5041-5086 | dividing the remainder by d again loses nothing |
| `KnuthDivision.DivideLong` | libs/types/include/wolv/types/uintwide_t.h:4833-5088 | Algorithm D for denominators of two or more limbs: exact quotient and remainder |
| `KnuthDivision.DivideCore` | libs/types/include/wolv/types/uintwide_t.h:4833-5106 | single-limb and Algorithm D branches together: exact quotient and remainder for every limb count |
| `KnuthDivision.Divide` | libs/types/include/wolv/types/uintwide_t.h:4743-4830 | quotient and remainder for all inputs: a zero denominator yields the type maximum and remainder 0, anything else the exact quotient and remainder |
| `SignedDivision.BitwiseNot` | libs/types/include/wolv/types/uintwide_t.h:5381-5387 | the complement: old and new value add up to b^n - 1 |
| `SignedDivision.Increment` | libs/types/include/wolv/types/uintwide_t.h:5389-5400 | value + 1 modulo b^n, through the carry loop |
| `SignedDivision.Negate` | libs/types/include/wolv/types/uintwide_t.h:3207-3212 | the additive inverse modulo b^n |
| `SignedDivision.NumberResidue` | libs/types/include/wolv/types/uintwide_t.h:2588-2674 | two's complement: the limbs hold the signed number modulo b^n, and its magnitude fits the unsigned type |
| `SignedDivision.InRange` | libs/types/include/wolv/types/uintwide_t.h:2588-2674 | an integer is what the limbs of its residue stand for exactly when it lies in the signed range |
| `SignedDivision.TruncatedMagnitudes` | libs/types/include/wolv/types/uintwide_t.h:2602-2622 | the truncated quotient and remainder are those of the magnitudes with the sign rule the code applies |
| `SignedDivision.TruncatedInRange` | libs/types/include/wolv/types/uintwide_t.h:2588-2674 | the truncated quotient of two signed numbers is in range except for the minimum divided by -1; the remainder always is |
| `SignedDivision.TruncationLaw` | libs/types/include/wolv/types/uintwide_t.h:2588-2674 | truncated division: x = q y + r with |r| < |y| and r zero or of the sign of x |
| `SignedDivision.DivideAssign` | libs/types/include/wolv/types/uintwide_t.h:2588-2630 | signed and unsigned /=: 1 when both operands are one object, the maximum on a zero divisor, otherwise the quotient truncated toward zero |
| `SignedDivision.RemainderAssign` | libs/types/include/wolv/types/uintwide_t.h:2632-2674 | %=: 0 when both operands are one object or the divisor is 0, otherwise the truncated remainder with the sign of the numerator |
| `SignedDivision.LargestNumber` | libs/types/include/wolv/types/uintwide_t.h:2596-2599 | what a zero divisor yields is the largest number of the type, signed or unsigned |
| `SignedDivision.FlooredMagnitudes` | libs/types/include/wolv/types/uintwide_t.h:6723-6743 | floored quotient and remainder in terms of the magnitudes, for all four sign combinations |
| `SignedDivision.FloorLaw` | libs/types/include/wolv/types/uintwide_t.h:6692-6746 | floored division: x = q y + r with |r| < |y| and r zero or of the sign of y |
| `SignedDivision.FloorCases` | libs/types/include/wolv/types/uintwide_t.h:6692-6746 | the sign fix-ups after the unsigned division give floored quotient and remainder, zero divisor included |
| `SignedDivision.FloorSigns` | libs/types/include/wolv/types/uintwide_t.h:6723-6743 | the in-place fix-ups on quotient and remainder limbs, modulo b^n |
| `SignedDivision.DivMod` | libs/types/include/wolv/types/uintwide_t.h:6692-6746 | divmod floors: for mixed signedness the pair holds the floored quotient and remainder |
| `Shifts.ShiftLeft` | libs/types/include/wolv/types/uintwide_t.h:5125-5174 | << by any amount multiplies by 2^n modulo the width |
| `Shifts.ShiftRight` | libs/types/include/wolv/types/uintwide_t.h:5114-5240 | >> by any amount divides by 2^n rounding toward minus infinity, for unsigned and, with the sign fill, for negative numbers |
| `Shifts.FilledValue` | libs/types/include/wolv/types/uintwide_t.h:5114-5122 | filling vacated limbs with the sign leaves the signed number unchanged |
| `Bits.Clz` | libs/types/include/wolv/types/uintwide_t.h:445-480 | the halving search returns the word width minus the bit length, zero included |
| `Bits.TrailingMask` | libs/types/include/wolv/types/uintwide_t.h:490-495 | ~v & (v - 1) is the all-ones number as long as the trailing zeros of v |
| `Bits.Ctz` | libs/types/include/wolv/types/uintwide_t.h:483-498 | the number of trailing zeros, or the word width on zero |
| `Bits.Lsb` | libs/types/include/wolv/types/uintwide_t.h:6069-6101 | the lowest set bit of the whole limb number, 0 for zero |
| `Bits.MsbHelper` | libs/types/include/wolv/types/uintwide_t.h:5971-6003 | the linear search from the top bit finds the highest set bit of a limb, 0 for zero |
| `Bits.MsbHalving` | libs/types/include/wolv/types/uintwide_t.h:6005-6050 | the unrolled halving for limbs of 8, 16 and 32 bits finds the same bit |
| `Bits.Msb` | libs/types/include/wolv/types/uintwide_t.h:6107-6139 | the highest set bit of the whole limb number, 0 for zero |
| `NumberTheory.GcdUnique` | libs/types/include/wolv/types/uintwide_t.h:6494-6598 | the gcd is the one number whose divisors are the common divisors |
| `BinaryGcd.GcdOfOddParts` | libs/types/include/wolv/types/uintwide_t.h:511-534 | taking out the common power of two and the odd cofactors determines the gcd |
| `BinaryGcd.GcdUnsafe` | libs/types/include/wolv/types/uintwide_t.h:501-535 | terminates and returns the mathematical gcd of every pair of words, zeros included |
| `BinaryGcd.TwoLimbs` | libs/types/include/wolv/types/uintwide_t.h:6555-6582 | a number below b^2 is rebuilt exactly from its two low limbs, also in a one-limb type |
| `BinaryGcd.WideGcd` | libs/types/include/wolv/types/uintwide_t.h:6494-6598 | terminates and returns the gcd of every unsigned pair, hand-over to the one- and two-limb reduction and wrapping final shift included |
| `NumberTheory.Euclid` | libs/types/include/wolv/types/uintwide_t.h:7062-7076 | a prime dividing a product divides a factor |
| `NumberTheory.BinomialTheorem` | libs/types/include/wolv/types/uintwide_t.h:7152-7162 | (x + 1)^n as the sum of binomial terms, the step of the induction behind Fermat |
| `NumberTheory.FermatLittle` | libs/types/include/wolv/types/uintwide_t.h:7152-7162 | x^(p-1) = 1 modulo a prime p that does not divide x: the Fermat test passes for primes |
| `NumberTheory.SquareRootsOfOne` | libs/types/include/wolv/types/uintwide_t.h:7201-7231 | modulo a prime the only square roots of 1 are 1 and -1 |
| `Primality.ProductFits` | libs/types/include/wolv/types/uintwide_t.h:6442-6470 | a product of two residues never overflows the double-width type |
| `Primality.PowMod` | libs/types/include/wolv/types/uintwide_t.h:6418-6474 | square-and-multiply with double-width products returns b^p mod m for every exponent, modulus 1 included |
| `Primality.Power` | libs/types/include/wolv/types/uintwide_t.h:6367-6410 | pow returns b^p modulo the type width, through its special cases 0, 1, 2 and the loop; an exponent of a wider type counts modulo the width |
| `Primality.Draw` | libs/types/include/wolv/types/uintwide_t.h:6945-6960 | a draw lies in [a, b], also when the range is the whole type and b - a + 1 wraps to 0 |
| `Primality.DrawReaches` | libs/types/include/wolv/types/uintwide_t.h:6945-6960 | every value of [a, b] is drawn for some raw value |
| `Primality.ProductsMatch` | libs/types/include/wolv/types/uintwide_t.h:7062-7132 | the five 64-bit constants are exactly the products of the small primes they stand for |
| `Primality.TableIsPrimes` | libs/types/include/wolv/types/uintwide_t.h:7035-7056 | the 48-entry table holds exactly the odd primes up to 227 |
| `Primality.BinarySearch` | libs/types/include/wolv/types/uintwide_t.h:315-356 | the lower-bound search finds a value of a sorted table exactly when it is there |
| `Primality.SharedFactor` | libs/types/include/wolv/types/uintwide_t.h:7062-7132 | n mod pp is zero or shares a factor with pp exactly when one of the primes divides n |
| `Primality.CoprimeTo` | libs/types/include/wolv/types/uintwide_t.h:7064-7076 | each product test rejects exactly the n with one of its primes as divisor |
| `Primality.HasNoSmallFactor` | libs/types/include/wolv/types/uintwide_t.h:7062-7132 | the five tests together accept exactly the n without an odd prime factor up to 227 |
| `Primality.SmallFactorsDecide` | libs/types/include/wolv/types/uintwide_t.h:7062-7132 | an odd n below 229^2 without such a factor is prime |
| `Primality.PrimeIsStrong` | libs/types/include/wolv/types/uintwide_t.h:7187-7235 | a prime is a strong probable prime to every base that is not a multiple of it |
| `Primality.StrongMeaning` | libs/types/include/wolv/types/uintwide_t.h:7187-7235 | the strong test in powers alone: Fermat holds for the base, and among its powers q 2^j no square root of 1 other than 1 and -1 appears |
| `Primality.Trial` | libs/types/include/wolv/types/uintwide_t.h:7189-7231 | one trial passes exactly when x^(n-1) is 1 and every x^(q 2^j) whose square is 1 is itself 1 or -1, modulo n |
| `Primality.Trials` | libs/types/include/wolv/types/uintwide_t.h:7187-7235 | the trial loop passes exactly when every trial it owes passes (at least one, even for zero trials) |
| `Primality.DivisorIsWitness` | libs/types/include/wolv/types/uintwide_t.h:7189-7231 | a trial with a proper divisor of n as base always fails |
| `Primality.CompositeRejected` | libs/types/include/wolv/types/uintwide_t.h:7187-7235 | for every odd composite n there are draws that make the trials fail |
| `Primality.PrimePasses` | libs/types/include/wolv/types/uintwide_t.h:7149-7238 | every odd prime above 227 passes the Fermat test and all trials, whatever is drawn |
| `Primality.MillerRabin` | libs/types/include/wolv/types/uintwide_t.h:6989-7238 | never rejects a prime for any stream of raw random values; for n < 229^2 true exactly on primes; above 227 true exactly when n is odd and passes the small-factor, Fermat and strong-probable-prime tests; false whenever some draw divides n |
| `Roots.SquareRound` | libs/types/include/wolv/types/uintwide_t.h:6192-6199 | above the root one Newton step lands at or above the root, strictly lower and at most half as far away; at the root it does not go down |
| `Roots.CubeRound` | libs/types/include/wolv/types/uintwide_t.h:6255-6274 | the same for the cube-root step |
| `Roots.NearStep` | libs/types/include/wolv/types/uintwide_t.h:6192-6199 | distance to the root against the round number: linear at first, then the number of correct bits doubles, so 64 rounds are enough |
| `Roots.SquareGuess` | libs/types/include/wolv/types/uintwide_t.h:6172-6185 | the first value from the highest bit is at least the root and at most four times it |
| `Roots.CubeGuess` | libs/types/include/wolv/types/uintwide_t.h:6229-6242 | the same for the cube root |
| `Roots.SquareSumFits` | libs/types/include/wolv/types/uintwide_t.h:6196-6196 | s + m / s never wraps the type |
| `Roots.CubeSumFits` | libs/types/include/wolv/types/uintwide_t.h:6271-6271 | 2 s + m / s^2 never wraps the type |
| `Roots.Sqrt` | libs/types/include/wolv/types/uintwide_t.h:6156-6203 | the exact floor of the square root of every unsigned value of every width up to 2^52 bits; the 64-round limit never ends the loop |
| `Roots.Cbrt` | libs/types/include/wolv/types/uintwide_t.h:6209-6278 | the exact floor of the cube root, likewise |
| `WideText.BufferHoldsPowerBase` | libs/types/include/wolv/types/uintwide_t.h:3380-3410 | octal and hexadecimal digits with sign and prefix always fit their buffer, at every width |
| `WideText.BufferHoldsDecimal` | libs/types/include/wolv/types/uintwide_t.h:3412-3424 | decimal digits with sign fit the buffer for every width up to 93000 bits |
| `WideText.DigitsExactly` | libs/types/include/wolv/types/uintwide_t.h:3412-3424 | a number has at most k digits exactly when it is below base^k |
| `WideText.DigitsCase` | libs/types/include/wolv/types/uintwide_t.h:3488-3511 | digits above 9 are letters A to F in upper-case text and a to f in lower-case text, and no other letters |
| `WideText.DigitBuffer.PutDigits` | libs/types/include/wolv/types/uintwide_t.h:3036-3058 | writes the digits in front of what the buffer already holds; a full buffer keeps the last ones |
| `WideText.DigitBuffer.PutPrefix` | libs/types/include/wolv/types/uintwide_t.h:3132-3137 | puts 0 or 0x in front, 0X when upper case, if there is room |
| `WideText.DigitBuffer.PutSign` | libs/types/include/wolv/types/uintwide_t.h:3060-3070 | puts the sign in front when there is one and a place for it |
| `WideText.DigitBuffer.Pad` | libs/types/include/wolv/types/uintwide_t.h:3072-3080 | pads on the left up to the field width, limited by the buffer |
| `WideText.WrString` | libs/types/include/wolv/types/uintwide_t.h:2917-3164 | fails exactly for bases other than 8, 10, 16; prints, padded, what the buffer holds of sign, prefix and canonical digits, which is the whole text exactly when that is shorter than the buffer |
| `WideText.PrintedExactly` | libs/types/include/wolv/types/uintwide_t.h:2917-3164 | the printed text is the whole text if and only if the text fits the buffer |
| `WideText.FitsAlways` | libs/types/include/wolv/types/uintwide_t.h:3380-3424 | it always fits in bases 8 and 16, and in base 10 up to 93000 bits |
| `WideText.UnsignedPrints` | libs/types/include/wolv/types/uintwide_t.h:3412-3424 | every unsigned number of a width is printed whole in base 10 if and only if 2^width <= 10^(buffer - 1) |
| `WideText.SignedPrints` | libs/types/include/wolv/types/uintwide_t.h:3412-3424 | every signed number is if and only if 2^(width - 1) < 10^(buffer - 2) |
| `WideText.WideDecimalIsCut` | libs/types/include/wolv/types/uintwide_t.h:3412-3424 | at every width from 441000 bits on, 524288 for one, some unsigned number loses leading digits |
| `WideText.TextReads` | libs/types/include/wolv/types/uintwide_t.h:5243-5379 | parsing the whole text gives the value back at every width, signed minimum included, in base 10 and, with the prefix shown, in bases 8 and 16 |
| `WideText.ReadWritten` | libs/types/include/wolv/types/uintwide_t.h:5243-5379 | reading canonical digits modulo the width gives the number back |
| `WideText.RdString` | libs/types/include/wolv/types/uintwide_t.h:5243-5379 | the character loop accepts and computes exactly the Parse function: sign, base detection, separators, digit rules |
| `TextRoundTrips.TextRoundTrip` | libs/types/include/wolv/types/uintwide_t.h:2917-3164 | parsing what was printed gives the value back if and only if no digit was cut off, nor the minus sign of any number but the minimum; so always in bases 8 and 16 with the prefix shown, and in base 10 wherever the digits and the minus sign fit the buffer |
| `TextRoundTrips.TextStarts` | libs/types/include/wolv/types/uintwide_t.h:2917-3164 | the text starts with a minus exactly for negative decimal numbers, with a plus exactly when asked for otherwise, then with the prefix of its base when shown, then with no zero but that of 0 |
| `TextRoundTrips.CutTextReading` | libs/types/include/wolv/types/uintwide_t.h:3036-3058 | text that lost leading digits is no number or a smaller one |
| `TextRoundTrips.PaddedRoundTrip` | libs/types/include/wolv/types/uintwide_t.h:3072-3080 | for every fill character: a padded decimal or prefixed hexadecimal text reads back if and only if it has no sign and the fill is a single plus, a single minus before a number that is its own negative, in base 10 apostrophes, or in base 10 zeros before a number up to 8 or one zero before a first digit 9; in prefixed octal, zeros always do |
| `TextRoundTrips.DigitFillChanges` | libs/types/include/wolv/types/uintwide_t.h:5243-5379 | digits 1 to 9 as fill always change a decimal number, even though reading wraps around |
| `BitChunks.CopyBits` | libs/types/include/wolv/types/uintwide_t.h:1184-1261 | regrouping keeps the bit string: the output chunks hold the low t bits of the number in the leading ceil(t / size) input elements, ceil(t / size) of them; further elements are not read |
| `BitChunks.ExportBits` | libs/types/include/wolv/types/uintwide_t.h:7738-7845 | the chunks are the base-2^c digits of the value, most or least significant first as asked, exactly as many as its highest bit needs |
| `BitChunks.ExportedChunk` | libs/types/include/wolv/types/uintwide_t.h:7738-7845 | chunk k is the value divided by 2^(c k), or by 2^(c (count - 1 - k)) when the most significant comes first, modulo 2^c |
| `BitChunks.ImportBits` | libs/types/include/wolv/types/uintwide_t.h:7521-7638 | the limbs become the number of the most significant chunks, as many as the width needs, modulo the width; any further chunks are ignored |
| `BitChunks.ImportedLeading` | libs/types/include/wolv/types/uintwide_t.h:7550-7634 | that is what is imported for every list of chunks, chunk size and width |
| `BitChunks.ImportsExactly` | libs/types/include/wolv/types/uintwide_t.h:7550-7634 | for all chunks of a given count the import is the number they spell modulo the width, if and only if the count is at most ceil(width / size) |
| `BitChunks.ThreeBytesInSixteenBits` | libs/types/include/wolv/types/uintwide_t.h:7550-7634 | 65536 in three bytes is imported as 256 at width 16 |
| `BitChunks.ChunksRoundTrip` | libs/types/include/wolv/types/uintwide_t.h:7521-7845 | importing what export produced restores the value for every chunk size and both orders, also when the last chunk overhangs the width |
| `ExpressionTokens.RightAssociativeOnly` | libs/math_eval/include/wolv/math_eval/math_evaluator.hpp:57-86 | exponentiation alone is right associative and alone on its level; the unary operators are exactly the highest level |
| `OperatorGrammar.LevelOfCode` | libs/math_eval/include/wolv/math_eval/math_evaluator.hpp:57-86 | the codes rank the operators as the grammar does: unary, combine, power, multiplicative, additive, shifts, order, equality, bitwise and, xor, or, logical and, xor, or, assignment |
| `OperatorGrammar.FitsByLevel` | libs/math_eval/source/math_eval/math_evaluator.cpp:33-46 | which operands need no parentheses, by those levels; exponentiation alone groups to the right |
| `OperatorGrammar.PairGrouping` | libs/math_eval/source/math_eval/math_evaluator.cpp:79-127 | x op1 y op2 z compiles to (x op1 y) op2 z exactly when op1 is on the higher level, or on the same one and not exponentiation, and to x op1 (y op2 z) otherwise, for every pair of binary operators |
| `OperatorGrammar.UnaryGrouping` | libs/math_eval/source/math_eval/math_evaluator.cpp:79-127 | a unary operator takes the operand behind it and nothing more |
| `ExpressionTokens.UnaryOperandIsEnclosed` | libs/math_eval/include/wolv/math_eval/math_evaluator.hpp:82-85 | a unary operator needs parentheses around every operand that is itself an operation |
| `ExpressionTokens.ParenthesiseMeaning` | libs/math_eval/source/math_eval/math_evaluator.cpp:79-127 | every tree can be given the needed parentheses without changing its post-order listing |
| `ShuntingYard.PendingBinds` | libs/math_eval/source/math_eval/math_evaluator.cpp:88-96 | what a printed tree leaves on the operator stack binds at least as tightly as its root |
| `ShuntingYard.ConvertPrinted` | libs/math_eval/source/math_eval/math_evaluator.cpp:79-127 | reading a printed tree in any admitting context outputs its settled part and leaves its pending operators on the stack, all else untouched |
| `ShuntingYard.PostfixOfPrinted` | libs/math_eval/source/math_eval/math_evaluator.cpp:79-127 | the postfix form of every printed tree is its post-order listing |
| `MathEvaluation.RunValue` | libs/math_eval/source/math_eval/math_evaluator.cpp:259-425 | a tree with a value pushes exactly that value onto any stack |
| `MathEvaluation.RunStops` | libs/math_eval/source/math_eval/math_evaluator.cpp:259-425 | a tree with a failing node, and no call that merely returns nothing, fails the evaluation whatever follows |
| `MathEvaluation.ValueMeansBalance` | libs/math_eval/source/math_eval/math_evaluator.cpp:259-430 | an evaluation that yields a value consumed exactly what it pushed |
| `MathEvaluation.RunMeaning` | libs/math_eval/source/math_eval/math_evaluator.cpp:259-430 | evaluating the post-order listing returns the value of the tree, and nothing exactly when some node fails |
| `MathEvaluation.CompiledMeaning` | libs/math_eval/source/math_eval/math_evaluator.cpp:79-430 | compilation preserves meaning: convert, then evaluate, is the meaning of the tree |
| `MathEvaluation.SilentSkipped` | libs/math_eval/source/math_eval/math_evaluator.cpp:404-413 | calls that return nothing, and earlier errors, make no difference to the value |
| `MathEvaluation.RunsExactly` | libs/math_eval/source/math_eval/math_evaluator.cpp:259-430 | postfix tokens evaluate to a value if and only if, calls that return nothing left out, they list a tree with that value |
| `MathEvaluation.EvaluatesExactly` | libs/math_eval/source/math_eval/math_evaluator.cpp:79-430 | any tokens whatever evaluate to a value if and only if their conversion lists a tree with that value; 1 2 + does |
| `MathEvaluation.AdjacentUnaryFails` | libs/math_eval/source/math_eval/math_evaluator.cpp:79-127 | input that starts with two adjacent unary operators never gives a value, whatever follows them |
| `ConversionLimits.ConvertsExactly` | libs/math_eval/source/math_eval/math_evaluator.cpp:79-127 | a well-formed tree printed as infix converts to its post-order listing if and only if precedence and associativity leave no parentheses missing |
| `ConversionLimits.ConversionNeeds` | libs/math_eval/source/math_eval/math_evaluator.cpp:79-127 | the same in every context: if any state reads a printed tree into its listing, whatever follows, the tree has its parentheses and fits there |
| `ConversionLimits.OperatorFits` | libs/math_eval/source/math_eval/math_evaluator.cpp:88-96 | an operator whose surroundings convert correctly has popped exactly the pending operators of its left operand |
| `ConversionLimits.AdjacentUnaryMoves` | libs/math_eval/source/math_eval/math_evaluator.cpp:88-96 | in every state with no third unary operator on top, behind a bracket too, the first of two adjacent unary operators is output when the second is read, ahead of its own operand |
| `ConversionLimits.AdjacentUnaryRegroups` | libs/math_eval/source/math_eval/math_evaluator.cpp:79-127 | wherever an operand and its binary operator stand, two adjacent unary operators behind them read exactly as if the first were applied to that left operand: a + - - b as (-a) + (-b) |
| `MathEvaluation.MathEvaluator.PopOperators` | libs/math_eval/source/math_eval/math_evaluator.cpp:88-96 | the inner loop pops exactly the operators that bind tighter |
| `MathEvaluation.MathEvaluator.PopToBracket` | libs/math_eval/source/math_eval/math_evaluator.cpp:98-111 | unwinding to the bracket, or failure when there is none |
| `MathEvaluation.MathEvaluator.ToPostfix` | libs/math_eval/source/math_eval/math_evaluator.cpp:79-127 | the queue-and-stack loop computes the conversion and reports mismatched parentheses exactly when it fails |
| `MathEvaluation.MathEvaluator.EvaluatePostfix` | libs/math_eval/source/math_eval/math_evaluator.cpp:259-430 | the stack machine yields exactly the outcome and error text of the specification run |
| `MathEvaluation.MathEvaluator.Evaluate` | libs/math_eval/source/math_eval/math_evaluator.cpp:433-465 | for every printed tree, assigned or not, the result is its meaning; the target variable is set exactly when there is a result and it is not constant; the error text is that of the run; no function or other variable changes |
| `MathEvaluation.AssignmentParts` | libs/math_eval/source/math_eval/math_evaluator.cpp:439-453 | x = e assigns the value of e to x |
| `MathEvaluation.NoAssignment` | libs/math_eval/source/math_eval/math_evaluator.cpp:439-453 | anything else assigns its value to ans |
| `MathEvaluation.OperandsExactly` | libs/math_eval/source/math_eval/math_evaluator.cpp:397-413 | a variable evaluates to its value, a call to the result of the function, exactly when it is known and takes that many arguments |
| `IntegerEvaluation.Sums` | libs/math_eval/source/math_eval/math_evaluator.cpp:351-391 | on 64-bit signed integers l + r, l - r, l * r and l ** r come to the sum, difference, product and power modulo 2^64 |
| `IntegerEvaluation.Quotients` | libs/math_eval/source/math_eval/math_evaluator.cpp:360-380 | l / r and l % r satisfy l = q r + m with |m| < |r| and m zero or of the sign of l; a zero divisor gives nothing |
| `IntegerEvaluation.Comparisons` | libs/math_eval/source/math_eval/math_evaluator.cpp:315-332 | the six comparisons give 1 or 0 as the integers compare |
| `IntegerEvaluation.Logic` | libs/math_eval/source/math_eval/math_evaluator.cpp:304-314 | && and || and ! test for zero; ^^ is 1 exactly when the operands differ and have the same sign |
| `IntegerEvaluation.Bitwise` | libs/math_eval/source/math_eval/math_evaluator.cpp:333-347 | &, | and ^ work bit by bit in two's complement, ~r is -1 - r |
| `IntegerEvaluation.ShiftsOf` | libs/math_eval/source/math_eval/math_evaluator.cpp:345-350 | << by less than 64 multiplies by 2^r modulo 2^64, >> divides by 2^r rounding down |
| `IntegerEvaluation.Combination` | libs/math_eval/source/math_eval/math_evaluator.cpp:383-385 | combining puts the bits of r behind those of l: l 2^k + r modulo 2^64, k the bit width of r |
| `IntegerEvaluation.Signs` | libs/math_eval/source/math_eval/math_evaluator.cpp:386-391 | unary plus changes nothing, unary minus negates modulo 2^64, twice gives the number back |
| `IntegerEvaluation.NoOperators` | libs/math_eval/source/math_eval/math_evaluator.cpp:299-303 | the invalid and assignment operators give nothing |
| `Words.BitByBit` | libs/math_eval/source/math_eval/math_evaluator.cpp:333-344 | and, or and exclusive or of numbers, bit by bit |
| `MathEvaluation.MathEvaluator.SetVariable` | libs/math_eval/source/math_eval/math_evaluator.cpp:467-470 | defines or replaces one variable |
| `MathEvaluation.MathEvaluator.SetFunction` | libs/math_eval/source/math_eval/math_evaluator.cpp:472-483 | defines or replaces one function |
| `MathEvaluation.PowI` | libs/math_eval/source/math_eval/math_evaluator.cpp:15-31 | integer power modulo the word, 0 for negative exponents |
| `CyclicRedundancy.EightSteps` | libs/hash/include/wolv/hash/crc.hpp:17-35 | eight steps of the reflected register are one table lookup and a shift |
| `CyclicRedundancy.FeedTogether` | libs/hash/include/wolv/hash/crc.hpp:44-51 | adding the bits of a byte at once equals adding them one per step |
| `CyclicRedundancy.FeedDivides` | libs/hash/include/wolv/hash/crc.hpp:44-51 | the simulation: the reflected register after any bits is the division register read backwards |
| `CyclicRedundancy.EngineIsDivision` | libs/hash/include/wolv/hash/crc.hpp:14-63 | the table engine gives the result of MSB-first bit-at-a-time polynomial division for every width 1 to 64, polynomial, init, xor-out, both reflections and message |
| `CyclicRedundancy.MessageBitAt` | libs/hash/include/wolv/hash/crc.hpp:44-51 | the bit entering the division at place 8 k + i is bit i of byte k when the input is reflected, bit 7 - i otherwise |
| `CyclicRedundancy.UnreflectedChecksum` | libs/hash/include/wolv/hash/crc.hpp:46-49 | unreflected input gives the checksum of reflected input with the bits of every byte reversed |
| `CyclicRedundancy.ChecksumBit` | libs/hash/include/wolv/hash/crc.hpp:58-63 | bit i of the result is the final register coefficient of x^i, or of x^(N-1-i) when the output is reflected, changed by bit i of the xor-out; bits from N on are clear |
| `PolynomialDivision.DivisionEquation` | libs/hash/include/wolv/hash/crc.hpp:14-63 | the bit-at-a-time register is a real division: message times x^N, init added to its front, equals quotient times generator plus register over GF(2) |
| `PolynomialDivision.DivisionUnique` | libs/hash/include/wolv/hash/crc.hpp:14-63 | quotient and remainder of that equation are unique |
| `PolynomialDivision.UndetectedErrors` | libs/hash/include/wolv/hash/crc.hpp:14-63 | two equally long messages have the same register if and only if the generator divides their difference |
| `CyclicRedundancy.BuildTable` | libs/hash/include/wolv/hash/crc.hpp:19-33 | entry i is eight register steps of i, for all 256 entries |
| `CyclicRedundancy.Reflect` | libs/hash/include/wolv/hash/crc.hpp:66-79 | the bit loop reverses the low bits and clears the rest |
| `CyclicRedundancy.ReflectByte` | libs/hash/include/wolv/hash/crc.hpp:81-94 | the three mask-and-shift exchanges reverse a byte |
| `CyclicRedundancy.Crc.constructor` | libs/hash/include/wolv/hash/crc.hpp:14-38 | starts as the CRC of the empty message |
| `CyclicRedundancy.Crc.Reset` | libs/hash/include/wolv/hash/crc.hpp:40-42 | forgets the message |
| `CyclicRedundancy.Crc.ProcessBytes` | libs/hash/include/wolv/hash/crc.hpp:44-51 | appends to the message, in as many calls as one likes |
| `CyclicRedundancy.Crc.GetResult` | libs/hash/include/wolv/hash/crc.hpp:58-63 | the checksum by polynomial division of everything processed since the last reset |
| `CyclicRedundancy.BurstDetected` | libs/hash/include/wolv/hash/crc.hpp:17-51 | with the constant term set, messages differing only within N consecutive bits end in different registers |
| `CyclicRedundancy.ByteBurstDetected` | libs/hash/include/wolv/hash/crc.hpp:14-63 | equal-length messages that differ in one byte, or within N / 8 consecutive bytes, never have the same CRC |
| `CyclicRedundancy.Crc32Polynomial` | libs/hash/include/wolv/hash/crc.hpp:17-18 | 0x04C11DB7 reflected is 0xEDB88320 |
| `CyclicRedundancy.Crc32IsRfc1952` | libs/hash/include/wolv/hash/crc.hpp:14-63 | the CRC-32 parameters compute, on every message, what the sample code in section 8 of RFC 1952 does with its own table and loops |
| `ThreadPool.CounterKept` | libs/utils/include/wolv/utils/thread_pool.hpp:123-133 | available counter plus counted running workers stays the thread count across every step |
| `ThreadPool.QueueKept` | libs/utils/include/wolv/utils/thread_pool.hpp:75-131 | queued plus taken tasks stay the enqueued ones, in order, and the next taken is the oldest |
| `ThreadPool.WakeupKept` | libs/utils/include/wolv/utils/thread_pool.hpp:75-127 | no step loses a wakeup |
| `ThreadPool.InvKept` | libs/utils/include/wolv/utils/thread_pool.hpp:18-136 | every step of enqueuers, workers and stoppers keeps the whole invariant |
| `ThreadPool.InvAlways` | libs/utils/include/wolv/utils/thread_pool.hpp:18-136 | the invariant holds in every state of every run |
| `ThreadPool.TakenInOrder` | libs/utils/include/wolv/utils/thread_pool.hpp:75-131 | in every interleaving tasks are taken at most once and in enqueue order |
| `ThreadPool.WakeupToCome` | libs/utils/include/wolv/utils/thread_pool.hpp:75-127 | a non-empty queue means an awake worker or a notification still to come |
| `ThreadPool.IdleWhenSeen` | libs/utils/include/wolv/utils/thread_pool.hpp:99-114 | when the stopTasks wait ends, no counted worker is running |
| `ThreadPool.FlagChanges` | libs/utils/include/wolv/utils/thread_pool.hpp:84-113 | stop and stopTasks raise the flag the tasks read, a returning stopTasks takes it down, nothing else touches it |
| `ThreadPool.FlagStaysUp` | libs/utils/include/wolv/utils/thread_pool.hpp:84-113 | once raised the flag is up until some stopTasks returns |
| `ThreadPool.PoppedTaskEscapes` | libs/utils/include/wolv/utils/thread_pool.hpp:99-136 | a run in which that wait ends while a popped task is still about to run |
| `ThreadPool.EscapesExactly` | libs/utils/include/wolv/utils/thread_pool.hpp:99-136 | from every reachable state in which stopTasks waits, the wait can end that way without new tasks, whatever stoppers do meanwhile, if and only if a worker holds an uncounted task already, or a task is queued and some worker has not exited; spurious wakeups make no difference |
| `ThreadPool.FlagLostExactly` | libs/utils/include/wolv/utils/thread_pool.hpp:99-113 | a waiting caller of stopTasks can find the stop flag taken down, no new calls being made, if and only if it is down already or another caller has not returned |
| `ThreadPool.EscapeNeedsAlways` | libs/utils/include/wolv/utils/thread_pool.hpp:75-136 | from any other state no steps but a new task lead there |
| `ThreadPool.FinishedAtExit` | libs/utils/include/wolv/utils/thread_pool.hpp:84-136 | once all workers have exited, every task enqueued before the last exit has finished |
| `ThreadPool.Quiescent` | libs/utils/include/wolv/utils/thread_pool.hpp:75-136 | when no worker can step, either all have exited or the queue is empty, every enqueued task has finished, nobody has asked to stop, and all wait and are counted available: no deadlock |
| `ThreadPool.Settles` | libs/utils/include/wolv/utils/thread_pool.hpp:75-136 | without new tasks every sequence of worker and notification steps is bounded by the work left, and it ends with all tasks finished or all workers exited |
| `ThreadPool.StopDrains` | libs/utils/include/wolv/utils/thread_pool.hpp:84-136 | after stop, worker steps strictly shrink the remaining work and one is always possible until all have exited |
| `IntervalTrees.SortGivesIndex` | libs/containers/include/wolv/container/interval_tree.hpp:225-235 | the sorted index lists every stored interval once, by start, then end, then insertion |
| `IntervalTrees.MaxEndIsMaximum` | libs/containers/include/wolv/container/interval_tree.hpp:244-264 | the maxEnd of a node is the true maximum over its range |
| `IntervalTrees.PrunedRange` | libs/containers/include/wolv/container/interval_tree.hpp:266-271 | a pruned node has no overlapping interval in its range |
| `IntervalTrees.ScanAll` | libs/containers/include/wolv/container/interval_tree.hpp:171-188 | scanning in sorted order finds the same multiset as a scan in insertion order |
| `IntervalTrees.IntervalTree.Insert` | libs/containers/include/wolv/container/interval_tree.hpp:70-83 | appends, and marks the index stale |
| `IntervalTrees.IntervalTree.Clear` | libs/containers/include/wolv/container/interval_tree.hpp:126-131 | empty with a valid index |
| `IntervalTrees.IntervalTree.EnsureIndex` | libs/containers/include/wolv/container/interval_tree.hpp:221-242 | rebuilds the index when stale and leaves the stored intervals alone |
| `IntervalTrees.IntervalTree.BuildNode` | libs/containers/include/wolv/container/interval_tree.hpp:244-264 | appends a tree of 2k - 1 nodes that partition the range and carry the right maxEnd, older nodes unchanged |
| `IntervalTrees.IntervalTree.Search` | libs/containers/include/wolv/container/interval_tree.hpp:266-282 | the pruned recursive search adds exactly the overlapping intervals of the range |
| `IntervalTrees.OverlapsPoints` | libs/containers/include/wolv/container/interval_tree.hpp:35-37 | two intervals overlap exactly when some point lies in both, ends included |
| `IntervalTrees.IntervalTree.Overlapping` | libs/containers/include/wolv/container/interval_tree.hpp:171-188 | in every reachable state: every stored entry whose interval shares a point with the query, as often as it is stored, and nothing else; starts descending, ends ascending among equal starts |
| `IntervalTrees.IntervalTree.NextInterval` | libs/containers/include/wolv/container/interval_tree.hpp:89-101 | an interval with the nearest start strictly after the index (then the smallest end), or none when there is none |
| `IntervalTrees.IntervalTree.PrevInterval` | libs/containers/include/wolv/container/interval_tree.hpp:107-121 | an interval with the nearest start strictly before the index (then the largest end), or none when there is none |
| `StringTools.Find` | libs/utils/source/utils/string.cpp:15-15 | the first occurrence at or after a position, or none |
| `StringTools.SplitString` | libs/utils/source/utils/string.cpp:7-32 | the split; when asked, without the empty parts, but an empty text or delimiter gives the text as its only part either way |
| `StringTools.NonEmptyPositions` | libs/utils/source/utils/string.cpp:28-29 | removing empty parts keeps exactly the non-empty ones, each once for each place it stands, in order |
| `StringTools.CombineStrings` | libs/utils/source/utils/string.cpp:34-42 | the parts joined by the delimiter, none after the last |
| `StringTools.ReplaceStrings` | libs/utils/source/utils/string.cpp:44-55 | terminates for every replacement, one containing the search text included, and equals combine(split(s, search), replacement); an empty search changes nothing |
| `StringTools.ReplaceIsCombined` | libs/utils/source/utils/string.cpp:7-55 | replacing from left to right is splitting and joining |
| `StringTools.SplitCombine` | libs/utils/source/utils/string.cpp:7-42 | split then combine with the same delimiter restores the string |
| `StringTools.PiecesAreClean` | libs/utils/source/utils/string.cpp:7-32 | no part contains the delimiter |
| `Unicode.AssembleUtf8` | libs/utils/source/utils/string.cpp:150-270 | decoding the UTF-8 sequence of any value below 0x200000 gives it back, and sequences of scalar values are valid per section 4 of RFC 3629 |
| `Unicode.ValidCharIsUtf8` | libs/utils/source/utils/string.cpp:218-270 | every valid sequence is the encoding of a scalar value, and of the one it decodes to |
| `Unicode.Utf32RoundTrip` | libs/utils/source/utils/string.cpp:218-270 | UTF-32 to UTF-8 succeeds exactly up to 0x10FFFF and decoding then restores the list |
| `Unicode.StrayByte` | libs/utils/source/utils/string.cpp:235-241 | a byte that starts no sequence decodes to itself with allowInvalid and fails the decoding without |
| `Unicode.Utf16RoundTrip` | libs/utils/source/utils/string.cpp:150-216 | UTF-16 to UTF-8 succeeds exactly on text whose surrogates come in pairs; decoding restores the text exactly when no pair starts with a unit from 0xDFC0 on, and fails otherwise |
| `Unicode.WellFormedIsReadable` | libs/utils/source/utils/string.cpp:150-216 | well-formed UTF-16 (sections 2.1 and 2.2 of RFC 2781) is always in the good case |
| `Unicode.CodePointsAgree` | libs/utils/source/utils/string.cpp:150-270 | encoding the code points of UTF-16 text equals encoding the text |
| `Unicode.DecodedCodePoints` | libs/utils/source/utils/string.cpp:150-270 | well-formed UTF-16 goes to valid UTF-8, which decodes to its code points as UTF-32 and to itself as UTF-16 |
| `Unicode.ValidRoundTrip` | libs/utils/source/utils/string.cpp:218-270 | valid UTF-8 decodes to scalar values and re-encodes to itself |
| `Unicode.ConvertUtf16ToUtf8` | libs/utils/source/utils/string.cpp:150-178 | the index loop computes the conversion, failures included |
| `Unicode.ConvertUtf8ToUtf16` | libs/utils/source/utils/string.cpp:180-216 | the index loop computes the decoding, failures included |
| `Unicode.ConvertUtf8ToUtf32` | libs/utils/source/utils/string.cpp:218-246 | the index loop computes the decoding for both settings of allowInvalid |
| `Unicode.ConvertUtf32ToUtf8` | libs/utils/source/utils/string.cpp:248-270 | the loop computes the encoding, failures included |
| `Unicode.TailsAreInside` | libs/utils/source/utils/string.cpp:317-324 | in valid UTF-8 a byte is a continuation byte exactly when no code point starts there |
| `Unicode.NextBoundary` | libs/utils/source/utils/string.cpp:326-341 | the lead byte tells where the next code point starts |
| `Unicode.TruncateUtf8` | libs/utils/source/utils/string.cpp:310-344 | a prefix of at most max_bytes; for valid UTF-8 the longest one that ends on a code point boundary, itself valid |
| `BufferedReaders.BufferedReader.constructor` | libs/io/include/wolv/io/buffered_reader.hpp:15-20 | window over the whole data (over one byte when it is empty), no valid buffer, for any data and buffer size |
| `BufferedReaders.BufferedReader.Seek` | libs/io/include/wolv/io/buffered_reader.hpp:22-24 | moves the start; the buffer stays a slice of the data |
| `BufferedReaders.BufferedReader.SetEndAddress` | libs/io/include/wolv/io/buffered_reader.hpp:26-28 | moves the end, to any address; the buffer stays a slice of the data |
| `BufferedReaders.BufferedReader.RefillRange` | libs/io/include/wolv/io/buffered_reader.hpp:286-301 | with 64-bit wrap-around: the range ends by the end address and covers every request inside the window; it starts at or behind the start address always forward, and in reverse if and only if it does not end below the start address or ends before a full buffer |
| `BufferedReaders.BufferedReader.UpdateBuffer` | libs/io/include/wolv/io/buffered_reader.hpp:284-318 | keeps the buffer a slice of the data, and available bytes reported mean that the address is inside it |
| `BufferedReaders.BufferedReader.Read` | libs/io/include/wolv/io/buffered_reader.hpp:38-67 | after any run of calls a read inside the window, or one that bypasses the buffer, returns the bytes of the data; any other returns a prefix of them followed by zeros |
| `BufferedReaders.BufferedReader.ReadReverse` | libs/io/include/wolv/io/buffered_reader.hpp:46-82 | the same for the cache that loads backwards |
| `BufferedReaders.BufferedReader.Forward` | libs/io/include/wolv/io/buffered_reader.hpp:84-172 | forward iteration yields exactly the window |
| `BufferedReaders.BufferedReader.Backward` | libs/io/include/wolv/io/buffered_reader.hpp:175-281 | reverse iteration yields exactly its reversal, also when the window starts at 0 and the end marker wraps |

## Left out

- MultiplyLowFour: needs limbs of at least 8 bits (b >= 256), the smallest limb type of the library.
- Sqrt: proved for widths up to 2^52 bits, far beyond any object's size; from there on the error bound no longer reaches the root in 64 rounds.
- Cbrt: as Sqrt.
- PaddedRoundTrip: leaves out octal text padded with apostrophes or the digits 1 to 9, which is read as a decimal number; whether that wraps around to the same value has no simpler condition than reading it. Widths from 16 bits, the smallest the library allows; a NUL as fill character ends the string.
- WideDecimalIsCut: between 93000 and 441000 bits it depends on the width; `UnsignedPrints` and `SignedPrints` hold at every width.
- PowMod: the modulus must not be zero; with zero the source divides by zero and the result is whatever its division convention gives.
- Read: a read whose end passes 2^64 and which the wrapped range test takes for a hit reads behind the buffer, which is undefined in C++; `Defined` excludes it. The bytes of a window read are promised when the end address plus the buffer size stays below 2^64, because the source's sums wrap there.
- ReadReverse: as Read.
- Forward: as Read, for the window; iterators that run past 2^64 are not modelled.
- Backward: as Forward.
- ConvertUtf8ToUtf32: a sequence cut off at the end of the string makes the source read behind it; the model lets those reads see the terminating zero, while reads further behind are undefined in C++.
- Overlapping: `std::ranges::sort` leaves the order of intervals with equal bounds open; the model sorts stably and claims only the order of the bounds.
- SortGivesIndex: `std::ranges::stable_sort`, `upper_bound` and `lower_bound` are modelled by insertion sort and binary search with the same contracts; `emplace` is `Insert`.
- MillerRabin: how many bases pass an odd composite from 229^2 on is not bounded; non-negative n, type width at least 64 bits; the generator is a stream of raw values, byte assembly in `generate` is not modelled.
- WideGcd: non-negative operands; the `std::gcd` branch of the two-limb reduction is taken to be `gcd_unsafe`.
- ExportBits: non-negative values; iterators are modelled as sequences in the order they are visited.
- ImportBits: as ExportBits.
- Evaluate: starts from the token queue, with evaluated calls as atomic operands; a lookup that inserts an empty function entry is not visible in the model, and an error text set inside a function body is the caller's.
- InvAlways: the counter is unbounded where the source has 32 bits, and what a task does is not modelled.
- FinishedAtExit: tasks always return; a task that never ends keeps its worker from exiting.
- The `WIDE_INTEGER_HAS_CLZ_LIMB_OPTIMIZATIONS` and 8-by-8 unrolled multiplication branches, which are off by default.
- Shift amounts of 64 and more in the evaluator: undefined in C++, so the model lets the operand type choose.
- `rootk`, random quality, `to_chars`, stream operators, literals, floating-point interoperability, allocator-backed storage and iterator adaptors of the big integers.
- Sums: overflow of signed 64-bit arithmetic, open in C++, is taken to wrap around; shifts by 64 or more stay open.
- The character scanner `parseInput`, the standard functions and constants, and the `long double` evaluator.
- Moving a thread pool, and changing interval-tree values through the non-const iterators.
- Files, handles, paths, sockets, UUIDs, RingBuffer, Lazy, Expected, guards and the remaining string helpers: operating-system calls, or members that would only add easy claims.
