# Verified models of the big-integer engine, the ciphers and the matcher

This project models, in Dafny, the arithmetic core of `lib/libtommath`, the block cipher,
the hashes and the key derivation of `src/`, and the bipartite matcher that the vendored
test framework uses, and proves that they compute what they are meant to compute.
`dafny verify dfyconfig.toml` checks all of it.

What is modelled, from the bottom up:

* `Arith`, `Digits`, `MpInts`: machine words and digits of every supported size, and
  `MpInt`, a class with the digits in use and a sign. Its invariant is that every digit is
  below the radix B, the top digit is not zero, and zero is positive. The small operations
  (`mp_add`, `mp_sub`, shifts, comparisons, `mp_clamp`) are given by the value they leave.
  The word size (15, 28, 31 or 60 bits a digit) and the cutoffs stay open, so every
  statement holds for all of them; a word is twice a machine digit wide.
* `Columns`, `Comba`, `Schoolbook`, `Multiply`: the column and row multipliers and squarings,
  whole, truncated and high; Karatsuba, Toom-Cook, balancing, and the dispatcher through
  which they call each other.
* `DivideDigit`, `OneDigit`, `DivideSchool`, `Divide`: division by one digit, by trial
  digits, and recursively.
* `Montgomery`, `MontgomeryComba`, `Barrett`, `TwoK`, `DiminishedRadix`, `ModulusShape`,
  `ExptWindow`, `ExptMod`: the reducers, the sliding window that runs over any of them, and
  the choice of the reducer by the shape of the modulus.
* `NumberTheory`, `GreatestDivisor`, `Inverse`, `Primes`, `MillerRabin`, `SquareRoot`:
  divisors, inverses, Fermat's little theorem, one primality round, square roots.
* `Logarithm`, `RadixText`, `Packing`, `TwosComplement`: text, words with nails, and bitwise
  operations on signed numbers.
* `Bytes`, `Polynomials`, `GaloisField`, `SubstitutionTables`, `Aes`, `AesBlock`: AES on a block, as a
  composition of steps each of which has its inverse, and in place on arrays. `AesStandard` is the
  cipher of FIPS 197 on blocks as the standard lays them out; `Octets` and `TableMeaning` derive the
  substitution table.
* `Words`, `Sha1`, `Sha256`, `HashStream`: the two compression functions against the round
  loops of FIPS 180-4, and hashing a message that comes in pieces. `PrimeRoots` and
  `HashConstants` derive the constants of the hashes from roots of prime numbers.
* `BitStrings`, `Kbkdf`: counter mode of SP 800-108, with the counter spliced in at any bit.
* `Matching`: augmenting paths in one pass over the left nodes.

An operation that updates its arguments is a method on objects or arrays; what it leaves is
tied to a function or a predicate on values, and the lemmas are about these. Arguments may be
the same object wherever the code allows it. Error codes are modelled (`MP_VAL` as
`BadValue`, `MP_BUF` as `NoRoom`), and a failed call is shown to leave its result alone where
the code does.

## What the code does differently

Where code and comments disagree the model follows the code.

* `mp_exptmod` with a modulus (2^j - 1) * B, where B is the radix and 2 <= j < DIGIT_BIT,
  computes wrong powers: the square of B comes out as 0 (`ExptMod.LossShows`). These moduli
  reach the one-digit 2k reduction with a difference whose lowest digit is zero, and the
  setup keeps that digit only (`TwoK.ReduceCorrectIff`). B itself is the only other modulus
  of this kind, and comes out right. No prime has this form.
* The power zero modulo 1 is 1 (`ExptMod.IsPowerIff`).
* The diminished radix mode of `s_mp_exptmod_fast` is never asked for by `mp_exptmod`
  (`ModulusShape.DrIsMostlyOnes`).
* In `mp_dr_reduce` with k = B and three digits or more the top cell can hold the radix
  itself, which is not a digit (`DiminishedRadix.FoldFitsIff`). The result is right all the
  same, because the next subtraction borrows from that cell (`DiminishedRadix.RadixOnTop`).
* `s_mp_invmod_odd` gives the inverse of a negative number the wrong sign
  (`Inverse.IsInverseIff`). `mp_exptmod` inherits that for a negative base, an odd negative
  exponent and an odd modulus above 1, and in no other case (`ExptMod.TruePowerIff`).
* The halving loop of `s_mp_invmod` does not end when the modulus divides the number
  (`Inverse.HalvingEndsIff`). For an even modulus an earlier test returns; for an odd one
  `mp_invmod` never calls this form, and the contract of `Inverse.InvModGeneral` excludes it.
* `mp_mod` with the result in the divisor does not adjust the sign (`Divide.Mod`).
* `mp_is_square` answers false for zero.
* Without a counter, key derivation drops the byte at the position of the counter when that
  is inside a byte (`Kbkdf.FedIsSpliceIff`); and of a key one bit longer than whole bytes it
  delivers the whole bytes only (`Kbkdf.DeliversIff`). The header allows negative positions;
  the code would read outside the fixed input, so the contract asks for positions inside it.

## Model

| member | source | states |
|---|---|---|
| `ExptMod.ExptMod` | lib/libtommath/mp_exptmod.c:11-76 | for all signed G, X, P and any aliasing with Y: succeeds exactly when P is positive and, for a negative exponent, the base has an inverse; unless P is one of the moduli of `ModulusShape.LosesDifference`, the result is the modular power in range if and only if the arguments satisfy `ResultIsTrue`, and otherwise it is known too; for the excluded moduli the square of the radix comes out as 0; whatever the modulus, a power of the reduced base with a nonnegative exponent that stays below the modulus comes out right; on failure Y keeps its value |
| `ExptMod.TruePowerIff` | lib/libtommath/mp_exptmod.c:20-48 | what comes out is the modular power exactly in these cases: a positive exponent, or the power zero modulo more than 1; and for a negative exponent a base that is not negative, an even exponent, an even modulus, or the modulus 1 |
| `ExptMod.WrongSign` | lib/libtommath/mp_exptmod.c:20-48 | an input on which it is not: the base -1, the exponent -1 and the modulus 3 give 1 instead of 2 |
| `ExptMod.LossShows` | lib/libtommath/mp_exptmod.c:56-67 | for every modulus (2^j - 1) * B, 2 <= j < DIGIT_BIT, the 0 that comes out for the square of the radix is wrong, although exponent and base are of the kind that any other modulus above 1 gets right: such a modulus never gets all powers right, and all other moduli do for the arguments of `ResultIsTrue` |
| `ExptMod.ExptModFast` | lib/libtommath/s_mp_exptmod_fast.c:22-253 | over Montgomery, diminished radix or 2k reduction the result is G^X mod P for every G, every X >= 0 and every P of the shape of the mode, if the one-digit difference is accurate; modulo 1 the Montgomery mode gives 0; even P is refused in Montgomery mode; the window reads initialised table entries only |
| `ExptMod.ExptModGeneric` | lib/libtommath/s_mp_exptmod.c:14-197 | the same over Barrett reduction and over 2k reduction with a long difference, for every positive P; P = 0 is refused in the Barrett mode |
| `ExptMod.IsPowerIff` | lib/libtommath/s_mp_exptmod_fast.c:133-136 | the power zero is 1 even modulo 1, and for nonnegative exponents this is the only case in which the result is not the residue of the power |
| `ExptMod.Run` | lib/libtommath/s_mp_exptmod_fast.c:138-230 | table and window together: from the start value to the value that stands for the whole exponent, whichever reducer runs |
| `ExptMod.ChooseMode` | lib/libtommath/mp_exptmod.c:56-72 | for a modulus without enough full digits the choice is mode 2 or mode 0; the diminished radix mode is never chosen |
| `ModulusShape.DrIsMostlyOnes` | lib/libtommath/mp_exptmod.c:50-57 | why: every diminished radix modulus is already taken by the test for full digits that comes first |
| `ModulusShape.Is2k` | lib/libtommath/mp_reduce_is_2k.c:7-34 | true exactly for the nonzero numbers that are all ones above the lowest digit, that is within B of the next power of two |
| `ModulusShape.LeftForOneDigit` | lib/libtommath/mp_reduce_is_2k.c:7-34 | a modulus that reaches the one-digit 2k mode with lowest digit zero is (2^j - 1) * B with 2 <= j < DIGIT_BIT |
| `ModulusShape.LosesDifferenceShape` | lib/libtommath/mp_reduce_is_2k_l.c:7-27 | conversely each of these passes the one-digit test and none of the tests before it |
| `ModulusShape.SquareFoldsToZero` | lib/libtommath/mp_reduce_2k.c:17-42 | for each of them the fold loop turns the square of the radix into 0 |
| `ExptWindow.Slide` | lib/libtommath/s_mp_exptmod_fast.c:160-230 | the whole bit loop: the result stands for the power of the exponent, and an empty exponent leaves the start value |
| `ExptWindow.Absorb` | lib/libtommath/s_mp_exptmod_fast.c:172-212 | one bit keeps the invariant: the prefix read so far is e * 2^bitcpy + w, where the result stands for the power e and the window holds w left aligned |
| `ExptWindow.NextBit` | lib/libtommath/s_mp_exptmod_fast.c:160-174 | bits leave the buffer in order from the top of the exponent; the loop ends exactly when all digits are read |
| `ExptWindow.EntryOfWindow` | lib/libtommath/s_mp_exptmod_fast.c:192-212 | a full window has its first bit set, so its entry is one of the initialised ones and holds the power of its index |
| `ExptWindow.BuildTable` | lib/libtommath/s_mp_exptmod_fast.c:138-150 | the upper half of the table holds the powers of their index and none of its objects is the result |
| `ExptWindow.Flush` | lib/libtommath/s_mp_exptmod_fast.c:215-230 | bits left in the window are used up one by one |
| `ExptWindow.Redux` | lib/libtommath/s_mp_exptmod_fast.c:72-110 | every reducer leaves a residue in range; divided by its factor it is congruent to the argument if the reducer is exact |
| `TwoK.ReduceCorrectIff` | lib/libtommath/mp_reduce_2k.c:7-47 | for moduli of two digits or more that are all ones above the lowest digit, the one-digit loop with the set-up difference computes a mod n for all a if and only if the lowest digit of n is not zero or n is the radix |
| `TwoK.Reduce` | lib/libtommath/mp_reduce_2k.c:7-47 | for any difference at most the true one the loop ends and leaves what `FoldResult` defines |
| `TwoK.FoldIsMod` | lib/libtommath/mp_reduce_2k_l.c:22-44 | folding with the true difference gives the residue, for every number and modulus |
| `TwoK.ReduceLarge` | lib/libtommath/mp_reduce_2k_l.c:10-50 | a mod n for every a >= 0 and n > 0 |
| `TwoK.Setup` | lib/libtommath/mp_reduce_2k_setup.c:7-30 | what is kept of 2^p - a is its lowest digit |
| `DiminishedRadix.Reduce` | lib/libtommath/mp_dr_reduce.c:20-67 | x mod n for every diminished radix modulus and every 0 <= x <= (n-1)^2, in place and over any number of passes |
| `DiminishedRadix.FoldFitsIff` | lib/libtommath/mp_dr_reduce.c:39-50 | every x in that range folds into m + 1 digits if and only if k is a digit or the modulus has two digits: exactly in the other cases the top cell can come to hold the radix itself |
| `DiminishedRadix.RadixOnTop` | lib/libtommath/mp_dr_reduce.c:46-64 | when it does, what is below the top cell is less than the modulus, so the subtraction that follows borrows from it |
| `DiminishedRadix.SubtractDigits` | lib/libtommath/s_mp_sub.c:19-43 | cell by cell with wrap-around and the top bit as borrow, the difference comes out in proper digits, also when the top cell holds the radix and is borrowed from |
| `DiminishedRadix.FoldOnce` | lib/libtommath/mp_dr_reduce.c:35-65 | one pass with its comparison and subtraction: the fold, or the fold less the modulus when that is not larger |
| `DiminishedRadix.FoldPass` | lib/libtommath/mp_dr_reduce.c:39-53 | one pass over 2m digits leaves the value of the lower half plus k times the upper half, for every k up to the radix; only the top cell may hold the radix |
| `Montgomery.ReduceBaseline` | lib/libtommath/mp_montgomery_reduce.c:7-88 | for odd n of k digits and 0 <= x < n * B^k the result is the r in [0, n) with r * B^k congruent to x |
| `MontgomeryComba.ReduceComba` | lib/libtommath/s_mp_montgomery_reduce_comba.c:14-117 | the same result from columns with delayed carries, for n below MAX_COMBA digits |
| `MontgomeryComba.ClearColumns` | lib/libtommath/s_mp_montgomery_reduce_comba.c:49-81 | the low columns vanish modulo the radix, a multiple of n was added, and no column ever exceeds a word |
| `MontgomeryComba.OneColumn` | lib/libtommath/s_mp_montgomery_reduce_comba.c:75-80 | room for one more product in a column |
| `MontgomeryComba.PropagateColumns` | lib/libtommath/s_mp_montgomery_reduce_comba.c:88-101 | the high columns carried through are the digits of the quotient |
| `Montgomery.Setup` | lib/libtommath/mp_montgomery_setup.c:7-38 | fails exactly for even n; otherwise rho * n is -1 modulo the radix, for each word size |
| `Montgomery.InverseStep` | lib/libtommath/mp_montgomery_setup.c:25-36 | each step doubles the number of correct low bits |
| `Montgomery.CalcNormalization` | lib/libtommath/mp_montgomery_calc_normalization.c:12-42 | B^k mod b for every odd b > 1 of k digits; for b = 1 the 1 it starts from |
| `Barrett.Reduce` | lib/libtommath/mp_reduce.c:10-82 | x mod m for every x of at most twice the digits of m, hence for all 0 <= x < m^2 |
| `Barrett.Estimate` | lib/libtommath/mp_reduce.c:16-43 | the quotient estimate is never too large and misses less than B^(um+1), although the product lacks its low columns |
| `Barrett.NotTooSmall` | lib/libtommath/mp_reduce.c:21-43 | the estimate falls short by at most two and what the product lost |
| `Barrett.Setup` | lib/libtommath/mp_reduce_setup.c:9-16 | mu is B^(2 um) / m rounded down |
| `Multiply.Mul` | lib/libtommath/mp_mul.c:7-66 | c = a * b with its sign for every pair of numbers and any aliasing, through every algorithm; the mutual recursion ends |
| `Multiply.MulMagnitudes` | lib/libtommath/mp_mul.c:17-59 | each branch of the dispatcher gives the product of the magnitudes |
| `Multiply.ToomProducts` | lib/libtommath/s_mp_mul_toom.c:32-200 | five products of a third of the size give the product |
| `Multiply.Interpolate` | lib/libtommath/s_mp_mul_toom.c:131-169 | the five coefficients are recovered; the divisions by 3 and 2 are exact |
| `Multiply.ToomSquares` | lib/libtommath/s_mp_sqr_toom.c:21-131 | the same for squares, with their own interpolation |
| `Multiply.KaratsubaProduct` | lib/libtommath/s_mp_mul_karatsuba.c:35-149 | three products of half the size give the product |
| `Multiply.SqrKaratsuba` | lib/libtommath/s_mp_sqr_karatsuba.c:13-90 | three squares of half the size give the square |
| `Multiply.BalancedProduct` | lib/libtommath/s_mp_mul_balance.c:7-69 | the slices of the longer operand times the shorter one sum up to the product |
| `Comba.MulComba` | lib/libtommath/s_mp_mul_comba.c:22-76 | the product modulo B^digs, for every digs |
| `Comba.AddColumn` | lib/libtommath/s_mp_mul_comba.c:42-60 | one column is the sum of its digit products and the carry, and it never exceeds a word |
| `Comba.ColumnRoom` | lib/libtommath/s_mp_mul_comba.c:7-20 | MAX_COMBA products and a carry fit in a word, and the next carry is small enough again |
| `Comba.SqrComba` | lib/libtommath/s_mp_sqr_comba.c:16-85 | the square, from doubled half columns and middle squares |
| `Comba.MulHighComba` | lib/libtommath/s_mp_mul_high_comba.c:15-68 | the columns from digs on are those of the whole product without the carries from below |
| `Columns.HighPartBound` | lib/libtommath/s_mp_mul_high.c:7-47 | what dropping the low columns loses: less than B - 1 units of the first kept column for each row |
| `Columns.ColumnsAreProduct` | lib/libtommath/s_mp_mul_comba.c:39-61 | the columns together are the product |
| `Schoolbook.MulSchool` | lib/libtommath/s_mp_mul.c:10-59 | the product modulo B^digs, row by row |
| `Schoolbook.MulHighSchool` | lib/libtommath/s_mp_mul_high.c:9-50 | the high columns, row by row; agrees with the column form |
| `Schoolbook.SqrSchool` | lib/libtommath/s_mp_sqr.c:7-63 | the square, with doubled rows and the carry carried on |
| `Schoolbook.SquareRowSum` | lib/libtommath/s_mp_sqr.c:21-58 | the carry of a row dies out inside the buffer |
| `Divide.Div` | lib/libtommath/mp_div.c:6-40 | quotient and remainder for every signed pair, b = 0 an error that changes nothing |
| `Divide.DivSchool` | lib/libtommath/s_mp_div_school.c:19-154 | a = c * b + d with |d| < |b| and d zero or of the sign of a |
| `DivideSchool.TrialDigit` | lib/libtommath/s_mp_div_school.c:72-108 | the corrected trial digit is never below the true digit and at most one above it; the correction loop ends |
| `DivideSchool.EarlyExit` | lib/libtommath/s_mp_div_school.c:93-108 | the comparison of digit sequences may end the loop early when the top digit is zero; the digit is then small enough all the same |
| `DivideSchool.QuotientDigit` | lib/libtommath/s_mp_div_school.c:67-123 | one step with one add-back at most: digit and remainder are exact |
| `DivideSchool.WindowsAreTops` | lib/libtommath/s_mp_div_school.c:96-107 | the digits that the step looks at are the tops of the remainder and of the shifted divisor |
| `MpInts.DivisionUnique` | lib/libtommath/s_mp_div_school.c:7-18 | the contract of signed division determines quotient and remainder |
| `Divide.DivRecursive` | lib/libtommath/s_mp_div_recursive.c:80-157 | the same quotient and remainder as the schoolbook form, for all |a| >= |b| > 0 |
| `Divide.RecursiveDivRem` | lib/libtommath/s_mp_div_recursive.c:17-77 | both half steps and their correction loops; the difference of the lengths decreases |
| `Divide.BlockDivRem` | lib/libtommath/s_mp_div_recursive.c:117-140 | the blocks of the dividend, divided from the top, recombine exactly |
| `Divide.CorrectDownwards` | lib/libtommath/s_mp_div_recursive.c:45-52 | lowering the quotient ends with a remainder in range |
| `Divide.Mod` | lib/libtommath/mp_mod.c:7-13 | the residue in [0, b) for b > 0, and for b < 0 the congruent number with b < c <= 0; into the divisor itself the remainder of the sign of the dividend; b = 0 is an error that changes nothing |
| `DivideDigit.DivThree` | lib/libtommath/s_mp_div_3.c:7-62 | division by three by multiplying with B / 3 and fixing up |
| `DivideDigit.ThirdEstimate` | lib/libtommath/s_mp_div_3.c:29-34 | the estimate of a third is never too large |
| `OneDigit.Div` | lib/libtommath/mp_div_d.c:7-82 | quotient rounded towards zero and remainder of the magnitudes by one digit, through all short cuts |
| `OneDigit.TwoPowerIff` | lib/libtommath/mp_div_d.c:37-46 | b & (b - 1) is zero for the powers of two only |
| `MillerRabin.Round` | lib/libtommath/mp_prime_miller_rabin.c:13-90 | succeeds exactly for a base above 1 and a positive number; an odd prime is never rejected to a base above 1 that it does not divide; for moduli that keep their difference the answer is the strong pseudoprime condition; modulo 2 it is whether the base is odd, and modulo 1 it is true |
| `MillerRabin.PrimesPass` | lib/libtommath/mp_prime_miller_rabin.c:51-81 | every odd prime satisfies that condition |
| `Primes.Fermat` | lib/libtommath/mp_prime_miller_rabin.c:47-53 | b^(p-1) is 1 modulo a prime that does not divide b |
| `Primes.RootsOfOne` | lib/libtommath/mp_prime_miller_rabin.c:56-78 | modulo a prime the roots of 1 are 1 and -1 |
| `SquareRoot.Sqrt` | lib/libtommath/mp_sqrt.c:7-65 | s with s^2 <= n < (s+1)^2 for every n >= 0, an error for negative n |
| `SquareRoot.NewtonStep` | lib/libtommath/mp_sqrt.c:44-56 | a pass either ends at the root or is lower and still safe; the value s + 1 at n = s^2 + 2s is the one to avoid |
| `SquareRoot.SeedSafe` | lib/libtommath/mp_sqrt.c:31-43 | the first iterate is never that value |
| `SquareRoot.IsSquare` | lib/libtommath/mp_is_square.c:29-92 | true exactly for positive squares; zero is answered false |
| `SquareRoot.SquaresPass` | lib/libtommath/mp_is_square.c:47-78 | no residue filter rejects a square |
| `Inverse.InvModGeneral` | lib/libtommath/s_mp_invmod.c:7-115 | succeeds exactly when an inverse exists, then in [0, b); otherwise c is unchanged |
| `Inverse.HalvingEndsIff` | lib/libtommath/s_mp_invmod.c:39-54 | the loop that halves the residue while it is even ends if and only if the modulus does not divide the number |
| `Inverse.BinaryEuclid` | lib/libtommath/s_mp_invmod.c:39-90 | the halving loop ends with gcd(x, y) as a combination of x and y |
| `Inverse.InvModOdd` | lib/libtommath/s_mp_invmod_odd.c:12-114 | succeeds exactly for an odd modulus above 1 and an invertible number |
| `Inverse.IsInverseIff` | lib/libtommath/s_mp_invmod_odd.c:97-110 | what the odd form returns is an inverse if and only if a >= 0 or the modulus is even: for negative a it has the wrong sign |
| `Inverse.InvMod` | lib/libtommath/mp_invmod.c:7-28 | the dispatcher over all signed arguments |
| `NumberTheory.InvertibleIff` | lib/libtommath/s_mp_invmod.c:94-98 | an inverse exists exactly when the greatest common divisor is 1 |
| `GreatestDivisor.GcdOf` | lib/libtommath/mp_gcd.c:7-90 | the greatest common divisor of all signed pairs |
| `GreatestDivisor.OddGcd` | lib/libtommath/mp_gcd.c:62-78 | the subtract and halve loop |
| `GreatestDivisor.ExtEuclid` | lib/libtommath/mp_exteuclid.c:9-70 | a * U1 + b * U2 = U3 = gcd(|a|, |b|) for all signed pairs |
| `GreatestDivisor.EuclidStep` | lib/libtommath/mp_exteuclid.c:27-48 | a rotation of the triples keeps both identities and the divisor |
| `TwosComplement.Combine` | lib/libtommath/mp_and.c:7-52 | the streamed AND, OR and XOR are the infinite two's complement operations on all signed pairs |
| `TwosComplement.BitsOfBitwise` | lib/libtommath/mp_or.c:7-52 | what that operation is: every bit of the result is the operation on the bits |
| `TwosComplement.BitsInNumbers` | lib/libtommath/mp_xor.c:7-52 | the same in numbers: a bit of AND is the carry of the two bits, a bit of XOR their sum without carry, a bit of OR half the sum rounded up |
| `TwosComplement.SignExtended` | lib/libtommath/mp_xor.c:18-37 | after the last digit the converted operand is the number with its sign extended |
| `TwosComplement.ExtraDigitEnough` | lib/libtommath/mp_and.c:9-16 | one digit more than the longer operand is enough for a negative result |
| `Packing.RoundTrip` | lib/libtommath/mp_unpack.c:16-46 | unpacking what was packed gives the number back for every order, endianness, word size and nails |
| `Packing.Pack` | lib/libtommath/mp_pack.c:9-67 | fails exactly when the announced count exceeds the room; otherwise every byte holds its bits and the nails are zero |
| `Packing.Unpack` | lib/libtommath/mp_unpack.c:9-47 | the number that the words hold |
| `Packing.PackCountIff` | lib/libtommath/mp_pack_count.c:6-10 | the count is the least number of words that hold all bits |
| `Packing.PlainBytes` | lib/libtommath/mp_pack.c:36-52 | without nails byte p is the p-th byte of the number when words and bytes go up, and the p-th from the end when both go down |
| `Packing.WordHoldsBits` | lib/libtommath/mp_pack.c:27-52 | a packed word, its bytes taken as one number, is the next bits of the number, as many as a word has without nails |
| `Packing.WordReadsLow` | lib/libtommath/mp_unpack.c:31-43 | reading a word takes its bytes, the least significant first, as one number modulo the number of its bits without nails, whatever the nails hold |
| `Packing.LayoutsTurned` | lib/libtommath/mp_pack.c:36-41 | turning the words around leads from one word order to the other, and turning the bytes inside every word from one byte order to the other, for what is packed and for what is unpacked |
| `RadixText.RoundTrip` | lib/libtommath/mp_read_radix.c:7-67 | reading the printed text of any integer in any radix from 2 to 64 gives the integer |
| `RadixText.ToRadix` | lib/libtommath/mp_to_radix.c:22-94 | succeeds exactly when text and terminator fit, and says how much was written |
| `RadixText.RadixSize` | lib/libtommath/mp_radix_size.c:7-32 | the size is exactly what the printer needs |
| `RadixText.ReverseInPlace` | lib/libtommath/mp_to_radix.c:7-20 | the digits turned around in place |
| `RadixText.ReadRadix` | lib/libtommath/mp_read_radix.c:7-67 | accepts exactly the texts whose digits end at the terminator or a line end, and reads their value |
| `RadixText.LengthIsLog` | lib/libtommath/mp_radix_size.c:23-30 | the number of digits is one more than the logarithm |
| `RadixText.MapCharIs` | lib/libtommath/s_mp_radix_map.c:7 | the digits are the characters of the alphabet 0..9A..Za..z+/ in this order |
| `RadixText.DigitOfIff` | lib/libtommath/mp_read_radix.c:35-48 | the reverse map after the conversion to upper case: a character has the value d exactly if it is character d of the alphabet, or up to radix 36 that letter in lower case |
| `RadixText.PrintedDigit` | lib/libtommath/mp_to_radix.c:65-80 | character k of the printed digits is the digit of weight radix to the power of its distance from the end |
| `RadixText.PrintedSign` | lib/libtommath/mp_to_radix.c:53-60 | a minus in front of the digits exactly for negative numbers |
| `RadixText.CaseIgnored` | lib/libtommath/mp_read_radix.c:30-35 | up to radix 36, texts that differ in case only are accepted alike and have the same value |
| `RadixText.LeadingDigit` | lib/libtommath/mp_read_radix.c:49-55 | the value of a text is that of its first digit times the power of the radix, plus the value of the rest |
| `Logarithm.LogN` | lib/libtommath/mp_log_n.c:6-28 | the floor logarithm to every base of one digit, with its error cases |
| `Logarithm.Log` | lib/libtommath/s_mp_log.c:6-79 | the bracket doubles and then halves around the logarithm |
| `Logarithm.LogDigit` | lib/libtommath/s_mp_log_d.c:20-63 | the same on words; no bracket exceeds a word |
| `Logarithm.WordPower` | lib/libtommath/s_mp_log_d.c:6-18 | a square that wraps around is never used |
| `Aes.RoundTrip` | src/aes.c:307-386 | deciphering what was enciphered gives the block back, for all round keys, all blocks and any number of rounds |
| `AesBlock.EncryptDecrypt` | src/aes.c:307-386 | the two block routines in sequence |
| `AesBlock.EncryptBlock` | src/aes.c:307-345 | the in-place routine computes the cipher, which is that of FIPS 197, also when input and output are the same array |
| `AesBlock.DecryptBlock` | src/aes.c:347-386 | the in-place routine computes the inverse cipher, which is that of FIPS 197 |
| `AesStandard.EncipherIsStandard` | src/aes.c:307-345 | the cipher on states, row by row, is the loop of section 5.1 of FIPS 197 on blocks, column by column |
| `AesStandard.DecipherIsStandard` | src/aes.c:347-386 | the inverse cipher is the loop of section 5.3 |
| `AesStandard.AddRoundKeyByte` | src/aes.c:295-305 | byte i of the block is added to byte i of the round key |
| `AesStandard.ShiftRowsByte` | src/aes.c:206-216 | row r of every column comes from the column r places further |
| `AesStandard.InvShiftRowsByte` | src/aes.c:218-228 | the inverse shift brings it back there |
| `AesStandard.SubStateByte` | src/aes.c:158-204 | every byte of the block is replaced by its entry of the table |
| `AesStandard.MatrixRows` | src/aes.c:116-122 | the circulant products are the products with the two matrices of FIPS 197 |
| `TableMeaning.EntriesAreAffineInverses` | src/aes.c:49-67 | every entry of the substitution table is the affine image of the inverse of its index under the field product, and of zero for zero |
| `Aes.RoundUndone` | src/aes.c:325-331 | an inverse round undoes a round |
| `Aes.MixUndone` | src/aes.c:230-250 | the second column mix undoes the first |
| `GaloisField.ColumnRestored` | src/aes.c:116-122 | the two circulant products are inverse on every column |
| `GaloisField.GfMult` | src/aes.c:99-114 | the fixed eight steps give the remainder of the product of polynomials modulo x^8 + x^4 + x^3 + x + 1 |
| `GaloisField.ProductIff` | src/aes.c:94-114 | the shift-and-fold recursion is the one number below 256 that differs from the carry-less product by a carry-less multiple of 0x11b |
| `GaloisField.ProductCommutes` | src/aes.c:94-114 | the product commutes |
| `GaloisField.ProductDistributes` | src/aes.c:94-114 | the product distributes over the exclusive or |
| `Polynomials.RemainderUnique` | src/aes.c:94-114 | two remainders of the same polynomial are equal |
| `GaloisField.MixedTimes` | src/aes.c:94-122 | the mix commutes with the multiplication by x |
| `SubstitutionTables.TablesInverse` | src/aes.c:48-87 | each table entry is undone by the other table |
| `HashStream.HashPieces` | src/sha256.c:273-384 | however a message is cut into update calls, the hash is that of the whole message; for SHA-1 and SHA-256 |
| `HashStream.Hash` | src/sha256.c:387-403 | the one-call form gives the hash of its data |
| `HashStream.Context.Update` | src/sha256.c:273-333 | a piece is appended to the message that the context stands for: whole blocks compressed, the rest buffered, the count kept in two words |
| `HashStream.Context.Final` | src/sha256.c:336-384 | the result is the one-shot fold of the compression function over the padded message |
| `HashStream.StandardHash` | src/sha256.c:336-370 | any hash values that lead from the start value over the blocks of the padded message end in the words whose bytes, the highest first, are the digest |
| `HashStream.PaddedParts` | src/sha256.c:357-361 | where the parts of the padded message stand: the message, the byte 0x80, zeros, and in the last eight bytes the number of bits modulo 2^64, the highest byte first |
| `HashStream.PaddedUnique` | src/sha256.c:357-361 | no other byte string has these parts |
| `HashStream.PaddedInjective` | src/sha1.c:389-399 | messages below 2^61 bytes that are padded alike are equal |
| `HashStream.DigestBytes` | src/sha256.c:363-370 | byte 4k + j of the digest is byte j of word k, the highest first |
| `HashStream.FieldExactIff` | src/sha256.c:349-355 | the length field is the number of bits if and only if the message is below 2^61 bytes |
| `HashStream.FewestZeros` | src/sha1.c:395-398 | the padding is the shortest possible |
| `HashStream.Lengths` | src/sha1.c:389-393 | the two shifted words are the length in bits |
| `Sha256.Process` | src/sha256.c:77-232 | rounds with renamed registers are the round loop of the standard over its message schedule |
| `Sha256.StandardRun` | src/sha256.c:77-232 | any schedule words and registers that satisfy the equations of section 6.2.2 of FIPS 180-4, with sums cut once modulo 2^32, lead to the hash value |
| `Sha256.SigmaBits` | src/sha256.c:22-28 | which bits are added in the four functions of the schedule and the rounds |
| `HashConstants.RoundConstants` | src/sha256.c:56-74 | the constant of round t is the first 32 bits of the fraction of the cube root of prime number t |
| `HashConstants.StartOfSha256` | src/sha256.c:259-266 | the start values are the same for the square roots of the first eight prime numbers |
| `Sha256.Pad` | src/sha256.c:39-45 | one renamed round is one round of the standard |
| `Sha256.SubsAreSigmas` | src/sha256.c:22-28 | the shifted and joined words are the rotations of the standard |
| `Sha1.Process` | src/sha1.c:47-279 | the same for SHA-1 with sixteen words of schedule |
| `Sha1.StandardRun` | src/sha1.c:47-279 | the same for the equations of section 6.1.2 |
| `Sha1.FBits` | src/sha1.c:71-122 | what the rounds do with the bits of three registers: choice, parity, majority, parity |
| `HashConstants.PhaseConstants` | src/sha1.c:72-123 | the constants of the rounds are the square roots of 2, 3, 5 and 10 times 2^30, rounded down |
| `HashConstants.StartOfSha1` | src/sha1.c:303-307 | the start values are the words of twenty bytes that count in hexadecimal digits |
| `Sha1.Rot` | src/sha1.c:31-36 | the word computed over the oldest of the sixteen is the word of the eighty-word schedule |
| `Words.ShortChIs` | src/sha256.c:31 | the three-operation form is the choice function |
| `Words.ShortMajIs` | src/sha256.c:30 | the four-operation form is the majority function |
| `Words.RotRBit` | src/sha256.c:22-23 | a rotation moves bit i + k to bit i, around the end of the word |
| `Kbkdf.Counter` | src/kbkdf.c:68-194 | a counter longer than four bytes is refused; otherwise the buffer holds the key and nothing behind it changed |
| `Kbkdf.Feed` | src/kbkdf.c:112-138 | what the function is fed for block i |
| `Kbkdf.MessageBits` | src/kbkdf.c:117-138 | as bits this is the fixed input up to the position, the counter, and the rest of the fixed input |
| `Kbkdf.FedIsSpliceIff` | src/kbkdf.c:121-138 | this holds if and only if there is a counter or its place is between bytes; without one the byte at the place is lost |
| `Kbkdf.ShiftArrayRight` | src/kbkdf.c:56-66 | the bytes are shifted by 1 to 7 bits as one bit string, with the given bits in front |
| `Kbkdf.StreamBlock` | src/kbkdf.c:110-142 | block j of the output is the function of message j |
| `Kbkdf.DeliversIff` | src/kbkdf.c:105-191 | the key holds the first bits of the output, as many as asked for, if and only if that number is not one above a multiple of eight; then the last bit is missing |
| `Matching.MaxBipartiteMatchState.Compute` | lib/googletest/googlemock/src/gmock-matchers.cc:129-160 | for every graph the result is a matching along edges, and no matching has more edges |
| `Matching.MaxBipartiteMatchState.TryAugment` | lib/googletest/googlemock/src/gmock-matchers.cc:181-205 | a search that fails leaves everything in place and a dead end behind; one that succeeds moves one chain of links; the marks make it end |
| `Matching.BoundFailure` | lib/googletest/googlemock/src/gmock-matchers.cc:144-152 | a failed search proves that its left node adds nothing to a largest matching |
| `Matching.BoundSuccess` | lib/googletest/googlemock/src/gmock-matchers.cc:144-152 | one more left node adds at most one edge |
| `Matching.SearchDone` | lib/googletest/googlemock/src/gmock-matchers.cc:144-152 | the links stay mutually inverse and a largest matching after every search |

## Left out

- Allocation: the field `alloc`, growing of digit arrays and `MP_MEM` are not modelled; neither are `MP_OVF` and the overflow of bit counts held in an `int`.
- The small operations are specified and written by value, so their digit loops are not modelled, except the comparison and the subtraction in `mp_dr_reduce`.
- The digits of an `MpInt` are a sequence, replaced as a whole; loops that work in place on digits run on arrays that are copied in and out.
- Temporaries of the recursive multipliers, of the recursive divider, of the logarithm and of the Euclidean loops are held as numbers, not as `MpInt` objects; that the temporaries do not overlap is not modelled there.
- Null pointers for results that are not wanted: every result is computed.
- Cutoffs are any constants of at least 4, all optional functions are present, and the window is not limited for small memories (`MAX_WINSIZE`).
- The residue tables of `mp_is_square` are sets of residues, the reverse radix map is a case distinction by ranges, and the matrix of the matcher is a sequence of rows.
- Native endianness is one of the two orders.
- The unrolled and the looped variants of the hash rounds are the same sequence of rounds; the looped one is modelled, with the three phases of SHA-1 after round 20 in one loop.
- Masks with powers of two minus one are written as remainders where that is all they do; the substitution of sixteen bytes, written out in the code, is a loop.
- AES key expansion, CTR, CBC and XTS modes, padding: the round trip of a block holds for any round keys.
- The callbacks of key derivation are a function on byte strings that never fails; feedback and double pipeline modes are not part of this model.
- Wiping of memory after use (`memset_safe`) and null checks in `src/`.
- `mp_kronecker`, `mp_sqrtmod_prime`, `mp_root_n`, Lucas and Frobenius tests, `mp_prime_is_prime`, `s_mp_radix_size_overestimate`, conversion from and to `double`.
- HMAC, PBKDF2, HKDF, RC4, the random generators and `rsa.c`: short loops around the modelled parts.
- SHA-512, and everything of the test framework except the matcher.
- Inverse.InvModGeneral: leaves out odd moduli that divide the number, for which `Inverse.HalvingEndsIff` shows that the loop does not end.
- MillerRabin.Round: for composite moduli of the form that loses its difference only the success of the call is stated, not the answer, because the power it starts from is wrong.
- ExptMod.ExptMod: for moduli of the form that loses its difference the result is stated for the square of the radix and for powers below the modulus, not for all others, where it depends on the order of the multiplications.
- AesBlock.EncryptBlock: asks for fewer than sixteen rounds, since the offset into the round keys is held in a byte.
- Kbkdf.Counter: asks for a position inside the fixed input, because the code reads outside it for any other.
- HashStream.Hash: a piece is below 2^32 bytes, the width of its length.
