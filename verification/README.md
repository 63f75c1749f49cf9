# Verified model of the arithmetic, cipher, checksum and state cores

This project models the algorithmic cores of a repository of small experiments and proves what they
are for:

- **Limb arithmetic** (`cpp/BigNum.cpp`): sign-magnitude numbers in 128 cells of 32 bits. The model keeps
  the carry, borrow, trial-quotient and bit loops, and goes from single limbs up to square-and-multiply,
  extended Euclid, the Miller-Rabin test and a complete Paillier run.
- **RSA** (`RSA.java`): Euclid's loop, the private-exponent search, encryption and decryption, with Java's
  32-bit and 64-bit overflow written out.
- **Growable decimal numbers** (`cpp/algorithm/big_num.c`): digit buffers with uninitialised cells, the
  accumulator that does not propagate carries, long multiplication and factorial.
- **Feistel cipher** (`cpp/algorithm/3des.c`): bit arrays permuted, rotated and XORed in place, with the
  source's own tables.
- **CRC-16/XMODEM** (`cpp/algorithm/crc16_xmodem.c`): the bit loop against polynomial division over GF(2).
- **Snowflake ids** (`SnowflakeIdGenerator.java`): one generator as an object, and a fleet of them as a
  state machine over arbitrary interleavings.
- **Quicksort** (`cpp/algorithm/algorithm.c`) and **bit-parallel hole counting** (`cpp/test/eipd.c`,
  `cpp/test/util.c`).

`dafny verify dfyconfig.toml` checks everything.

## How the pieces fit

| file | content |
|---|---|
| `Arithmetic`, `NumberTheory` | powers, congruences, gcd and Bezout, primes, Fermat's little theorem by the binomial theorem, two coprime moduli |
| `Limbs`, `LimbAddSub`, `LimbMul`, `LimbDiv` | the limb numbers and their operators |
| `DivisionRuns` | / and % as written, for all signs and past lost borrows |
| `ModularAlgorithms`, `Paillier` | the algorithms on top of the operators |
| `ProbablePrimes`, `MillerRabin` | what the test decides for primes and composites, and the test itself |
| `Rsa` | textbook RSA |
| `DecimalNumber`, `DecimalArithmetic` | decimal numbers as objects with a growable buffer |
| `FeistelSpec`, `FeistelCipher`, `FeistelTables` | the cipher as functions, in place on arrays, and its tables |
| `FeistelExample` | the program's own block, followed digit by digit through key schedule and rounds |
| `Gf2Polynomials`, `Crc16` | polynomials over GF(2) and the checksum |
| `Snowflake`, `QuickSort`, `Board` | the remaining state and refinement cores |

Three modelling decisions matter when reading the limb part.

1. A limb is 32 bits, as the comment at `cpp/BigNum.cpp:358` says, and the cells above `length` are zero.
   Capacity preconditions (`x.length + y.length <= 128` and the like) say when the source stays inside its
   fixed array.
2. The source's subtraction loses a borrow that enters a zero limb. `Sub` follows that rule exactly and is
   proved to be the true difference if and only if no zero limb of the larger operand has lower limbs worth
   less than the subtrahend's; otherwise the result exceeds the difference by 2^(32(i+1)) for every limb i
   where a borrow was lost. `LostBorrowExample` is a concrete failing input (2^64 - 1).
3. Everything that subtracts takes a `Rule`. Under `Repaired` every borrow is passed on (`Difference`), and each
   operator, algorithm and run ends with the stated value. Under `AsWritten` it runs the source's `Sub`, and either
   ends with that same value or is cut off at a subtraction that loses a borrow, which it names
   (`Outcome.Fair`). So `Paillier.Run`, for example, states that the source's own run returns m or has lost a
   borrow. What / and % do past a lost borrow, and for operands of different signs, is in `DivisionRuns`: an exact
   account of every run of their loops, whether it ends or not. Division by one limb uses no subtraction.

For the decimal numbers, `big_num_add_0` can write its carry one cell past the allocated array (in the second row of
111 * 99, for example). The model lets the buffer grow by that one cell and reports it in `grew`. Where documentation
and code disagree, the model follows the code: `big_num_add`, `big_num_add_0` and `int_to_big_num` do not always
return what their comments say, and the contracts say exactly when they do. C ints are taken to wrap around.

## Model

| member | source | states |
|---|---|---|
| Limbs.FromWord | cpp/BigNum.cpp:340-356 | a 64-bit word becomes a normalised one- or two-limb number of that value |
| Limbs.Negate | cpp/BigNum.cpp:635-640 | the value changes sign, magnitude and length stay |
| Limbs.Compare | cpp/BigNum.cpp:661-678 | the answers 0, 1, 2 are the order of the magnitudes, although lengths are compared first |
| Limbs.Equals | cpp/BigNum.cpp:643-649 | true exactly for identical numbers |
| Limbs.NotEquals | cpp/BigNum.cpp:652-658 | true exactly for different magnitudes of the same sign; it answers false when signs differ |
| Limbs.Trim | cpp/BigNum.cpp:406-409 | dropping leading zero limbs keeps the value and normalises |
| Limbs.CanonicalForm | cpp/BigNum.cpp:296-302 | sign and magnitude determine length and every cell |
| LimbAddSub.AddSameSign | cpp/BigNum.cpp:390-410 | the carry loop adds magnitudes exactly; the last carry is 0 |
| LimbAddSub.Add | cpp/BigNum.cpp:384-422 | signed addition is exact if and only if the subtraction that different signs lead to loses no borrow |
| LimbAddSub.SubLimb | cpp/BigNum.cpp:444-449 | one limb with 32-bit wrap-around: the new borrow is missing exactly when a borrow enters a zero limb |
| LimbAddSub.SubLoop | cpp/BigNum.cpp:443-450 | the limbs are the true difference plus the excess of the lost borrows |
| LimbAddSub.BorrowSafeIsLossless | cpp/BigNum.cpp:443-450 | the excess is 0 if and only if no zero limb has lower limbs worth less than the subtrahend's |
| LimbAddSub.Sub | cpp/BigNum.cpp:429-480 | exact account of operator-, for both orders and signs; equal to the difference if and only if that condition holds |
| LimbAddSub.LostBorrowExample | cpp/BigNum.cpp:443-450 | 2^64 - 1 comes out 2^64 too large |
| LimbAddSub.Difference | cpp/BigNum.cpp:429-480 | subtraction with the borrow rule repaired: the exact signed difference |
| LimbAddSub.CodeMeetsContract | cpp/BigNum.cpp:429-480 | the source's result and the exact difference are the same object if and only if no borrow is lost |
| LimbAddSub.Minus | cpp/BigNum.cpp:429-480 | inside a run: the exact difference, or the run is cut off, if and only if the source's rule loses a borrow here |
| LimbMul.WordSum | cpp/BigNum.cpp:498-502 | the 64-bit accumulator never overflows and its carry fits a limb |
| LimbMul.AddRow | cpp/BigNum.cpp:496-504 | a row adds digit * x shifted by i limbs, and leaves carry 0 although the carry is never reset |
| LimbMul.Mul | cpp/BigNum.cpp:483-511 | the limbs represent the product for all lengths that fit, with the sign rule |
| LimbDiv.NoOvershoot | cpp/BigNum.cpp:531-543 | a trial quotient from the leading limbs, times the divisor, stays at or below the dividend |
| LimbDiv.TrialFits | cpp/BigNum.cpp:531-548 | each trial quotient is at least 1, fits one limb and never overshoots; without one, lengths and top limbs agree and the quotient is 1 |
| LimbDiv.TrialQuotient | cpp/BigNum.cpp:531-548 | the branches of / choose that trial quotient, the special case 0xffffffff included |
| LimbDiv.TrialRemainder | cpp/BigNum.cpp:595-607 | the differently ordered branches of % choose the same trial quotient |
| LimbDiv.ShiftUp | cpp/BigNum.cpp:550-554 | moving limbs up in place multiplies by 2^(32 len) |
| LimbDiv.TrialProduct | cpp/BigNum.cpp:549-556 | the shifted trial quotient and its product with the divisor, positive and at most the rest |
| LimbDiv.TakeOff | cpp/BigNum.cpp:557-557 | the rest strictly decreases by the product, or the subtraction loses a borrow |
| LimbDiv.DivByWord | cpp/BigNum.cpp:565-582 | long division by one limb is exact and shortens the number by at most one limb |
| LimbDiv.ModByWord | cpp/BigNum.cpp:620-631 | the word loop gives the remainder of the whole number |
| LimbDiv.Div | cpp/BigNum.cpp:519-583 | operator/ on operands of one sign ends with the quotient, or at a step of its loop that loses a borrow; always with the quotient for a one-limb divisor, where it keeps the dividend's sign |
| LimbDiv.Mod | cpp/BigNum.cpp:586-632 | operator% ends with the remainder of the magnitudes, or at a step of its loop that loses a borrow |
| LimbDiv.DivMod | cpp/BigNum.cpp:519-632 | X = (X / A) * A + X % A with X % A < A |
| DivisionRuns.RunAccount | cpp/BigNum.cpp:529-558 | in every run on operands of one sign, rest + divisor * quotient = dividend + what lost borrows added |
| DivisionRuns.QuotientOfRun | cpp/BigNum.cpp:529-563 | where / ends, its answer is (dividend + excess) / divisor, the quotient if and only if the excess fits above the remainder |
| DivisionRuns.RemainderOfRun | cpp/BigNum.cpp:594-618 | where % ends, its answer is the remainder if and only if it is below the divisor and the divisor divides the excess |
| DivisionRuns.DifferentSignsGrow | cpp/BigNum.cpp:529-558 | with different signs every step makes the rest larger |
| DivisionRuns.DifferentSignsStop | cpp/BigNum.cpp:529-563 | so a run that takes one step never ends, and one that takes none returns the truncated quotient |
| DivisionRuns.Divide | cpp/BigNum.cpp:526-564 | / as written, for all signs: the account above; it ends when no borrow is lost; with different signs it ends if and only if the dividend is not larger or lengths and top limbs agree |
| DivisionRuns.Remainder | cpp/BigNum.cpp:592-619 | % as written, for all signs: the account above; with different signs and equal tops it returns the sum of the magnitudes |
| DivisionRuns.FirstStepLoses | cpp/BigNum.cpp:549-557 | 2^64 / (2^32 + 1): the first step loses a borrow worth 2^64 |
| DivisionRuns.WrongQuotient | cpp/BigNum.cpp:519-564 | so the source never returns 2^32 - 1 for it, however long it runs |
| ModularAlgorithms.PowerBit | cpp/BigNum.cpp:820-822 | one exponent bit keeps accumulator = base^(bits read) and squared base = base^(weight) modulo n |
| ModularAlgorithms.PowerLimb | cpp/BigNum.cpp:818-823 | 32 such bits read one exponent limb |
| ModularAlgorithms.PowerMod | cpp/BigNum.cpp:812-826 | congruent to base^exp modulo n for every exponent, and the reduced remainder when n > 1 |
| ModularAlgorithms.GcdOf | cpp/BigNum.cpp:913-923 | the do-while loop returns the greatest common divisor |
| ModularAlgorithms.LcmOf | cpp/BigNum.cpp:925-931 | a * b / gcd(a, b) |
| ModularAlgorithms.LcmIsLeast | cpp/BigNum.cpp:925-931 | that number is a positive common multiple, and divides every common multiple |
| ModularAlgorithms.CombinationStep | cpp/BigNum.cpp:835-841 | an iteration keeps A = X a, B = U a modulo b and gcd(A, B) |
| ModularAlgorithms.SizesStep | cpp/BigNum.cpp:835-841 | an iteration keeps \|U\| A + \|X\| B = b, which bounds X and U by b |
| ModularAlgorithms.EuclidLoop | cpp/BigNum.cpp:833-842 | X a = gcd(a, b) modulo b, with \|X\| <= b, and strictly between 0 and b in magnitude for coprime a |
| ModularAlgorithms.CorrectSign | cpp/BigNum.cpp:843-846 | adding b to a negative answer keeps the congruence and the range |
| ModularAlgorithms.ExEuclid | cpp/BigNum.cpp:829-849 | for coprime a and b > 1 the answer after the sign correction is the one inverse between 0 and b, and there is no other |
| MillerRabin.Halve | cpp/BigNum.cpp:732-737 | the halving loop ends with n - 1 = 2^r m and m odd, for every n > 1 |
| MillerRabin.HalvingZeroNeverEnds | cpp/BigNum.cpp:733-737 | for n = 1 its condition holds after any number of iterations |
| MillerRabin.TableTest | cpp/BigNum.cpp:724-731 | trial division accepts exactly the table entries and rejects exactly the other multiples of one |
| ProbablePrimes.PrimePasses | cpp/BigNum.cpp:744-762 | a prime passes a round for every base but its multiples |
| ProbablePrimes.NeverMinusOne | cpp/BigNum.cpp:750-757 | modulo an odd n, a^(n-1) is never -1, so the last squaring of the source accepts nothing new |
| ProbablePrimes.PassesMeansFermat | cpp/BigNum.cpp:744-762 | an odd number that passes for a, prime or not, satisfies a^(n-1) = 1 |
| ProbablePrimes.EvenPasses | cpp/BigNum.cpp:744-762 | an even number passes exactly when a^(n-1) is 1 or -1; `EvenExample` is 4 with base 3 |
| MillerRabin.SquareUp | cpp/BigNum.cpp:748-757 | the -1 test and the squarings find a^(m 2^j) = -1 for some j up to r if and only if there is one |
| MillerRabin.Round | cpp/BigNum.cpp:744-762 | for every n > 1 a round passes if and only if a^m = 1 or a^(m 2^j) = -1 modulo n for some j up to r |
| MillerRabin.PrimeAccepted | cpp/BigNum.cpp:719-765 | a prime is accepted if and only if it is in the table or no base is a multiple of it |
| MillerRabin.FermatWitnessRejects | cpp/BigNum.cpp:719-765 | an odd number outside the table is rejected as soon as one base violates Fermat's congruence |
| MillerRabin.RabinMiller | cpp/BigNum.cpp:719-765 | for every n > 1: 1 for a table entry, 0 for another multiple of one, else 1 if and only if all five bases pass; 0 for bases that are not multiples of n proves n composite |
| Paillier.OnePlusMultiple | cpp/BigNum.cpp:896-904 | (1 + k n)^m = 1 + k m n modulo n^2 |
| Paillier.DecryptedLog | cpp/BigNum.cpp:896-903 | L(c^e mod n^2) = k m mod n: the randomiser disappears |
| Paillier.DecryptedValue | cpp/BigNum.cpp:902-904 | for every key the decrypted value is gcd(k, n) m mod n |
| Paillier.DecryptsAllIffInvertible | cpp/BigNum.cpp:902-904 | a key decrypts every m < n if and only if k is invertible modulo n |
| Paillier.PrivateExponent | cpp/BigNum.cpp:886-886 | a^lcm(p-1, q-1) = 1 modulo p q for every unit a |
| Paillier.PrivateKey | cpp/BigNum.cpp:886-886 | the key is lcm(p - 1, q - 1) |
| Paillier.LFunction | cpp/BigNum.cpp:933-938 | (a - 1) / n |
| Paillier.Encrypt | cpp/BigNum.cpp:894-898 | the ciphertext is g^m r^n mod n^2 |
| Paillier.Decrypt | cpp/BigNum.cpp:902-904 | L(c^key) times an inverse-up-to-gcd of L(g^key), modulo n |
| Paillier.Run | cpp/BigNum.cpp:882-904 | the whole run returns m for every m < n when k is invertible, and gcd(k, n) m mod n in general, or loses a borrow on the way; with the repaired rule it always returns |
| Rsa.IsCoprime | src/main/java/richard/test/encrypt/RSA.java:54-69 | Euclid's loop decides coprimality for all arguments, in either order |
| Rsa.IsPrime | src/main/java/richard/test/encrypt/RSA.java:73-82 | true exactly for primes and for numbers below 2 |
| Rsa.ChooseExponent | src/main/java/richard/test/encrypt/RSA.java:100-114 | the first draw that is not negative and coprime to t, or no draw is |
| Rsa.InverseExists | src/main/java/richard/test/encrypt/RSA.java:87-96 | an inverse below t exists exactly for coprime e, and is unique |
| Rsa.GetPrivateKey | src/main/java/richard/test/encrypt/RSA.java:87-96 | without int overflow the search succeeds if and only if e is coprime to t, and finds the only inverse |
| Rsa.IntPowerIsPower | src/main/java/richard/test/encrypt/RSA.java:129-135 | the wrapping int loop is m^j mod n while (n - 1) m fits an int |
| Rsa.LongPowerIsPower | src/main/java/richard/test/encrypt/RSA.java:143-149 | the long loop is c^j mod n for every int modulus |
| Rsa.LargestSafeModulus | src/main/java/richard/test/encrypt/RSA.java:132-132 | residue products fit an int if and only if n <= 46341 |
| Rsa.Encrypt | src/main/java/richard/test/encrypt/RSA.java:115-139 | every cell of the result is the wrapped repeated product of its character |
| Rsa.Decrypt | src/main/java/richard/test/encrypt/RSA.java:140-155 | every cell is the repeated product, cut to a 16-bit char |
| Rsa.RsaIdentity | src/main/java/richard/test/encrypt/RSA.java:19-22 | (m^e mod n)^d mod n = m for every m < n, multiples of p and q included |
| Rsa.RoundTrip | src/main/java/richard/test/encrypt/RSA.java:184-209 | key search, encryption and decryption return the text whenever e (t - 1) and (n - 1) times each character fit an int |
| Rsa.RoundTripSmallModulus | src/main/java/richard/test/encrypt/RSA.java:184-209 | so for every modulus up to 46341, every exponent below t and every text below n |
| Rsa.ComesBackIff | src/main/java/richard/test/encrypt/RSA.java:129-149 | for moduli up to 2^16 a non-negative cipher value decrypts to its character if and only if the wrapped loop computed the true power |
| Rsa.OverflowLosesText | src/main/java/richard/test/encrypt/RSA.java:129-149 | with n = 197 * 239 and e = 3 the character 46357 does not come back |
| DecimalNumber.BigNum.Zero | cpp/algorithm/big_num.c:21-28 | the value 0 in two cells, one of them arbitrary |
| DecimalNumber.BigNum.Extend | cpp/algorithm/big_num.c:43-46 | the buffer doubles, old cells stay, new cells are arbitrary |
| DecimalNumber.BigNum.CopyFrom | cpp/algorithm/big_num.c:177-192 | a deep copy of digits and value |
| DecimalNumber.MultiplyCells | cpp/algorithm/big_num.c:327-337 | digits and carry of the product by one digit |
| DecimalNumber.BigNum.MultiplyByDigit | cpp/algorithm/big_num.c:316-342 | the value is multiplied by the digit and stays without leading zero |
| DecimalNumber.ShiftCells | cpp/algorithm/big_num.c:359-364 | moving cells up in place multiplies by 10^a |
| DecimalNumber.BigNum.AppendZeros | cpp/algorithm/big_num.c:352-366 | the value is multiplied by 10^a |
| DecimalArithmetic.Compare | cpp/algorithm/big_num.c:200-216 | the order by digit count and digits, which is the order of values for numbers without leading zeros |
| DecimalArithmetic.DigitLoop | cpp/algorithm/big_num.c:289-299 | adding any cells to digits keeps the value with its carry, and digits stay digits |
| DecimalArithmetic.AddCells | cpp/algorithm/big_num.c:289-307 | digits of the sum, where the carry ends up, and exactly when it is written past the last cell |
| DecimalArithmetic.AddInto | cpp/algorithm/big_num.c:274-308 | exact when b compares greater or no carry leaves b's top digit; otherwise the carry of 10^wei(b) becomes (1 + cell) 10^wei(a), exact if and only if the cell is 0 and the digit counts agree; and exactly when a write leaves the buffer |
| DecimalArithmetic.DroppedCarryExample | cpp/algorithm/big_num.c:304-307 | 999 += 1 makes 1990 |
| DecimalArithmetic.WriteBeyondExample | cpp/algorithm/big_num.c:304-307 | 999 += 9990, the second row of 111 * 99, writes past the fourth of four cells |
| DecimalArithmetic.Add | cpp/algorithm/big_num.c:224-265 | the sum plus the worth of the leftover cells read above the smaller operand, so exact if and only if that is 0, for any operands, also one object twice |
| DecimalArithmetic.LeftoverVanishes | cpp/algorithm/big_num.c:237-250 | leftover digits are worth 0 if and only if they are all zero or the buffer gets reallocated and cleared |
| DecimalArithmetic.LeftoverExample | cpp/algorithm/big_num.c:249-250 | 12345678 * 0 + 1000 makes 6670 |
| DecimalArithmetic.RowIsLarger | cpp/algorithm/big_num.c:382-390 | the partial sum is below every nonzero row and compares so, so the missing carry propagation is never needed |
| DecimalArithmetic.AddRow | cpp/algorithm/big_num.c:382-390 | one row keeps the partial sum exact, short enough and without leading zero |
| DecimalArithmetic.Multiply | cpp/algorithm/big_num.c:374-392 | the exact product without leading zero, for operands of any length; no write leaves the buffer if the larger operand has cells for both lengths and one more |
| DecimalArithmetic.CountDigits | cpp/algorithm/big_num.c:65-72 | the number of decimal digits |
| DecimalArithmetic.IntDigit | cpp/algorithm/big_num.c:86-86 | the digit of 10^i, except that wrap-around of 10^10 loses the tenth digit from 1410065408 on |
| DecimalArithmetic.FromInt | cpp/algorithm/big_num.c:79-91 | for every int: its digits if and only if it is above -10 and below 1410065408 |
| DecimalArithmetic.ComputeFactorial | cpp/algorithm/big_num.c:399-408 | n! for every n below 1410065408, and 1 for negative n |
| FeistelSpec.PermuteInverse | cpp/algorithm/3des.c:320-328 | replacement by two inverse tables restores every block |
| FeistelSpec.HalvesAreRotations | cpp/algorithm/3des.c:347-360 | in round i the key halves are the starting halves rotated by the prefix sum of the shifts |
| FeistelSpec.HalvesReturn | cpp/algorithm/3des.c:355-359 | after round 16 the halves are back at their start |
| FeistelSpec.SubKeyBit | cpp/algorithm/3des.c:353-359 | which key bit each bit of each subkey is: PC2, then the shifts of the rounds up to and including this one, then PC1 |
| FeistelSpec.LastSubKey | cpp/algorithm/3des.c:355-359 | the last subkey is chosen from the unrotated halves |
| FeistelSpec.UnroundsRounds | cpp/algorithm/3des.c:406-434 | any number of rounds is undone in reverse order, for every round function and key list |
| FeistelSpec.DecryptEncrypt | cpp/algorithm/3des.c:385-437 | bit-level decryption undoes encryption for all keys and blocks |
| FeistelSpec.ComplementationProperty | cpp/algorithm/3des.c:347-419 | complementing key and block complements the ciphertext |
| FeistelSpec.ComplementCipher | cpp/algorithm/3des.c:347-419 | the same through bytes and hexadecimal characters |
| FeistelSpec.BytesRoundTrip | cpp/algorithm/3des.c:273-317 | bytes survive byte_to_bit and bit_to_byte |
| FeistelSpec.HexRoundTrip | cpp/algorithm/3des.c:280-306 | bits survive bit_to_hex and hex_to_bit |
| FeistelSpec.DecipherEncipher | cpp/algorithm/3des.c:385-437 | eight bytes come back from their sixteen hexadecimal characters |
| FeistelCipher.BitCpy | cpp/algorithm/3des.c:265-271 | the piece is copied and nothing else changes, overlapping ranges included when the target lies below |
| FeistelCipher.ByteToBit | cpp/algorithm/3des.c:273-278 | the bits of the bytes are written in place |
| FeistelCipher.BitToHex | cpp/algorithm/3des.c:280-294 | one hexadecimal character per four bits |
| FeistelCipher.HexToBit | cpp/algorithm/3des.c:297-306 | four bits per character |
| FeistelCipher.BitToByte | cpp/algorithm/3des.c:309-317 | the bytes with the given bits, set one bit at a time |
| FeistelCipher.TblReplace | cpp/algorithm/3des.c:320-328 | in-place replacement by a table, source and target possibly the same |
| FeistelCipher.LoopBit | cpp/algorithm/3des.c:331-336 | in-place rotation through overlapping copies |
| FeistelCipher.XorInto | cpp/algorithm/3des.c:339-344 | bitwise exclusive or into one range |
| FeistelCipher.SChange | cpp/algorithm/3des.c:363-373 | the eight substitutions, box by box |
| FeistelCipher.FChange | cpp/algorithm/3des.c:376-382 | the round function, in place |
| FeistelCipher.Des.SetKey | cpp/algorithm/3des.c:347-360 | the object's subkeys become the key schedule |
| FeistelCipher.Des.Encrypt | cpp/algorithm/3des.c:385-419 | encryption with the current subkeys |
| FeistelCipher.Des.Decrypt | cpp/algorithm/3des.c:422-437 | decryption with the current subkeys |
| FeistelCipher.RoundTrip | cpp/algorithm/3des.c:224-237 | set key, encrypt, decrypt: every 8-byte block comes back under every 8-byte key |
| FeistelTables.SourceTablesWellFormed | cpp/algorithm/3des.c:31-137 | the source's tables are inverse permutations, in-range selections and shifts that add up to 28 |
| FeistelTables.SourceRoundTrip | cpp/algorithm/3des.c:31-137 | the round trip with the source's own tables |
| FeistelTables.BoxesSeparate | cpp/algorithm/3des.c:363-373 | inputs of one box with the same outer bits give the same output if and only if their inner bits agree, except for one pair of inputs of the sixth and one of the seventh box |
| FeistelExample.ScheduleTraced | cpp/algorithm/3des.c:347-360 | the sixteen subkeys of "hellokey" |
| FeistelExample.WorkedBlock | cpp/algorithm/3des.c:242-257 | "hellodec" under "hellokey" enciphers to 84358F6B19B6C87B |
| FeistelExample.EncryptExample | cpp/algorithm/3des.c:242-257 | and so do set_key and encrypt |
| Crc16.FeedByte | cpp/algorithm/crc16_xmodem.c:11-19 | mixing a byte in and shifting eight times feeds its bits one by one |
| Crc16.Crc16Xmodem | cpp/algorithm/crc16_xmodem.c:3-22 | the loop computes the checksum function for messages of any length |
| Crc16.ByteBitsAt | cpp/algorithm/crc16_xmodem.c:12-12 | a byte is fed highest bit first |
| Crc16.MessagePolynomial | cpp/algorithm/crc16_xmodem.c:11-19 | the coefficient of x^(8 (length - 1 - k) + j) in message(x) is bit j of byte k |
| Crc16.ChecksumOfOne | cpp/algorithm/crc16_xmodem.c:3-22 | the message 0x01 has checksum 0x1021 |
| Crc16.Division | cpp/algorithm/crc16_xmodem.c:9-20 | bits(x) x^16 = quotient(x) generator(x) + register(x) |
| Crc16.CrcIsRemainder | cpp/algorithm/crc16_xmodem.c:3-22 | the checksum is the remainder by x^16 + x^12 + x^5 + 1, and the only one of degree below 16, for any quotient |
| Crc16.CrcLinear | cpp/algorithm/crc16_xmodem.c:3-22 | the checksum of the bytewise exclusive or of two messages is the exclusive or of their checksums |
| Crc16.AppendedCrcIsZero | cpp/algorithm/crc16_xmodem.c:3-22 | a message followed by its checksum has checksum 0 |
| Crc16.BurstDetected | cpp/algorithm/crc16_xmodem.c:3-22 | messages that differ only inside 16 consecutive bits have different checksums |
| Crc16.OddErrorsDetected | cpp/algorithm/crc16_xmodem.c:3-22 | any odd number of flipped bits changes the checksum |
| Snowflake.ComposeIsNumber | src/main/java/SnowflakeIdGenerator.java:83-86 | the shifted and or-ed 64-bit id is the mixed-radix number of its fields |
| Snowflake.NextStateGrows | src/main/java/SnowflakeIdGenerator.java:68-81 | a call moves (timestamp, sequence) up, also when the sequence overflows and the call waits |
| Snowflake.StepIncreases | src/main/java/SnowflakeIdGenerator.java:60-87 | a returned id exceeds all earlier ones; a backward clock raises and changes nothing |
| Snowflake.IdShowsReading | src/main/java/SnowflakeIdGenerator.java:60-87 | an id carries the reading the call saw, or the first polled one after the last timestamp if it had to wait; its sequence is the next number of that millisecond, from 0 |
| Snowflake.Generator.BlockTillNextMillis | src/main/java/SnowflakeIdGenerator.java:89-95 | the first polled reading after the last timestamp; every earlier one is not after it |
| Snowflake.Generator.NextId | src/main/java/SnowflakeIdGenerator.java:60-87 | fields and outcome after a call are those of the state machine's step |
| Snowflake.Create | src/main/java/SnowflakeIdGenerator.java:48-57 | exactly the ids 0 to 31 are accepted, worker id checked first |
| Snowflake.PerformKeepsSafe | src/main/java/SnowflakeIdGenerator.java:60-87 | every call of every member keeps the fleet invariant |
| Snowflake.NoDuplicateIds | src/main/java/SnowflakeIdGenerator.java:60-87 | in every interleaved run no id is returned twice anywhere, and each generator's ids strictly increase |
| Snowflake.SequenceCounts | src/main/java/SnowflakeIdGenerator.java:68-79 | in every run, the low 12 bits of an id count the earlier ids of its generator in the same millisecond |
| QuickSort.MoveHole | cpp/algorithm/algorithm.c:97-102 | filling the hole moves it and loses no value |
| QuickSort.Partition | cpp/algorithm/algorithm.c:88-104 | values end up on their side of the key, as a permutation, inside the segment |
| QuickSort.QSort | cpp/algorithm/algorithm.c:83-108 | the segment is sorted, keeps its multiset, and nothing outside changes |
| Board.GetMatrix | cpp/test/util.c:4-13 | cell (i, j) is bit j of row i |
| Board.GetBin | cpp/test/util.c:15-24 | row i is the sum of its cells' powers of two |
| Board.RoundTrip | cpp/test/util.c:4-24 | get_bin undoes get_matrix for rows below 2^col |
| Board.NextRowHoles | cpp/test/eipd.c:145-146 | the word recurrence marks exactly the covered holes of the next row |
| Board.CountHoles | cpp/test/eipd.c:139-153 | the count is the number of empty cells in rows 1 to rw_n - 2 with a filled cell in a higher-indexed row of their column |

## Left out

- LimbAddSub.Difference: does not follow the source's borrow rule; it is the `Repaired` rule, and `CodeMeetsContract` says when the source agrees with it.
- Above / and %, a run under `AsWritten` is followed up to the first subtraction that loses a borrow and not beyond; the contracts name such a subtraction without describing its place in the run.
- The string constructor, printS, Random and GeneratePrime of `cpp/BigNum.cpp`: an uninitialised array and randomness. Primes and bases are inputs; the theorem about Rabin_Miller holds for all bases, whether or not equal consecutive ones are redrawn.
- Array bounds of the limb numbers: preconditions keep lengths within 128 cells, and a run of / or % that fills the array counts as unfinished.
- Undefined behaviour of C: the carry written past the decimal buffer is modelled as growth, signed overflow as wrap-around, and sums of uninitialised cells as unbounded.
- DecimalArithmetic.Multiply: says when no write can leave the buffer, not exactly when one does.
- `big_num_add_0_self` and `str_to_big_num`: easier variants of the modelled digit loops.
- The unused right-hand columns of `main` in `RSA.java` (hex printing of the ciphertext) and the random source of `get_random`, which is a sequence of draws.
- Printing, debug counters, allocation and release of memory in all core files.
- The other heuristics in `cpp/test/eipd.c`: stubs, uninitialised loop indices and floating-point weights.
- `src/main/java/richard/test/index/InvertedIndex.java`: map updates per word would only add easy members.
- The Java port of the cipher, the other RSA demos, network, GUI, database and script code: duplicates, library glue or input and output.
