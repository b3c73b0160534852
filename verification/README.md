# Proofs about five cores of the library sources

This project models, in Dafny 4.11, five groups of code of the repository and proves
what they are for. `dafny verify dfyconfig.toml` checks all of it.

* **Multiple-precision integers** (`libmp`): `Limbs`, `Mint`, `MintAdd`, `MintMult`,
  `DivDigit`, `MintDiv`, `MintGcd`. Numbers are objects with a signed length and an
  array of 15-bit limbs. Every C `long` and `int` of the loops is a variable of a
  32-bit subset type, so the absence of overflow is part of the proofs. The main
  results are exact addition, subtraction, multiplication and division for all signs
  and aliases, the exactness of one digit of long division, greatest common divisors,
  and modular inverses.
* **Regular expressions** (`regexp.h`): `Regexp`, `RegexpCode`, `RegexpSyntax`,
  `RegexpCompile`, `RegexpGrammar`, `RegexpSpelling`, `RegexpAdvance`, `RegexpSearch`. A pattern has a
  language, defined by repetition counts; a backtracking search, defined as a function;
  byte code; and a concrete syntax with an independent grammar. `compile` writes the
  byte code of what it parses, `advance` on that code is the search, the search finds
  the match with the greatest counts, and `step` finds the leftmost place. Module
  `RegexpSearch` joins these from the text of a pattern to the answer.
* **Device table and reservations** (`libadm`): `DeviceTable` (text format and round
  trip), `DeviceTableLine` (what a line looks like), `DeviceTableWriter`, `DeviceTableReader` (the buffer code), `DeviceTableEntry`
  and `DeviceTableLists` (attribute lists as linked nodes), `DeviceTableFile` (the
  operations on the file, and runs of them); `DeviceLocks` (the table of locks and the
  writes that bring it to the file), `DeviceLockLaws` (which calls are granted),
  `DeviceLockTable` (the code), `DeviceLockRuns`
  (processes interleaved step by step, each of which may die), `DeviceLockDeaths` (what
  a death among the writes leaves), `DeviceLockHistory` (how long a lock lasts over a
  run), `DeviceLockCalls` (a call nobody disturbs) and `DeviceLockScenarios` (runs that
  go wrong).
* **DES** (`libcrypt`): `Des`, `DesKey`. Decryption by reversed keys, the
  complementation property, the key schedule, weak keys, and the salt.
* **Smaller cores**: `Calendar` (`getdate.c`), `FreeQueue` (`mallint.h`), `Gmatch`
  and `GmatchGrammar`,  `CEscapes` (`streadd` and `strcadd`).

`Prelude` holds what several modules share.

Code that updates storage in place is modelled by methods and classes that do so, and
each is proved against functions whose properties are lemmas.

## Where the code does less than it says

* `mdiv` gives one sign to quotient and remainder. For a negative divisor this makes
  a = q*b - r, so the usual identity holds if and only if the divisor is positive or
  divides a (`MintDiv.DivisionIdentity`). `gcd` needs magnitudes only.
* The invariants written in the comments of `invert` do not bound the coefficient.
  `MintGcd.Bezout` adds the cross product and the alternating signs that do.
* A device attribute whose name holds "=" or starts with a blank is written but not
  read back (`DeviceTable.AttrsReadIff`, `DeviceTable.DeviceRead`). A record of more than
  8703 characters is written, but the reader gives up there (`DeviceTable.ReadBack`), and
  the next rewriting of the table drops what is behind it
  (`DeviceTableFile.OverlongEnds`).
* The lock file is written in several steps and never cut, and nothing is undone when a
  process dies between two of them. `DeviceLockDeaths.DeathLeaves` says what is left. A
  device is then held by two living keys exactly under the condition of
  `DeviceLockDeaths.HeldTwiceIff`, a living key has lost its lock exactly under that of
  `DeviceLockDeaths.LostIff`, and nobody can read the file any more exactly under that of
  `DeviceLockDeaths.FreezesIff`; `DeviceLockScenarios` has a run from the empty table for
  each. A call two of whose lists offer one device may pick it twice, which can end with
  two living keys holding it (`DeviceLockScenarios.SharedDevice`).
  `DeviceLockRuns.Safety` is proved for all *fair* runs: no such call, and no death among
  the writes when the new count takes in slots that were behind the table. Taking the
  lock when nothing is behind the table rules these out (`DeviceLockDeaths.TightCall`). `DeviceLockHistory.GrantedOnce` and
  `TableTellsHistory` are proved for all *keeping* runs: fair ones in which no death cuts
  off the lock of a living key (`DeviceLockHistory.KeepingIff`).
* `Day` leaves month 12 after December, `Month` and `Day` accept a day the month does not
  have, and `DOW` misses its weekday when it crosses from a year whose length does not
  fit `jan1`: 1752, and the centuries before it that are not leap years by the rule of
  `days`. The contracts of these methods are if-and-only-if statements.
* `streadd` leaves an excepted backslash alone, and `strcadd` then takes it for an escape:
  a string comes back exactly when it has no such backslash (`CEscapes.OneComesBack`).
* An open upper bound of a range in a regular expression is 20000 more than the lower
  one, not unlimited. `Regexp.Allows` says so, and the language is defined with it.

## Conventions

* A C string is a Dafny sequence without NUL; a pointer into it is an index, and a null
  pointer is -1 or `None`. A null and an empty field of a device record are read alike.
* Characters of regular expressions and escapes are bytes from 0 to 255.
* Years are counted from 0, not from 1900, and the day of the year from 1, as in
  `getnow`.
* The file is a string (device table), or a count and a sequence of slots (lock file).
  The file lock is a mutex; which processes live is given from outside, turn by turn.
  What `devattr` says about a device is a parameter.
* A method states which function of its inputs or of the old state it computes; the
  lemmas about that function, in the same table, say what it means.

## Model

| member | source | states |
|---|---|---|
| Limbs.NatBound | usr/src/head/rpc/mp.h:35-39 | n limbs stand for a number from 0 to one below 32768 to the n; the carry and borrow arguments rest on it |
| Limbs.NatSplit | usr/src/head/rpc/mp.h:35-39 | cutting a limb array anywhere cuts the number into a low part and a scaled high part |
| Limbs.NatZeros | usr/src/lib/libmp/util.c:113-138 | dropping leading zero limbs does not change the number |
| Limbs.NormalLonger | usr/src/lib/libmp/util.c:164-180 | of two numbers without leading zeros the one with more limbs is larger, so `mcmp` may compare lengths first |
| Limbs.CarryStep | usr/src/lib/libmp/madd.c:56-65 | one turn of any carry or borrow loop: what is stored plus the carry that leaves is what came in plus the limb's share |
| Mints.Mint.OfShort | usr/src/lib/libmp/mdiv.c:205-208 | a stack `short` wrapped as a one-limb number has its value |
| Mints.CanonicalSign | usr/src/lib/libmp/util.c:164-180 | without leading zeros, the sign of `len` is the sign of the number |
| Mints.Move | usr/src/lib/libmp/util.c:48-65 | the target becomes an equal number that shares no storage with the origin |
| Mints.Xfree | usr/src/lib/libmp/util.c:99-109 | the object becomes zero |
| Mints.Magnitude | usr/src/lib/libmp/mult.c:58-68 | a private copy with the sign taken off, and whether there was one; the operand is untouched |
| Mints.Significant | usr/src/lib/libmp/util.c:124-125 | the scan for the top non-zero limb loses no value and leaves no leading zero |
| Mints.Mcan | usr/src/lib/libmp/util.c:113-138 | trimming keeps the value and the sign, leaves no leading zero, and does nothing to a trimmed number |
| MintAdd.AddLimbs | usr/src/lib/libmp/madd.c:54-80 | the two carry loops store the sum of the two limb arrays, using one more limb only when it holds a one |
| MintAdd.SumNormal | usr/src/lib/libmp/madd.c:75-80 | the sum of numbers without leading zeros has none |
| MintAdd.MagAdd | usr/src/lib/libmp/madd.c:47-85 | the sum of two magnitudes, one limb longer at most |
| MintAdd.SubLimbs | usr/src/lib/libmp/madd.c:141-161 | the two borrow loops store the difference, up to a borrow of 0 or -1 out of the top |
| MintAdd.BorrowMeaning | usr/src/lib/libmp/madd.c:162 | a borrow is left over exactly when the minuend is smaller; the limbs are then the difference plus a power of the base |
| MintAdd.FlipMeaning | usr/src/lib/libmp/madd.c:163-165 | flipping fifteen bits of every limb subtracts the number from the largest one of that length |
| MintAdd.NoOverflow | usr/src/lib/libmp/madd.c:166-170 | adding one after the flip never grows the array, so the scan from `a->len - 1` misses no limb |
| MintAdd.Complement | usr/src/lib/libmp/madd.c:162-168 | complement and add one turn the wrapped difference into the opposite difference |
| MintAdd.TrimSigned | usr/src/lib/libmp/madd.c:169-179 | the final scan strips all leading zeros and puts the borrow into the sign |
| MintAdd.MagSub | usr/src/lib/libmp/madd.c:130-180 | the signed difference of two magnitudes, the complement path included |
| MintAdd.Madd | usr/src/lib/libmp/madd.c:89-126 | exactly a + b for all signs, also when the result is one of the operands, trimmed when the operands are; the mutual recursion with `msub` ends |
| MintAdd.Msub | usr/src/lib/libmp/madd.c:183-220 | exactly a - b under the same conditions |
| MintAdd.LengthOrder | usr/src/lib/libmp/util.c:172-174 | different signed lengths order trimmed numbers |
| MintAdd.Mcmp | usr/src/lib/libmp/util.c:164-180 | negative, zero or positive exactly as a is below, equal to or above b; both operands are trimmed and keep their values |
| MintMult.MultRow | usr/src/lib/libmp/mult.c:129-143 | one row adds the multiple of a into the window of the product, its carry going into the limb above; no 32-bit sum overflows |
| MintMult.MultLimbs | usr/src/lib/libmp/mult.c:105-143 | the limb array of length alen + blen is exactly the product |
| MintMult.ProductTop | usr/src/lib/libmp/mult.c:144-146 | a product of trimmed numbers has at most one leading zero, so one test is enough |
| MintMult.Signs | usr/src/lib/libmp/mult.c:57-76 | two sign flips give the sign of the product |
| MintMult.Mult | usr/src/lib/libmp/mult.c:45-81 | exactly a * b for all signs and any aliasing, trimmed, with the limb above the top present in the array, which division relies on |
| DivDigit.FirstTrial | usr/src/lib/libmp/mdiv.c:149-154 | the first guess is a limb, is not below the true three-by-two digit, and leaves a remainder that fits the 32-bit products that follow |
| DivDigit.TrialDigit | usr/src/lib/libmp/mdiv.c:138-164 | for a divisor top limb of at least 16384 the result is the digit of the top three limbs over the top two, after at most two decrements, with every `long` in range |
| DivDigit.SubtractProduct | usr/src/lib/libmp/mdiv.c:90-114 | the first loop subtracts the multiple from the window, up to the borrow that decides the return value |
| DivDigit.AddBack | usr/src/lib/libmp/mdiv.c:121-129 | the second loop adds the divisor to the low n limbs only and leaves the limb above stale |
| DivDigit.AfterSubtract | usr/src/lib/libmp/mdiv.c:113-120 | the carry is zero exactly when the multiple was not too large; the low limbs are then the remainder, else the remainder plus a power of the base |
| DivDigit.MultiplySubtract | usr/src/lib/libmp/mdiv.c:76-134 | 1 is returned exactly when the digit was one too large, and in both cases the low n limbs end as the true remainder; nothing outside the window changes |
| DivDigit.TopLimbs | usr/src/lib/libmp/mdiv.c:150-154 | the top limb of a window never exceeds the top limb of the divisor, so the test for equality covers every case the quotient would not fit |
| DivDigit.DigitExact | usr/src/lib/libmp/mdiv.c:220-222 | the digit of the leading limbs is the true digit or one more: after subtracting, the rest lies strictly within one divisor of zero |
| DivDigit.DivideWindow | usr/src/lib/libmp/mdiv.c:220-223 | one digit step leaves quotient digit and remainder of the window by the divisor, exactly |
| MintDiv.ShortDivide | usr/src/lib/libmp/mout.c:159-177 | division by one limb: quotient limbs and remainder are exact |
| MintDiv.ShortTop | usr/src/lib/libmp/mout.c:178-180 | dividing by one limb leaves at most one leading zero |
| MintDiv.Sdiv | usr/src/lib/libmp/mout.c:137-157 | division by a short of either sign; quotient and remainder both take the sign of the quotient |
| MintDiv.NormaliseDivisor | usr/src/lib/libmp/mdiv.c:208 | the multiplier brings the top limb to at least half the base and cannot overflow it |
| MintDiv.NormalisedTop | usr/src/lib/libmp/mdiv.c:208-216 | the scaled divisor has as many limbs as before and a top limb of at least 16384 |
| MintDiv.FirstWindow | usr/src/lib/libmp/mdiv.c:209-220 | the first n limbs of the scaled dividend are below the scaled divisor: the first digit fits a limb |
| MintDiv.NextWindow | usr/src/lib/libmp/mdiv.c:219-224 | a remainder below the divisor makes the next window fit too |
| MintDiv.DigitLoop | usr/src/lib/libmp/mdiv.c:217-224 | the digit loop divides the whole array: dividend = quotient * divisor + what is left in the low n limbs, which is below the divisor |
| MintDiv.Unscale | usr/src/lib/libmp/mdiv.c:225-238 | dividing the remainder of the scaled numbers by the multiplier is exact and gives the remainder |
| MintDiv.QuotientTop | usr/src/lib/libmp/mdiv.c:240-243 | stripping at most one leading zero limb trims the quotient |
| MintDiv.Normalise | usr/src/lib/libmp/mdiv.c:205-216 | both operands are multiplied by the same limb, every limb of the scaled dividend is there, and the conditions of the digit loop hold |
| MintDiv.DivideByLimb | usr/src/lib/libmp/mdiv.c:185-195 | the one-limb case gives trimmed quotient and remainder |
| MintDiv.MagDivide | usr/src/lib/libmp/mdiv.c:167-249 | for every dividend and every non-zero divisor: a = q*b + r with 0 <= r < b, q and r trimmed |
| MintDiv.Mdiv | usr/src/lib/libmp/mdiv.c:46-73 | signed division, with results that may be the operands themselves: quotient and remainder carry the same sign flag |
| MintDiv.SignedDivision | usr/src/lib/libmp/mdiv.c:56-70 | what the sign code makes of the division of the magnitudes |
| MintDiv.DivisionIdentity | usr/src/lib/libmp/mdiv.c:60-70 | the identity a = q*b + r holds if and only if b > 0 or b divides a; for b < 0 it is a = q*b - r; for b > 0 the remainder has the sign of a |
| MintDiv.RemainderMagnitude | usr/src/lib/libmp/mdiv.c:46-73 | whatever the signs, the magnitudes are divided: those of q and r are quotient and remainder of those of a and b, which is all Euclid needs |
| MintGcd.EuclidIsGcd | usr/src/lib/libmp/gcd.c:53-57 | Euclid's recursion on magnitudes gives a common divisor that every common divisor divides |
| MintGcd.EuclidStep | usr/src/lib/libmp/gcd.c:54-56 | one turn keeps the greatest common divisor and shrinks the second number, so the loop ends |
| MintGcd.SignStep | usr/src/lib/libmp/gcd.c:54-56 | a remainder has the product of the signs of the two numbers before it, so the sign comes round after three divisions |
| MintGcd.Gcd | usr/src/lib/libmp/gcd.c:45-63 | for all signs, also with the result an operand: the result is a greatest common divisor, and its sign is stated: not negative when neither argument is, a itself when b is zero, and in general the one the number of divisions leads to |
| MintGcd.BezoutStart | usr/src/lib/libmp/gcd.c:91-97 | the invariant holds before the loop |
| MintGcd.BezoutStep | usr/src/lib/libmp/gcd.c:99-111 | one turn keeps the congruences and the cross product equal to x0 with alternating signs |
| MintGcd.BezoutEnd | usr/src/lib/libmp/gcd.c:112-116 | after the loop one conditional addition of x0 brings the coefficient into 0..x0-1 |
| MintGcd.Cross | usr/src/lib/libmp/gcd.c:103-110 | the cross product of coefficients and remainders is the same after the turn, which bounds the coefficients by x0 |
| MintGcd.CoprimeInverse | usr/src/lib/libmp/gcd.c:112-113 | for coprime arguments the coefficient is the inverse |
| MintGcd.ShiftCoefficients | usr/src/lib/libmp/gcd.c:107-110 | `mult`, `msub` in place and two moves update the coefficients |
| MintGcd.InvertStep | usr/src/lib/libmp/gcd.c:103-110 | a turn of the loop on the objects keeps the invariant and shrinks v3 |
| MintGcd.Coefficient | usr/src/lib/libmp/gcd.c:89-111 | the loop ends, with the invariant and v3 zero |
| MintGcd.Invert | usr/src/lib/libmp/gcd.c:68-116 | for every modulus above 1 and every x1: 0 <= c < x0 and c*x1 is congruent to the greatest common divisor; so it is the inverse when they are coprime |
| Des.RoundsBack | usr/src/lib/libcrypt/des_encrypt.c:30-80 | running the last n rounds again on swapped halves with the keys reversed leads back n rounds |
| Des.SelectInverse | usr/src/lib/libcrypt/des_crypt.c:44-55 | selecting by a table and then by its inverse changes nothing |
| Des.SubstitutedEntry | usr/src/lib/libcrypt/des_encrypt.c:54-67 | for tables of numbers from 0 to 15 the four bits of a group make up the entry itself |
| Des.SubstituteMeaning | usr/src/lib/libcrypt/des_encrypt.c:54-67 | the substitution of the cipher function is that one and no other |
| Des.CipherFMeaning | usr/src/lib/libcrypt/des_encrypt.c:41-73 | f(R, K) is E, the bitwise sum with the key, the substitution, and P |
| Des.RoundMeaning | usr/src/lib/libcrypt/des_encrypt.c:30-80 | a round moves the right half left and sums the left half with f(R, K) |
| Des.EncryptMeaning | usr/src/lib/libcrypt/des_encrypt.c:16-95 | the cipher function is exactly what sixteen such rounds make of the permuted block, taken from the exchanged halves through FP |
| Des.DecryptEncrypt | usr/src/lib/libcrypt/des_encrypt.c:16-95 | for any inverse pair of permutations, any E with entries 1..32, any S and P, every key schedule and block: encrypting with the reversed keys undoes encrypting |
| Des.CipherFNot | usr/src/lib/libcrypt/des_encrypt.c:41-67 | complementing half-block and round key leaves the cipher function as it is |
| Des.RoundsNot | usr/src/lib/libcrypt/des_encrypt.c:30-80 | complements pass through any number of rounds |
| Des.EncryptNot | usr/src/lib/libcrypt/des_encrypt.c:16-95 | complementing all round keys and the block complements the output |
| Des.SelectInto | usr/src/lib/libcrypt/des_encrypt.c:25-26 | the selection loops copy the bits a table names |
| Des.Expand | usr/src/lib/libcrypt/des_encrypt.c:41-42 | the 48 bits before selection are E of the right half, added to the round key |
| Des.SubstituteInto | usr/src/lib/libcrypt/des_encrypt.c:54-67 | all eight groups of six bits are replaced: the four bits stored are those of the entry of the table, of the row the outer bits name and the column the inner four name |
| Des.Combine | usr/src/lib/libcrypt/des_encrypt.c:72-73 | the right half becomes the left half added to the permuted output |
| Des.RoundInPlace | usr/src/lib/libcrypt/des_encrypt.c:35-79 | a turn on the shared arrays is a Feistel round: the old right half moves left, the new right half is old left plus f |
| Des.SwapHalves | usr/src/lib/libcrypt/des_encrypt.c:84-88 | the final exchange of the halves |
| Des.DesEncrypt1 | usr/src/lib/libcrypt/des_encrypt.c:16-95 | the whole in-place procedure computes the output the standard defines, bit by bit, and touches nothing behind the block |
| DesKey.TableRanges | usr/src/lib/libcrypt/des_crypt.c:32-125 | every entry of IP, FP, P, PC1, PC2 and E is a position in range |
| DesKey.TableRules | usr/src/lib/libcrypt/des_crypt.c:29-41 | IP takes the even columns and then the odd ones from the bottom up; E repeats the edges of each four bits |
| DesKey.ChoiceRules | usr/src/lib/libcrypt/des_crypt.c:57-75 | permuted choice 1 takes the columns of the key bytes, the first ones into C and the last ones into D |
| DesKey.NoneTwice | usr/src/lib/libcrypt/des_crypt.c:82-98 | P is a permutation, and permuted choice 2 takes no bit twice |
| DesKey.TotalsPin | usr/src/lib/libcrypt/des_crypt.c:80 | the sums of the shifts that leave one choice for each of them |
| DesKey.SaltLetters | usr/src/lib/libcrypt/des_crypt.c:299-305 | the sixty-four salt characters stand for 0 to 63 |
| DesKey.StandardInverse | usr/src/lib/libcrypt/des_crypt.c:32-55 | FP is the inverse of IP, both ways, as its comment says |
| DesKey.RotateOne | usr/src/lib/libcrypt/des_crypt.c:158-161 | the in-place rotation by one |
| DesKey.PickRoundKey | usr/src/lib/libcrypt/des_crypt.c:170-173 | round key i consists of fixed key bits; the other round keys stay |
| DesKey.DesSetKey | usr/src/lib/libcrypt/des_crypt.c:131-178 | the in-place rotations and selections give the sixteen selections of key bits, and E its table |
| DesKey.FullCircle | usr/src/lib/libcrypt/des_crypt.c:80 | the shifts of all rounds add up to 28: both halves end where they started |
| DesKey.ParityUnused | usr/src/lib/libcrypt/des_crypt.c:57-75 | no round key depends on the eighth bit of a key byte |
| DesKey.ScheduleNot | usr/src/lib/libcrypt/des_crypt.c:131-178 | complementing the key complements every round key |
| DesKey.Complementation | usr/src/lib/libcrypt/des_crypt.c:131-275 | with the library's tables, complementing key and block complements the output |
| DesKey.Decryption | usr/src/lib/libcrypt/des_crypt.c:131-275 | with the library's tables the reversed schedule of any key decrypts |
| DesKey.WeakKeyInvolution | usr/src/lib/libcrypt/des_crypt.c:131-275 | under a key whose halves are each all alike, encrypting twice is the identity |
| DesKey.SwapSalt | usr/src/lib/libcrypt/des_crypt.c:298-313 | the six conditional exchanges of a salt character keep E in range and amount to a known permutation |
| DesKey.SaltEnd | usr/src/lib/libcrypt/des_crypt.c:306-312 | that permutation exchanges entry 6i+j with the one 24 further on exactly when bit j of the character is set, and moves nothing else |
| Regexp.DownStops | usr/src/head/regexp.h:484-491 | the `star:` loop stops at the first place, from the top, where the rest matches |
| Regexp.RunIsLongest | usr/src/head/regexp.h:362-427 | a count is allowed and possible exactly when it is between the lower bound and what the scan reached |
| Regexp.FirstIsGreatest | usr/src/head/regexp.h:303-495 | the backtracking search returns the match with the lexicographically greatest counts, and none only if no counts lead anywhere |
| Regexp.FirstIffMatches | usr/src/head/regexp.h:303-495 | the search succeeds exactly when some prefix is in the language of the pattern |
| Regexp.ReachedLeads | usr/src/head/regexp.h:354-360 | the position where a mark is reached is where the part of the pattern before it has matched up to, with its share of the counts |
| Regexp.GroupMeaning | usr/src/head/regexp.h:354-360 | after a match each of the nine starts and ends is the position its last mark was reached at by that match, and a group the pattern does not have is as it was |
| RegexpCode.MapBit | usr/src/head/regexp.h:29-30 | `ISTHERE` on a bit map is membership |
| RegexpCode.TestMeaning | usr/src/head/regexp.h:316-352 | the test of an opcode, in all three class forms, accepts exactly the characters of its expression |
| RegexpCode.NodeCode | usr/src/head/regexp.h:90-267 | the code of each node is at its offset, and the next follows it |
| RegexpCode.EndCode | usr/src/head/regexp.h:84-88 | behind the last node is the end mark |
| RegexpCompile.Place | usr/src/head/regexp.h:29 | `PLACE` adds one character to the map and changes nothing before it |
| RegexpCompile.Widen | usr/src/head/regexp.h:137-144 | switching to a 32-byte map keeps the members |
| RegexpCompile.Negate | usr/src/head/regexp.h:172-182 | both ways of negating a class give the map of the complement, or the map `NCCL` reads as the complement |
| RegexpCompile.PlaceInterval | usr/src/head/regexp.h:158-161 | the loop marks the characters from lc up to, but not including, c |
| RegexpCompile.ClassLoop | usr/src/head/regexp.h:133-165 | the members read and placed are those the class denotes, the map is wide exactly when one has its high bit set, and every error is one the syntax has or lack of space |
| RegexpCompile.CompileClass | usr/src/head/regexp.h:118-186 | a bracket expression is compiled to the code of its class |
| RegexpCompile.ReadNumber | usr/src/head/regexp.h:213-222 | digits up to a backslash or comma, or the error the code gives |
| RegexpCompile.CompileRange | usr/src/head/regexp.h:211-241 | the two bytes of a range, or the same error |
| RegexpCompile.EmittedRepeat | usr/src/head/regexp.h:106-110 | setting the repetition flags of the last opcode in place turns the code of an expression into the code of the repeated expression |
| RegexpCompile.LastOpcode | usr/src/head/regexp.h:107 | `*lastep` tells group marks from expressions |
| RegexpCompile.StarLast | usr/src/head/regexp.h:109-110 | setting STAR on the last opcode; on a range it changes nothing |
| RegexpCompile.RangeLast | usr/src/head/regexp.h:207-241 | a range on the last expression |
| RegexpCompile.CompileEscape | usr/src/head/regexp.h:188-259 | every escape stores its node, is taken literally, or is the error of the syntax |
| RegexpCompile.CompileToken | usr/src/head/regexp.h:81-266 | one turn of the outer loop keeps the code equal to the code of the nodes parsed so far |
| RegexpCompile.Compile | usr/src/head/regexp.h:46-268 | on success the buffer holds the code of the parsed pattern; on failure the error is the one of the syntax, or there was too little space |
| RegexpGrammar.ParsesBracket | usr/src/head/regexp.h:118-186 | any written bracket expression is read as the set it lists |
| RegexpGrammar.ParsesBounds | usr/src/head/regexp.h:211-241 | any written range `m`, `m,` or `m,n` is read as its bounds |
| RegexpGrammar.ParsesGroup | usr/src/head/regexp.h:191-205 | nested groups close in the order they were opened |
| RegexpGrammar.Parses | usr/src/head/regexp.h:78-267 | any concatenation of expressions and groups, written out, is read as its nodes |
| RegexpGrammar.ParseOfShow | usr/src/head/regexp.h:46-268 | for an independent grammar of patterns: what is written for a syntax tree, with any delimiter, is parsed to the meaning of that tree, anchors included |
| RegexpSpelling.StandsForItself | usr/src/head/regexp.h:106-266 | a star behind nothing to repeat, a dollar not at the end and a caret not at the start stand for themselves, as every character that is not special |
| RegexpSpelling.QuotedStandsForItself | usr/src/head/regexp.h:188-266 | so does any character behind a backslash but the few that have a meaning there |
| RegexpSpelling.MoreStars | usr/src/head/regexp.h:106-110 | a second star changes nothing |
| RegexpSpelling.StrayClose | usr/src/head/regexp.h:199-205 | a group closed but not opened, behind any pattern, is error 42 |
| RegexpSpelling.UnclosedGroup | usr/src/head/regexp.h:84-88 | so is one opened and not closed |
| RegexpSpelling.TenthGroup | usr/src/head/regexp.h:191-193 | the tenth group is error 43 |
| RegexpSpelling.BackwardRange | usr/src/head/regexp.h:235-240 | a range that runs backwards is error 46 |
| RegexpSpelling.HugeBound | usr/src/head/regexp.h:215-222 | a bound of 255 or more is error 11 |
| RegexpSpelling.RefusedRange | usr/src/head/regexp.h:207-241 | and a range that is refused makes the pattern refused |
| RegexpAdvance.ScanAll | usr/src/head/regexp.h:454-482 | the star loops stop one behind the first character that fails the test |
| RegexpAdvance.AgreeFirst | usr/src/head/regexp.h:354-360 | group marks left by a failed attempt do not influence the next one |
| RegexpAdvance.ItemCode | usr/src/head/regexp.h:362-482 | where operand and range bytes of an expression are, and how long its code is |
| RegexpAdvance.Matcher.constructor | usr/src/head/regexp.h:33-41 | a matcher starts with room for nine groups |
| RegexpAdvance.Matcher.ScanCount | usr/src/head/regexp.h:362-427 | the range loops fail exactly when fewer than the lower count match, and else stop one behind the longest allowed run |
| RegexpAdvance.Matcher.TryDown | usr/src/head/regexp.h:484-491 | tries the rest from the longest repetition down to the shortest |
| RegexpAdvance.Matcher.Single | usr/src/head/regexp.h:316-360 | the opcodes without repetition |
| RegexpAdvance.Matcher.Repeated | usr/src/head/regexp.h:362-491 | the opcodes with a range or star |
| RegexpAdvance.Matcher.Advance | usr/src/head/regexp.h:303-495 | on compiled code `advance` is the backtracking search: same answer, same `loc2`, same group marks; on failure `loc2` is untouched; the recursion ends |
| RegexpAdvance.LeadingChar | usr/src/head/regexp.h:280-292 | code that begins with CCHR is code of a pattern that begins with one fixed, unrepeated character |
| RegexpAdvance.Matcher.Step | usr/src/head/regexp.h:270-301 | the leftmost position where the search succeeds, the end of the text included, or the start alone when anchored; the first-character shortcut changes neither answer, `loc1` nor `loc2` |
| RegexpSearch.SearchMeaning | usr/src/head/regexp.h:303-495 | success means a match in the language, its end is that of the greatest counts, and the group marks are those of that match |
| RegexpSearch.CompileAndStep | usr/src/head/regexp.h:45-301 | from pattern text to answer: found exactly when some part of the text is in the language, `loc1` leftmost, `loc2` the end of the longest-first match, `braslist` and `braelist` the positions of the groups in that match |
| DeviceTable.UnescapeEscape | usr/src/lib/libadm/putdev.c:130-140 | dropping escapes undoes `strcatesc` on every string |
| DeviceTable.SplitField | usr/src/lib/libadm/devtab.c:197-242 | an escaped field, whatever it contains, ends at the delimiter behind it |
| DeviceTable.AttrRead | usr/src/lib/libadm/devtab.c:311-384 | an attribute with a good name is read back, also when its value holds quotes, backslashes, colons or newlines |
| DeviceTable.BadNameRead | usr/src/lib/libadm/devtab.c:326-344 | a name with "=" in it or one with a leading blank comes back shorter or not at all |
| DeviceTable.AttrsReadIff | usr/src/lib/libadm/devtab.c:789-799 | an attribute list comes back exactly when all its names are good |
| DeviceTable.DeviceRead | usr/src/lib/libadm/devtab.c:678-814 | a data record with a valid alias comes back, empty fields as missing ones, exactly when its attribute names are good |
| DeviceTable.CommentRead | usr/src/lib/libadm/devtab.c:705-721 | a comment record comes back |
| DeviceTable.RecordFramed | usr/src/lib/libadm/devtab.c:414-512 | wherever a written record stands, reading there takes exactly that record |
| DeviceTable.FramedPrintable | usr/src/lib/libadm/putdev.c:599-683 | the records the round trip is stated for can all be written |
| DeviceTable.ReadBack | usr/src/lib/libadm/devtab.c:678-814 | for every list of comments and data records with valid aliases: writing all and reading all gives the list back if and only if all attribute names are good and each record fits the largest buffer of the reader |
| DeviceTable.CommentsComeBack | usr/src/lib/libadm/devtab.c:705-721 | a comment cut out of any file is one the writer reproduces |
| DeviceTableLine.LineRead | usr/src/lib/libadm/devtab.c:730-799 | a line alias:cdevice:bdevice:path: with anything behind it is read as these four fields, an empty one as missing |
| DeviceTableLine.PairsRead | usr/src/lib/libadm/devtab.c:311-384 | pairs name="value" with blanks between them are read as these attributes |
| DeviceTableLine.PlainLine | usr/src/lib/libadm/putdev.c:645-676 | a data record with nothing to escape is written as that line |
| DeviceTableLine.PlainComment | usr/src/lib/libadm/putdev.c:600-618 | a comment with nothing to escape is written as it is |
| DeviceTableLine.EscapeEach | usr/src/lib/libadm/putdev.c:130-140 | escaping goes character by character and puts a backslash before a colon, a backslash, a quote and a newline alone |
| DeviceTableWriter.AttrsSizeBound | usr/src/lib/libadm/putdev.c:636-640 | the space added up for attributes is enough |
| DeviceTableWriter.StrCatEsc | usr/src/lib/libadm/putdev.c:130-140 | the escaped string is appended at the pointer, which moves behind it |
| DeviceTableWriter.PutAttrs | usr/src/lib/libadm/putdev.c:664-675 | the attribute loop, with blanks only between two attributes |
| DeviceTableWriter.DeviceSize | usr/src/lib/libadm/putdev.c:632-640 | the size computed before printing |
| DeviceTableWriter.PutDevice | usr/src/lib/libadm/putdev.c:620-683 | the record is printed into a buffer of that size without leaving it |
| DeviceTableWriter.PutComment | usr/src/lib/libadm/putdev.c:600-618 | the escape before the last newline is overwritten |
| DeviceTableWriter.PutRecord | usr/src/lib/libadm/putdev.c:586-687 | what goes to the stream is the printed record; with nothing to escape, the line alias:cdevice:bdevice:path: and the pairs name="value" |
| DeviceTableReader.Reader.FindDelimiter | usr/src/lib/libadm/devtab.c:223-232 | the scan finds the first delimiter that is not escaped, or the end |
| DeviceTableReader.Reader.GetField | usr/src/lib/libadm/devtab.c:197-242 | the token is cut off in the buffer and `leftoff` is behind it, or both pointers are null |
| DeviceTableReader.Reader.GetQuoted | usr/src/lib/libadm/devtab.c:267-293 | the quoted value without its escapes |
| DeviceTableReader.Reader.GetAttrVal | usr/src/lib/libadm/devtab.c:311-384 | the next name and value |
| DeviceTableReader.Reader.Fgets | usr/src/lib/libadm/devtab.c:433 | at most n-1 characters up to the first newline, from where the stream is |
| DeviceTableReader.Reader.MakeRoom | usr/src/lib/libadm/devtab.c:452-480 | a full buffer grows by one increment, or the record is longer than any that is read |
| DeviceTableReader.Reader.CheckComplete | usr/src/lib/libadm/devtab.c:442-444 | the two-character test recognises the end of the record, and otherwise the end is further on |
| DeviceTableReader.Reader.GetNextRec | usr/src/lib/libadm/devtab.c:413-512 | whatever the chunks and extensions, the next record is delivered whole, or none |
| DeviceTableReader.Reader.GetDevTabEnt | usr/src/lib/libadm/devtab.c:677-814 | the next entry with its record number; records that are no entries are skipped but counted |
| DeviceTableEntry.TakeOne | usr/src/lib/libadm/putdev.c:446-537 | an argument is refused exactly when it names "alias", with EINVAL, or a name that is set, with EAGAIN; else that name alone changes |
| DeviceTableEntry.TakeAllMeaning | usr/src/lib/libadm/putdev.c:443-556 | after any arguments the entry says exactly what they set, and refusal happens exactly on a clash |
| DeviceTableEntry.TakenInOrder | usr/src/lib/libadm/putdev.c:516-535 | the attributes are linked in the order of the arguments |
| DeviceTableEntry.MadeMeaning | usr/src/lib/libadm/putdev.c:406-567 | `mkdevtabent` builds the map its arguments describe, with no name twice |
| DeviceTableLists.MergeOneMeaning | usr/src/lib/libadm/putdev.c:842-878 | overriding or adding one attribute changes that name only and repeats none |
| DeviceTableLists.MergedMeaning | usr/src/lib/libadm/putdev.c:839-885 | the merged list is the old map overridden by the new one, and repeats no name |
| DeviceTableLists.MergedOrder | usr/src/lib/libadm/putdev.c:860-877 | old names stay in their order, and new ones come before them, the last one first |
| DeviceTableLists.Overwrite | usr/src/lib/libadm/putdev.c:845-852 | the search of the old list gives the first node of that name the new value |
| DeviceTableLists.Unlink | usr/src/lib/libadm/putdev.c:865-867 | the node leaves the list of changes |
| DeviceTableLists.PushFront | usr/src/lib/libadm/putdev.c:868-869 | and becomes the first of the device's list |
| DeviceTableLists.MoveNode | usr/src/lib/libadm/putdev.c:862-870 | every node is in exactly one of the two lists afterwards |
| DeviceTableLists.MergeStep | usr/src/lib/libadm/putdev.c:842-878 | one pass of the loop body performs one step of the merge on the linked lists |
| DeviceTableLists.MergeLists | usr/src/lib/libadm/putdev.c:839-885 | the loop performs the whole merge; no node is lost, shared or in both lists |
| DeviceTableLists.TakePair | usr/src/lib/libadm/putdev.c:446-556 | one argument on the linked record |
| DeviceTableLists.MkDevTabEnt | usr/src/lib/libadm/putdev.c:406-567 | a fresh linked record for the arguments, or null with the error number |
| DeviceTableLists.ModifiedMeaning | usr/src/lib/libadm/putdev.c:813-890 | the modified record is the old map overridden by the arguments |
| DeviceTableLists.Modify | usr/src/lib/libadm/putdev.c:818-885 | all changes on the linked records amount to that |
| DeviceTableFile.GetDevRec | usr/src/lib/libadm/devtab.c:1023-1033 | the first data record of that alias, with its number |
| DeviceTableFile.Rewrite | usr/src/lib/libadm/putdev.c:905-912 | the table is copied record by record with one record replaced or left out |
| DeviceTableFile.Table.AddDevTabRec | usr/src/lib/libadm/putdev.c:711-768 | a new record goes to the end of the file, or nothing changes |
| DeviceTableFile.Table.ModDevTabRec | usr/src/lib/libadm/putdev.c:789-941 | the record is replaced in a rewritten file, or nothing changes |
| DeviceTableFile.Table.RmDevTabRec | usr/src/lib/libadm/putdev.c:958-990 | the record is missing from a rewritten file, or nothing changes |
| DeviceTableFile.NumberedBack | usr/src/lib/libadm/devtab.c:700-706 | a written table is read back in order with consecutive record numbers |
| DeviceTableFile.CopyBut | usr/src/lib/libadm/putdev.c:907-912 | the copy is the text of the same entries with that one entry replaced or missing |
| DeviceTableFile.EffectKept | usr/src/lib/libadm/putdev.c:711-990 | an operation on a table the library wrote leaves such a table, of the entries the operation means, if a record it writes can be read back; it succeeds exactly when the alias exists (or, for an addition, is valid and new) and the arguments do not clash |
| DeviceTableFile.EffectReadBack | usr/src/lib/libadm/putdev.c:711-990 | whatever record it writes, the file becomes the text of those entries, and they are read back if and only if that record has good names and fits |
| DeviceTableFile.OverlongEnds | usr/src/lib/libadm/devtab.c:452-480 | the reader delivers nothing from an over-long record on, so the next rewriting drops all behind it |
| DeviceTableFile.RunKept | usr/src/lib/libadm/putdev.c:711-990 | after any run of additions, modifications and removals, all writing records that can be read back, the table reads back as the entries the run means |
| DeviceTableFile.ModifiedWritable | usr/src/lib/libadm/putdev.c:813-885 | a modification with good names leaves a record that can be read back |
| DeviceLocks.CheckKeeps | usr/src/lib/libadm/devreserv.c:731-772 | `islocked` keeps aliases unique, adds no lock, removes only one whose key is dead, and grants only an alias no slot has then |
| DeviceLocks.ScanKeeps | usr/src/lib/libadm/devreserv.c:935-979 | over the scan of all lists, picks are different, are in no slot, and no new lock appears |
| DeviceLocks.FillMeaning | usr/src/lib/libadm/devreserv.c:663-673 | filling empty slots keeps all locks and adds the picks there was room for |
| DeviceLocks.UsedAll | usr/src/lib/libadm/devreserv.c:542-585 | compressing leaves no empty slot and keeps a list without one as it is |
| DeviceLocks.PutMeaning | usr/src/lib/libadm/devreserv.c:643-704 | the table written holds exactly the locks there were and one lock for each pick, and no empty slot, whether it grows or shrinks |
| DeviceLocks.PutUnique | usr/src/lib/libadm/devreserv.c:643-704 | it has no alias twice |
| DeviceLocks.PlanFile | usr/src/lib/libadm/devreserv.c:458-523 | once all writes are done the file holds the count and the table, with older slots possibly behind it |
| DeviceLocks.PlanMeaning | usr/src/lib/libadm/devreserv.c:342-376 | reading it then gives the new table |
| DeviceLocks.PlanPrefix | usr/src/lib/libadm/devreserv.c:458-523 | after any number of the writes the count is the new one and the new table has replaced the old slots up to some position: none, or at least as many as the old table had |
| DeviceLocks.PartlyWritten | usr/src/lib/libadm/devreserv.c:342-376 | such a file can be read if and only if it is already long enough, and then shows new slots followed by old ones |
| DeviceLockLaws.UnreserveMeaning | usr/src/lib/libadm/devreserv.c:833-862 | a release is granted exactly when the first lock of that alias is the key's; the error is EINVAL exactly when nobody has one |
| DeviceLockLaws.UniqueRelease | usr/src/lib/libadm/devreserv.c:833-862 | in a table that has no alias twice: exactly when the key has a lock of it, and EPERM exactly when another key has |
| DeviceLockLaws.ReleaseGranted | usr/src/lib/libadm/devreserv.c:1032-1065 | so a whole release is granted exactly then, takes away that one lock, and otherwise leaves the file with the right error |
| DeviceLockLaws.CheckMeaning | usr/src/lib/libadm/devreserv.c:731-772 | an alias may be granted exactly when no living key has it |
| DeviceLockLaws.ScanMeaning | usr/src/lib/libadm/devreserv.c:935-979 | while the same processes live, a reservation is granted exactly when every list has a device to be had before any whose name cannot be looked up; it picks the first of each list; otherwise the first list that has none decides between ENODEV, EAGAIN and the error of the look-up |
| DeviceLockLaws.ReservationGranted | usr/src/lib/libadm/devreserv.c:905-1013 | the same of a whole reservation |
| DeviceLockRuns.ReserveDecides | usr/src/lib/libadm/devreserv.c:929-979 | a reservation decides on a table that answers every list once and clears only dead locks, or gives up with the file untouched |
| DeviceLockRuns.FreeDecides | usr/src/lib/libadm/devreserv.c:1047-1055 | a release decides on the table without that lock of its key, or gives up |
| DeviceLockRuns.FreeDecision | usr/src/lib/libadm/devreserv.c:1047-1055 | in any run a release decides to write exactly when the file shows a lock of its key and alias, and otherwise leaves with the error saying why |
| DeviceLockRuns.ReserveTurn | usr/src/lib/libadm/devreserv.c:940-966 | in any run a turn of a reservation picks the device at hand exactly when it is known and, by the file, no living key has it |
| DeviceLockRuns.WrittenGood | usr/src/lib/libadm/devreserv.c:643-704 | before the first and after the last write of a call the file is whole |
| DeviceLockRuns.DiesWriting | usr/src/lib/libadm/devreserv.c:458-523 | a death among the writes leaves a file that cannot be read or is whole, unless the new count takes in old slots |
| DeviceLockRuns.StepKeeps | usr/src/lib/libadm/devreserv.c:905-1065 | every fair step of every process keeps the invariant: one holder at most, decisions fit the file, what is written is a part of the plan over the last whole table |
| DeviceLockRuns.RunKeeps | usr/src/lib/libadm/devreserv.c:905-1065 | so does every interleaved run |
| DeviceLockRuns.Safety | usr/src/lib/libadm/devreserv.c:905-1065 | in every run with no exposed death (one between the writes of a call whose new count takes in slots left behind the table) and no call that can pick one device for two lists: whenever nobody is writing, no alias is held by two living keys, and a table that can be read has no empty or repeated slot |
| DeviceLockRuns.RefusedUnchanged | usr/src/lib/libadm/devreserv.c:968-996 | a refused call leaves the table as it read it |
| DeviceLockRuns.ReserveCompleted | usr/src/lib/libadm/devreserv.c:905-1013 | a completed reservation has added one lock on its key for each list, offered by that list, and kept every lock of a live key |
| DeviceLockRuns.FreeCompleted | usr/src/lib/libadm/devreserv.c:1032-1065 | a completed release has removed that lock and kept the others in order |
| DeviceLockDeaths.Interrupted | usr/src/lib/libadm/devreserv.c:458-523 | at any time between the first write and the last the file is the new count and a part of the new table over a whole file with the old table |
| DeviceLockDeaths.DeathLeaves | usr/src/lib/libadm/devreserv.c:342-376 | exactly what a death there leaves: a file that cannot be read, the front of the old table, or the part of the new table that was written (at first, the old table) followed by slots that were behind the old table |
| DeviceLockDeaths.HeldTwiceIff | usr/src/lib/libadm/devreserv.c:458-523 | such a death gives an alias to two living keys if and only if the new count takes in an old slot, behind the old table and not written over, that clashes with a slot before it; when only the count is written, both are slots of the old file |
| DeviceLockDeaths.LostIff | usr/src/lib/libadm/devreserv.c:458-523 | of the locks the call found, such a death takes that of a living key if and only if the new count does not reach it, as far as the file can be read |
| DeviceLockDeaths.TightFile | usr/src/lib/libadm/devreserv.c:458-523 | on a file with nothing behind its table, which a caller can see before the call, whatever prefix of the writes is done leaves a front of the old table, or a file that cannot be read when the table grows |
| DeviceLockDeaths.TightCall | usr/src/lib/libadm/devreserv.c:905-1065 | so a process that takes the lock when nothing is behind the table is not exposed at any time until it gives the lock up, whatever the others do: no death of it is an exposed one |
| DeviceLockDeaths.FrozenForever | usr/src/lib/libadm/devreserv.c:342-376 | a file that cannot be read stays as it is: every later call is refused |
| DeviceLockDeaths.FreezesIff | usr/src/lib/libadm/devreserv.c:458-523 | a step makes the file unreadable if and only if it is a death after the count is written and before the file is that long |
| DeviceLockDeaths.FrozenIff | usr/src/lib/libadm/devreserv.c:905-1065 | so after a fair run the file is unreadable if and only if the run had such a death |
| DeviceLockDeaths.SharedIff | usr/src/lib/libadm/devreserv.c:929-990 | a reservation writes an alias twice if and only if it picked one twice |
| DeviceLockHistory.OnlyCommits | usr/src/lib/libadm/devreserv.c:905-1065 | reading, deciding, the writes before the last, refusals, the end of a call and deaths outside the writes change no lock in force |
| DeviceLockHistory.DeathCuts | usr/src/lib/libadm/devreserv.c:458-487 | a death among the writes that is not exposed and leaves a readable file takes away exactly the locks behind the new count |
| DeviceLockHistory.KeepingIff | usr/src/lib/libadm/devreserv.c:458-487 | so it leaves every living key the locks it has not asked to give back if and only if there is no such lock behind the new count |
| DeviceLockHistory.CommitReserve | usr/src/lib/libadm/devreserv.c:986-990 | with its last write a reservation keeps every lock of a living key, adds its own, and none of its own is on a device such a key holds |
| DeviceLockHistory.CommitFree | usr/src/lib/libadm/devreserv.c:1047-1053 | with its last write a release takes away that one lock |
| DeviceLockHistory.StepHistory | usr/src/lib/libadm/devreserv.c:905-1065 | each keeping step changes the locks of living keys as the call it commits says, and in no other way, while the file can be read |
| DeviceLockHistory.TableTellsHistory | usr/src/lib/libadm/devreserv.c:905-1065 | after any keeping run from the empty table, whenever nobody is writing and the file can be read, it shows a living key to hold a device if and only if a call of the run gave it the device and no later one gave it back |
| DeviceLockHistory.GrantedOnce | usr/src/lib/libadm/devreserv.c:873-877 | in any keeping run a device given to a key is given to nobody again until that key dies or gives it back: what the comment of `devreserv` promises |
| DeviceLockCalls.Undisturbed | usr/src/lib/libadm/devreserv.c:905-1065 | the steps of a call that no other process disturbs are possible, and come to what `devreserv` or `devfree` by itself makes of the file, all else being as before |
| DeviceLockCalls.FreeOutcome | usr/src/lib/libadm/devreserv.c:1032-1065 | an undisturbed release is granted exactly when it should be and takes away just that lock |
| DeviceLockCalls.ReserveOutcome | usr/src/lib/libadm/devreserv.c:905-1013 | an undisturbed reservation is granted exactly when it should be and locks the first offers |
| DeviceLockScenarios.StaleSlot | usr/src/lib/libadm/devreserv.c:458-487 | a run of whole calls from the empty table that leaves an old lock on a device behind a table in which another living key holds it |
| DeviceLockScenarios.DeathMidWrite | usr/src/lib/libadm/devreserv.c:472-481 | a run from the empty table, all keeping, whose next event can be a death between the count and the table that lets two living keys hold one device: the condition on exposed deaths is needed |
| DeviceLockScenarios.SharedDevice | usr/src/lib/libadm/devreserv.c:929-990 | a run from the empty table whose first event starts a call that can pick one device for two lists, and is keeping from then on, after which two living keys hold one device: the condition on lists is needed |
| DeviceLockScenarios.LostLock | usr/src/lib/libadm/devreserv.c:458-487 | a fair run from the empty table in which a key is given a device, a release by another dies between its writes, and the device is given to a third key, though the second lives and gave nothing back: being keeping is needed for `GrantedOnce` |
| DeviceLockScenarios.DeathFreezes | usr/src/lib/libadm/devreserv.c:472-481 | a run from the empty table, all keeping, after which nobody can read the file any more |
| DeviceLockTable.LockTable.ReadLocks | usr/src/lib/libadm/devreserv.c:342-376 | the counted slots are read, or the read fails because there are fewer |
| DeviceLockTable.LockTable.IsLocked | usr/src/lib/libadm/devreserv.c:731-772 | the loop and the cleared slot agree with the check |
| DeviceLockTable.LockTable.Unreserv | usr/src/lib/libadm/devreserv.c:802-866 | the slot is emptied, or the list is untouched and the error as `UnreserveMeaning` says |
| DeviceLockTable.LockTable.CompressLks | usr/src/lib/libadm/devreserv.c:542-585 | the in-place squeeze brings the used slots, in order, to the front |
| DeviceLockTable.LockTable.WriteLks | usr/src/lib/libadm/devreserv.c:458-487 | the count that will be, then the table that is |
| DeviceLockTable.LockTable.FillSlots | usr/src/lib/libadm/devreserv.c:663-673 | the loop over holes |
| DeviceLockTable.LockTable.PutLocks | usr/src/lib/libadm/devreserv.c:643-704 | the writes of either branch are those of the plan the runs are about |
| DeviceLockTable.LockTable.PickOne | usr/src/lib/libadm/devreserv.c:935-977 | the loop over one list |
| DeviceLockTable.LockTable.DevReserv | usr/src/lib/libadm/devreserv.c:905-1013 | granted exactly when every list offers a device, while the same processes live; each device returned is of its list, has the alias that was locked, and is the first to be had; on failure the file is untouched and the error as stated |
| DeviceLockTable.LockTable.DevFree | usr/src/lib/libadm/devreserv.c:1032-1065 | on a whole table: granted if and only if the key has a lock on the device, which then is the one lock that is gone; otherwise the file is untouched, with EPERM when another key has one and EINVAL when nobody has |
| Calendars.NextJan1 | usr/src/lib/libgen/getdate.c:783-815 | January 1 of the next year is the length of this year further on, modulo 7, if and only if the year is regular; all years from 1753 on are |
| Calendars.WholeYear | usr/src/lib/libgen/getdate.c:759-775 | the twelve month lengths add up to the length of the year |
| Calendars.MonthLengthRule | usr/src/lib/libgen/getdate.c:759-767 | the months but February alternate between 31 and 30 days, in groups of seven and five |
| Calendars.KnownYears | usr/src/lib/libgen/getdate.c:769-815 | 1970 began on a Thursday and 2000, a leap year, on a Saturday |
| Calendars.DatedUnique | usr/src/lib/libgen/getdate.c:858-875 | a day of the year is one day of one month only: DOY inverts DMY |
| Calendars.WeekdayByNumber | usr/src/lib/libgen/getdate.c:783-815 | from 1801 on the weekday is the number of days since then, modulo 7 |
| Calendars.Calendar.SetCal | usr/src/lib/libgen/getdate.c:759-767 | the table of month lengths fits the year |
| Calendars.Calendar.DMY | usr/src/lib/libgen/getdate.c:749-757 | an existing date gets its day of the year and weekday |
| Calendars.Calendar.DOY | usr/src/lib/libgen/getdate.c:858-875 | a day number of this or the next year gets its month, day and weekday, all consistent |
| Calendars.Calendar.Year | usr/src/lib/libgen/getdate.c:817-825 | January 1 of that year, consistent |
| Calendars.Calendar.Month | usr/src/lib/libgen/getdate.c:835-842 | the next such month; consistent exactly when it has that day |
| Calendars.Calendar.MON | usr/src/lib/libgen/getdate.c:827-833 | the first of the next such month, always consistent |
| Calendars.Calendar.Day | usr/src/lib/libgen/getdate.c:738-746 | the next such day of a month; consistent if and only if the month has that day and December was not left |
| Calendars.Calendar.AddDays | usr/src/lib/libgen/getdate.c:851-856 | that many days on, across the end of month and year |
| Calendars.Calendar.DOW | usr/src/lib/libgen/getdate.c:844-849 | on by less than a week; the weekday is reached if and only if the year stays the same or is regular |
| Calendars.FirstAhead | usr/src/lib/libgen/getdate.c:848 | no earlier day has that weekday |
| Calendars.WeekdayAhead | usr/src/lib/libgen/getdate.c:844-875 | the same for the day numbers, across the end of the year |
| Calendars.SameDay | usr/src/lib/libgen/getdate.c:685-687 | a move of less than a week never comes back to the same day of a month, so comparing the day finds every wrong weekday |
| Calendars.Calendar.Verify | usr/src/lib/libgen/getdate.c:677-694 | a date is accepted if and only if the day exists and has the weekday given with it, or, without a day, the weekday is reached; the result then is as given |
| Calendars.OnwardNumber | usr/src/lib/libgen/getdate.c:858-867 | moving into the next year keeps the number of days |
| FreeQueues.FreeQueue.AddFreeQ | usr/src/lib/libmalloc/mallint.h:60-65 | x becomes the first of the queue, links stay mutual |
| FreeQueues.LinkedWithout | usr/src/lib/libmalloc/mallint.h:66-67 | two assignments lead the links past a node |
| FreeQueues.FreeQueue.DelFreeQ | usr/src/lib/libmalloc/mallint.h:66-69 | exactly x leaves the queue, the order of the rest stays |
| FreeQueues.FreeQueue.CloseRing | usr/src/lib/libmalloc/mallint.h:70-73 | the first half of the macro ties the queue into a ring |
| FreeQueues.RingRotated | usr/src/lib/libmalloc/mallint.h:70-79 | a ring may be read from any of its nodes |
| FreeQueues.FreeQueue.CutRing | usr/src/lib/libmalloc/mallint.h:74-77 | the second half cuts it before x |
| FreeQueues.FreeQueue.MoveHead | usr/src/lib/libmalloc/mallint.h:70-79 | the queue is turned so that x is first, also when x is first or alone |
| FreeQueues.RotatedKeeps | usr/src/lib/libmalloc/mallint.h:57-58 | turning keeps all blocks, puts x first, and is undone by turning the rest of the way |
| FreeQueues.FreeQueue.CheckQ | usr/src/lib/libmalloc/mallint.h:145-160 | every assertion of the debug walk holds, and both walks end at the other sentinel |
| Gmatch.StarStar | usr/src/lib/libgen/gmatch.c:122-123 | a second star adds nothing |
| Gmatch.StarThen | usr/src/lib/libgen/gmatch.c:125-139 | behind a star, trying only the suffixes that are not empty loses no match |
| Gmatch.MalformedMatchesNothing | usr/src/lib/libgen/gmatch.c:20-25 | a pattern with an unclosed class or a trailing backslash matches nothing, whatever stands before that part |
| Gmatch.MatchClass | usr/src/lib/libgen/gmatch.c:68-108 | the class loop, with ranges, quoting and negation, decides membership and finds the end |
| Gmatch.TrySuffixes | usr/src/lib/libgen/gmatch.c:127-139 | the loop over suffixes |
| Gmatch.GMatch | usr/src/lib/libgen/gmatch.c:27-141 | true exactly when all of the string is in the language of the pattern |
| GmatchGrammar.ItemsOfShow | usr/src/lib/libgen/gmatch.c:44-125 | for an independent grammar of patterns: what is written for the parts, quoted or not, is read as their meaning |
| GmatchGrammar.ReadsElements | usr/src/lib/libgen/gmatch.c:68-108 | in particular a class, with ranges, hyphens at either end and a closing bracket in front |
| GmatchGrammar.TrailingBackslash | usr/src/lib/libgen/gmatch.c:112-113 | behind any pattern, a backslash with nothing after it is a part that matches nothing |
| GmatchGrammar.UnclosedClass | usr/src/lib/libgen/gmatch.c:54-110 | so is a class that is not closed |
| CEscapes.TakeEscape | usr/src/lib/libgen/strccpy.c:50-97 | whatever one character was expanded to is read as that character, whatever follows, octal digits included |
| CEscapes.NamedEscapes | usr/src/lib/libgen/strecpy.c:58-79 | the seven characters from the bell to the carriage return, and no others, have the letters a, b, t, n, v, f and r, both ways |
| CEscapes.OctalEscapes | usr/src/lib/libgen/strecpy.c:82-85 | any other character that does not print is its three octal digits |
| CEscapes.RoundTrip | usr/src/lib/libgen/strecpy.c:47-94 | compressing undoes expanding for every string without NUL, unless a backslash of the string is excepted |
| CEscapes.ExceptedBackslash | usr/src/lib/libgen/strecpy.c:88-90 | with the backslash excepted, a backslash and an n come back as a newline |
| CEscapes.Lighter | usr/src/lib/libgen/strccpy.c:50-97 | what comes back has no more backslashes and escaped characters together and, if as many, is no longer; a backslash that was excepted makes one of the two strict |
| CEscapes.OneComesBack | usr/src/lib/libgen/strecpy.c:47-94 | so a string that does not end in a backslash comes back if and only if it has no excepted backslash, given that octal digits and the letters of the named escapes are written as they are |
| CEscapes.AllComeBack | usr/src/lib/libgen/strecpy.c:47-94 | and all strings come back if and only if the backslash is not excepted |
| CEscapes.StrEAdd | usr/src/lib/libgen/strecpy.c:47-94 | the loop writes the expansion and its NUL |
| CEscapes.TakeOne | usr/src/lib/libgen/strccpy.c:51-95 | one turn reads one character or escape, of at most three octal digits |
| CEscapes.StrCAdd | usr/src/lib/libgen/strccpy.c:41-100 | the loop writes the compressed string and its NUL |

## Left out

- RegexpCompile.Compile: does not cover back-references, a second range on one expression, a range on a group mark, or a pattern string that ends inside a class or an escape; `RegexpSyntax.Outside` is the test a caller can make on the text. An empty pattern, which keeps the previous code, is excluded as well.
- RegexpCompile.Compile: the buffer is one byte longer than `endbuf`, because the code tests for space once for each token and may store the second byte of a token at `endbuf`.
- RegexpCompile.ClassLoop: bytes are unsigned. Where `char` is signed, the code does not mask the character behind a hyphen before it is placed, and such a character would index before the bit map; that build is not modelled.
- RegexpCompile.ReadNumber: the number is unbounded while it is read; the code stops at values of 255 or more with an error, so only an overflow of `int` on very long digit strings is not modelled.
- RegexpAdvance.Matcher.Advance: `locs` is null, and the scanning loops, which are the same but for their test in every opcode, are written once over that test.
- RegexpAdvance.Matcher.TryDown: the same null `locs`.
- RegexpAdvance.Matcher.Step: the same null `locs`, and code without back-references.
- RegexpGrammar.ParseOfShow: patterns delimited by a character that is not special; `RegexpCompile.Compile` itself is proved for any delimiter.
- MintDiv.Mdiv: a zero divisor is excluded (the program aborts there); quotient and remainder are different objects.
- MintDiv.Sdiv: the divisor -32768, whose negation does not fit a `short`, is excluded.
- MintGcd.Invert: the operands are trimmed numbers, as all operations here leave them, the modulus is above 1 and x1 is not negative.
- The rest of `libmp` (conversion to and from text, powers, square roots), and releasing storage.
- Des.DesEncrypt1: the substitution tables are a parameter (any eight tables of 64 numbers); the theorems hold for the ones of the library and all others.
- The 25 passes and the output characters of `des_crypt`, and `des_decrypt1`, which is not part of this model.
- DeviceTable.ReadBack: a comment must end in a newline that is not escaped, as every comment the reader delivers does (`DeviceTable.CommentsComeBack`).
- DeviceTableWriter.PutRecord: an alias needs no escape, as no valid alias does; the size computed allows for none.
- DeviceTableWriter.DeviceSize: the length of a null field is taken as 0.
- DeviceTableFile.Table.ModDevTabRec: devices given by a path, which are looked up through the file system, are not modelled; the same holds for removal.
- DeviceTableFile.RunKept: for records that can be read back, as below.
- DeviceTableFile.EffectKept: for records that can be read back; what happens otherwise is `DeviceTableFile.EffectReadBack`.
- DeviceTableFile.Rewrite: tables edited by hand that hold entries the writer cannot write (a comment whose newline is missing, an alias with a character to escape) are excluded from modification and removal.
- Removing single attributes (`_rmdevtabattrs`), opening, locking and renaming the table file, and errors while doing so.
- DeviceLockRuns.Safety: for runs without exposed deaths and without calls that can pick one device for two lists; `DeviceLockScenarios` has a run from the empty table against each omission, and `DeviceLockDeaths.HeldTwiceIff` says what an exposed death does. Process numbers are not used again. A single write is done as a whole or not at all.
- DeviceLockRuns.StepKeeps: for the same fair events.
- DeviceLockRuns.RunKeeps: for the same fair runs.
- DeviceLockHistory.StepHistory: for keeping events, as below.
- DeviceLockHistory.TableTellsHistory: for keeping runs, as below.
- DeviceLockHistory.GrantedOnce: for keeping events and runs, which are exactly those fair ones that take no lock from a living key (`DeviceLockHistory.KeepingIff`); `DeviceLockScenarios.LostLock` is the run against the omission.
- DeviceLockTable.LockTable.DevReserv: which reservations are granted is stated for the whole call while the same processes live; with deaths in between it is stated turn by turn (`DeviceLockRuns.ReserveTurn`).
- DeviceLockTable.LockTable.IsLocked: aliases have at most 14 characters, the length up to which the code compares them.
- DeviceLockTable.LockTable.WriteLks: a write succeeds as a whole; the test of the second write in the code compares a negated value and would not notice a failure.
- The listing of reserved devices, and the global error number other than as an outcome.
- Calendars.Calendar.Verify: the time of day and daylight saving are not modelled; a day below the current one with neither month nor year given in December is excluded, because month 12 is used as an index then.
- Calendars.Calendar.SetCal: years are natural numbers, so years before the year 0 are not covered.
- Templates and locales of `getdate.c`, and the conversion of its result.
- The allocator around the free queue: block headers, busy flags, small blocks.
- Gmatch.GMatch: single-byte characters; the checks for multibyte ranges are left out.
- CEscapes.StrEAdd: bytes are unsigned. Where `char` is signed, a byte above 127 is widened with its sign and printed with more than three octal digits; that build is not modelled.
- CEscapes.StrCAdd: a string that ends in a lone backslash is excluded, because the code reads past its end.
- Failing allocations everywhere.
