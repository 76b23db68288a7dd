# Verification of the network examples

This project models the parts of the repository whose correctness is hard to see from reading the code, and proves
what they are meant to guarantee:

- **256-bit arithmetic and P-256 elliptic curves** (`Words`, `Vli`, `VliMult`, `VliReduce`, `Congruence`, `VliMod`,
  `VliModMult`, `Curves`, `Residues`, `Field`, `PointOps`, `Ladder`, `Shamir`, `Keys`, `Ecdsa`, `Ecdh`): the in-place
  digit arithmetic of the authorization plugin, from carries up to ECDSA and the shared secret. A big number is four
  64-bit digits in an array, least significant first, and `V()` is the number they spell; all operations work on
  windows of arrays, with the aliasing the callers use. Points have an independent affine definition, and the co-Z and
  Jacobian routines are proved to compute it.
- **JSON reader and writers** (`JsonText`, `JsonGrammar`, `JsonReader`, `JsonLayout`, `JsonUnicode`, `JsonSyntax`,
  `JsonLoose`, `JsonAccepts`, `JsonRoundTrip`, `JsonReads`, `JsonWriters`, `JsonStyled`): the reader as a class whose
  fields change step by step, proved equal to functions of the document; the texts it takes as trees, with the proof
  that it takes those documents and no others and gives each its meaning; the texts of RFC 8259 among them; the compact
  and the styled writer, with the layout line by line; and that a value comes back from its tokens in any layout, which
  covers what both writers print.
- **Thread pool** (`ThreadPool`): all interleavings of workers, posters and the destructor over one mutex and one
  condition variable with spurious wakeups.
- **Meeting rooms** (`Rooms`): the server's rooms, the events on their way to each client, and the clients' views.
- **King server** (`KingServer`, `EventLoop`): the blocking handler, and the event loop that reassembles messages from
  partial reads.

`Options` holds the one type they share.

## Hypotheses

Some facts are hypotheses of the lemmas and methods that need them, never axioms: that the modulus is prime
(`Curve.PrimeField`), that the points of the curve form an abelian group under the chord-and-tangent law
(`Curve.GroupLaw`; that the law stays on the curve is proved), that a point has the order n (`Ladder.HasOrder`), and
that every number between 0 and n is coprime to n (`Ecdsa.PrimeOrder`). The prime and the order themselves appear as
symbols, because the proofs need no more of them than their size and shape: `VliReduce.IsP256`, `Ecdsa.IsOrder` and
`Field.IsCoefficient` keep the numerals behind a quantifier that a proof opens by naming an index. One more condition
is about the operands of one call: that no step of the ladder before the last meets an exceptional case
(`Ladder.Workable`). For a point of odd order n it holds for every scalar below 2 n - 2 (`Ladder.OrderWorkable`), and
so for every 256-bit scalar (`Ecdsa.ScalarsBelowTwiceOrder`).

## Where the code differs from what one would expect

- `EccPoint_mult` starts at the prefix 1 and always consumes bit 0, so it computes 2P for the scalar 0 and 3P for the
  scalar 1. For a point with abscissa 0, which the curve has (`Ladder.AbscissaZero`), and for the scalars n - 1 and n
  the number it inverts is 0, and it returns (0, 0), which is not a point of the curve. So it does for an initial Z
  that is 0 modulo the prime. `Ladder.LadderValue` is what it returns for every scalar; for a point of odd order n and
  a scalar below 2 n - 2 that is the multiple if and only if the scalar is at least 2 and neither n - 1 nor n, and the
  abscissa is not 0 (`Ladder.OddOrderExact`).
- `ecc_make_key` therefore makes 2G and 3G of the private keys 0 and 1 (0 is what a random number equal to n becomes).
  The shared secret is the same for both parties all the same, as both make the same of such a key; a public key with
  abscissa 0 is refused by the other party (`Ecdh.SecretsAgree`).
- `ecdsa_sign` tests r for 0 and not s, so it returns s = 0 when e + r d is 0 modulo the order, and for the nonce n,
  which it reduces to 0 after the test for 0. `ecdsa_verify` refuses such signatures (`Ecdsa.RefusedSignature`), and
  every key has a hash for which they arise (`Ecdsa.RefusedHash`). For the nonce 1 it signs with the abscissa of 3G.
  The nonce n - 1 gives r = 0 and another attempt.
- `ecdsa_verify` refuses some valid signatures. Its additions do not cover equal abscissas: a round that meets one
  makes z 0, z stays 0, and the result is (0, 0). For the key 2G, the nonce 4 and the hash 2r it adds 2G to 2G
  (`Ecdsa.ValidRefused`). For a key that is neither the base point nor its mirror image it accepts exactly what the
  standard accepts without such a round (`Ecdsa.VerifiesExactly`), never more (`Ecdsa.VerifiesSoundly`), and
  `Shamir.ShamirSafeExactly` turns the rounds into congruences between the scalars and the private key.
  `Ecdsa.SignedIsAccepted` says for every nonce when a signature the plugin makes is accepted by it.
- For a key equal to the base point or its mirror image the last entry of the table is (0, 0) (`Shamir.SumTable`), and
  a valid signature is refused for the key G, the nonce 2 and the hash r (`Ecdsa.ValidRefusedBase`).
- `vli_modMult` writes the shifted modulus inside its eight digits exactly when the product is at most 256 bits longer
  than the modulus (`VliModMult.ShiftFits`). That holds for every modulus of full length, such as the order of the
  curve; `VliModMult.ShortModulus` gives operands for which it does not.
- An integer printed by the writers is read back as itself exactly in the ranges -9223372036854775799 to
  9223372036854775807 and 9223372036854775808 to 18446744073709551609; outside them the reader turns it into a double
  (`JsonRoundTrip.NumberReadsBack`, `JsonRoundTrip.AnyLayoutReadsBack`).
- `readArray` compares the kind of one token with two different kinds at once, so it never reports a missing comma: any
  token but the closing bracket separates elements (`JsonReads.ColonInArray`).
- The reader takes more than RFC 8259: comments wherever `JsonLoose.GoodLoose` allows them, any token after a comment
  behind a member, a closing brace after a separator if the name before it is empty, any run of number bytes, and
  anything at all after the root. The trees of `JsonLoose` say exactly what it takes (`JsonAccepts.AcceptedExactly`).
- The reader never reports an empty escape: a backslash always has a byte after it in a string token
  (`JsonReads.Faulty`).
- After a high surrogate the reader accepts any second unit (`JsonUnicode.SecondHalfUnchecked`) and refuses a literal
  that has none, which the grammar of RFC 8259 allows; a low surrogate on its own it accepts (`JsonUnicode.Contents`).
- A thread pool with no workers accepts tasks and never runs one (`ThreadPool.NoWorkersNoWork`), and its destructor
  returns with the posted tasks still queued (`ThreadPool.NoWorkersJoined`).

## Model

| member | source | states |
|---|---|---|
| Vli.Clear | 0.tools/three-widget/plugins/authorization.cpp:152-159 | afterwards the window spells 0 and nothing else has changed |
| Vli.IsZero | 0.tools/three-widget/plugins/authorization.cpp:162-173 | true exactly for the value 0 |
| Vli.TestBit | 0.tools/three-widget/plugins/authorization.cpp:176-179 | nonzero exactly if that binary digit of the value is 1 |
| Vli.NumDigits | 0.tools/three-widget/plugins/authorization.cpp:182-192 | all digits from the result on are 0, and the one below it is not |
| Vli.NumBits | 0.tools/three-widget/plugins/authorization.cpp:195-213 | the length of the value in binary |
| Vli.Set | 0.tools/three-widget/plugins/authorization.cpp:216-223 | copies a value, also onto itself, and changes nothing outside the window |
| Vli.Cmp | 0.tools/three-widget/plugins/authorization.cpp:226-241 | the sign of the difference of the two values, decided from the top digit down |
| Vli.LShift | 0.tools/three-widget/plugins/authorization.cpp:244-256 | result plus the bits shifted out make the value times a power of two |
| Vli.RShift1 | 0.tools/three-widget/plugins/authorization.cpp:259-271 | halves the value, rounding down, in place |
| Vli.Add | 0.tools/three-widget/plugins/authorization.cpp:274-288 | sum and carry together are exact, whichever operands share the result's digits |
| Vli.Sub | 0.tools/three-widget/plugins/authorization.cpp:291-307 | difference and borrow together are exact, whichever operands share the result's digits |
| VliMult.Mult | 0.tools/three-widget/plugins/authorization.cpp:310-333 | the eight digits spell the exact product: the column accumulator loses no carry |
| VliMult.Square | 0.tools/three-widget/plugins/authorization.cpp:336-362 | the eight digits spell the exact square: the doubled cross terms are all counted, so it agrees with the product of a number with itself |
| VliReduce.ShuffleIdentity | 0.tools/three-widget/plugins/authorization.cpp:562-620 | the nine word-shuffled terms (section D.2.3 of FIPS 186-4) combine to the 512-bit product modulo the prime |
| VliReduce.Shuffle | 0.tools/three-widget/plugins/authorization.cpp:562-620 | after all terms, value plus signed carry times 2^256 is congruent to the product |
| VliReduce.Correct | 0.tools/three-widget/plugins/authorization.cpp:622-635 | both correction loops end with carry 0 and a value below the prime, in the same residue class |
| VliReduce.MmodFast | 0.tools/three-widget/plugins/authorization.cpp:557-636 | the result is the product modulo the prime, for every 512-bit product |
| VliMod.ModAdd | 0.tools/three-widget/plugins/authorization.cpp:462-470 | the exact sum, less the modulus once if the sum reaches it, also when the addition overflows 256 bits |
| VliMod.ModSub | 0.tools/three-widget/plugins/authorization.cpp:473-483 | the exact difference, plus the modulus once if it is negative |
| VliMod.ModMultFast | 0.tools/three-widget/plugins/authorization.cpp:706-711 | the product modulo the prime |
| VliMod.ModSquareFast | 0.tools/three-widget/plugins/authorization.cpp:714-719 | the square modulo the prime |
| VliMod.HalveMod | 0.tools/three-widget/plugins/authorization.cpp:749-757 | half of the value, or of value plus modulus if odd, with the carry put back as the top bit |
| VliMod.HalveCofactor | 0.tools/three-widget/plugins/authorization.cpp:746-771 | halving a number and its cofactor keeps the number congruent to the cofactor times the input |
| VliMod.InvStep | 0.tools/three-widget/plugins/authorization.cpp:743-810 | one round keeps both congruences, the common divisors and the parities, and makes a + b smaller |
| VliMod.ModInv | 0.tools/three-widget/plugins/authorization.cpp:725-813 | ends for every odd modulus; 0 for 0, and otherwise result times input is congruent to their greatest common divisor |
| VliModMult.WideSub | 0.tools/three-widget/plugins/authorization.cpp:1187-1191 | subtracting in two halves, with the borrow taken from the upper one, subtracts the 512-bit number |
| VliModMult.WideHalve | 0.tools/three-widget/plugins/authorization.cpp:1193-1196 | halves a 512-bit number across its two halves |
| VliModMult.ShiftedModulus | 0.tools/three-widget/plugins/authorization.cpp:1164-1177 | if the index of the highest digit written is inside the buffer, the buffer holds the modulus times the power of two |
| VliModMult.ReduceRound | 0.tools/three-widget/plugins/authorization.cpp:1184-1198 | one round keeps the residue and the bound of twice the next multiple |
| VliModMult.ReduceLoop | 0.tools/three-widget/plugins/authorization.cpp:1182-1199 | ends with the residue class of the product and a value below the modulus |
| VliModMult.ModMult | 0.tools/three-widget/plugins/authorization.cpp:1139-1201 | the exact remainder of the product, for every nonzero modulus for which the shifted modulus fits |
| VliModMult.ShiftFits | 0.tools/three-widget/plugins/authorization.cpp:1168-1177 | that index is inside the buffer if and only if the shift is at most 256 bits |
| VliModMult.ShortModulus | 0.tools/three-widget/plugins/authorization.cpp:1147-1167 | the square of any number of 256 bits modulo 1 needs a longer shift |
| Curves.Curve.AddOnCurve | 0.tools/three-widget/plugins/authorization.cpp:828-971 | the chord-and-tangent sum of two points of the curve is on the curve |
| Curves.Curve.NegOnCurve | 0.tools/three-widget/plugins/authorization.cpp:936-971 | so is the mirror image of a point |
| Curves.Curve.AddMeaning | 0.tools/three-widget/plugins/authorization.cpp:913-934 | for P and Q over one Z with different abscissas the formulas give P and P + Q over Z times the difference |
| Curves.Curve.SubMeaning | 0.tools/three-widget/plugins/authorization.cpp:940-971 | the conjugate formulas give P - Q over the same new Z |
| Curves.Curve.DoubleMeaning | 0.tools/three-widget/plugins/authorization.cpp:828-874 | the doubling formulas give the tangent doubling for a = -3, in Jacobian coordinates |
| Curves.Curve.Rescale | 0.tools/three-widget/plugins/authorization.cpp:877-885 | multiplying by the square and cube of a number changes Z and not the point |
| Curves.Curve.Normalize | 0.tools/three-widget/plugins/authorization.cpp:1006-1011 | scaling by the inverse of Z gives the affine coordinates of the point |
| Curves.Curve.TimesSum | 0.tools/three-widget/plugins/authorization.cpp:973-1012 | multiples of a point add like their scalars |
| Curves.Curve.LadderDifference | 0.tools/three-widget/plugins/authorization.cpp:987-996 | the two points of the ladder always differ by the base point |
| Curves.Curve.SafeStep | 0.tools/three-widget/plugins/authorization.cpp:987-992 | without exceptional points every addition of a ladder step is of points with different abscissas |
| PointOps.XYcZAdd | 0.tools/three-widget/plugins/authorization.cpp:913-934 | in place: the first point rescaled and the sum, as residues of the co-Z formulas |
| PointOps.XYcZAddC | 0.tools/three-widget/plugins/authorization.cpp:940-971 | in place: difference and sum over the same new Z, as residues of the co-Z formulas |
| PointOps.EccPointDoubleJacobian | 0.tools/three-widget/plugins/authorization.cpp:828-874 | in place: the Jacobian double, for a reduced Z or not; a point with Z zero stays |
| PointOps.ApplyZ | 0.tools/three-widget/plugins/authorization.cpp:877-885 | x times Z squared and y times Z cubed |
| Field.FHalve | 0.tools/three-widget/plugins/authorization.cpp:852-861 | twice the result is the argument modulo the prime |
| Ladder.XYcZInitialDouble | 0.tools/three-widget/plugins/authorization.cpp:888-907 | two points over one Z, the double of the given point and that point, for every initial Z, reduced or not; one that is 0 modulo the prime leaves four zeros |
| Ladder.Round | 0.tools/three-widget/plugins/authorization.cpp:987-992 | one iteration turns (mP, (m+1)P) into the pair of the next prefix, over a common Z; four zeros stay zeros |
| Ladder.Rounds | 0.tools/three-widget/plugins/authorization.cpp:987-992 | after all bits but the last the pair belongs to the scalar without its last bit, or is four zeros still |
| Ladder.FinalZ | 0.tools/three-widget/plugins/authorization.cpp:997-1004 | the z computed is the inverse of the last common Z, for both values of the last bit, and 0 if the abscissa of the base point or the ordinate it divides by is 0 |
| Ladder.EccPointMult | 0.tools/three-widget/plugins/authorization.cpp:973-1012 | for every scalar whose prefixes but the longest are not exceptional the result is LadderValue: the multiple by the scalar (by 2 for 0, by 3 for 1), or (0, 0) if the last two points are opposite or the abscissa is 0; for an initial Z that is 0 modulo the prime it is (0, 0) |
| Ladder.OrderIsSafe | 0.tools/three-widget/plugins/authorization.cpp:973-1012 | for a point of odd order n no scalar from 2 to n - 2 has an exceptional prefix |
| Ladder.OrderWorkable | 0.tools/three-widget/plugins/authorization.cpp:973-1012 | for a point of odd order n the routine can be used with every scalar below 2 n - 2 |
| Ladder.LadderValueExact | 0.tools/three-widget/plugins/authorization.cpp:973-1012 | without exceptional prefixes the result is k P if and only if k is at least 2 and the abscissa of P is not 0; for abscissa 0 it is (0, 0) |
| Ladder.OddOrderExact | 0.tools/three-widget/plugins/authorization.cpp:973-1012 | for a point of odd order n and k below 2 n - 2 the result is k P if and only if k is at least 2 and neither n - 1 nor n, and the abscissa is not 0; it is (0, 0) for n - 1, n and abscissa 0 |
| Ecdsa.ScalarsBelowTwiceOrder | 0.tools/three-widget/plugins/authorization.cpp:1126-1133 | every 256-bit number is below 2 n - 2 for the order of the curve |
| Ladder.AbscissaZero | 0.tools/three-widget/plugins/authorization.cpp:1000-1004 | the curve P-256 has a point with abscissa 0 |
| Residues.Fermat | 0.tools/three-widget/plugins/authorization.cpp:1043-1061 | the power p - 1 of a nonzero element is 1, from the invertibility of nonzero elements alone |
| Residues.SqrtExactly | 0.tools/three-widget/plugins/authorization.cpp:1043-1061 | for a prime that is 3 modulo 4, a^((p+1)/4) is a square root of a if and only if a is a square |
| Keys.Bytes2Native | 0.tools/three-widget/plugins/authorization.cpp:1014-1023 | the digits spell the big-endian number of the 32 octets (section 2.3.8 of SEC 1) |
| Keys.Native2Bytes | 0.tools/three-widget/plugins/authorization.cpp:1025-1040 | the 32 octets spell the number (section 2.3.7 of SEC 1), and no other octet changes |
| Keys.ModSqrt | 0.tools/three-widget/plugins/authorization.cpp:1043-1061 | the bit loop computes a^((p+1)/4) modulo the prime |
| Keys.CubicOf | 0.tools/three-widget/plugins/authorization.cpp:1065-1071 | x^3 - 3x + b modulo the prime |
| Keys.EccPointDecompress | 0.tools/three-widget/plugins/authorization.cpp:1063-1079 | over a prime field the result is on the curve if and only if the curve has a point with that abscissa, a zero cubic included, and the parity is always the one asked for, where y is the prime itself if the root is 0 and odd is asked for (section 2.3.4 of SEC 1) |
| Ecdsa.MulOrder | 0.tools/three-widget/plugins/authorization.cpp:1139-1201 | multiplication modulo the order of the curve, for which the shifted modulus always fits |
| Ecdsa.SignScalar | 0.tools/three-widget/plugins/authorization.cpp:1244-1249 | s k is congruent to e + r d modulo the order, also for a hash e that is not reduced; s is 0 for the nonce 0 |
| Ecdsa.Abscissa | 0.tools/three-widget/plugins/authorization.cpp:1232-1239 | r is the abscissa, modulo the order, of what EccPoint_mult gives for the nonce, for every nonce below the order |
| Ecdsa.EcdsaSign | 0.tools/three-widget/plugins/authorization.cpp:1221-1252 | one attempt with any nonce but 0: r is the abscissa of what EccPoint_mult gives for the nonce modulo the order, the attempt fails exactly if r is 0, and otherwise s satisfies the signing equation and is 0 exactly if e + r d is, or the nonce is 0 modulo the order |
| Ecdsa.ZeroSignature | 0.tools/three-widget/plugins/authorization.cpp:1244-1249 | s is 0 if and only if e + r d is 0 modulo the order |
| Ecdsa.VerifyScalars | 0.tools/three-widget/plugins/authorization.cpp:1282-1286 | u1 and u2 are e and r divided by s modulo the order |
| Ecdsa.NonceRecovered | 0.tools/three-widget/plugins/authorization.cpp:1208-1336 | the scalars of verification recombine to the nonce: u1 + u2 d is congruent to k |
| Shamir.SumTable | 0.tools/three-widget/plugins/authorization.cpp:1288-1299 | for any two points with reduced coordinates the table holds G, Q and the affine coordinates of G + Q, or (0, 0) in place of the sum if G and Q have one abscissa |
| Shamir.ShamirRound | 0.tools/three-widget/plugins/authorization.cpp:1309-1324 | one round doubles and adds the table entry of its bits; doubling a point that is its own mirror image, and adding a point with the same abscissa, makes z 0, which it then stays |
| Shamir.ShamirMult | 0.tools/three-widget/plugins/authorization.cpp:1298-1327 | for any scalars and any table, the affine coordinates of the value of all rounds, or (0, 0) once a round has made z 0 |
| Shamir.ShamirValueExactly | 0.tools/three-widget/plugins/authorization.cpp:1298-1327 | that value is u1 G + u2 Q if no round is exceptional and nothing otherwise, for points whose sum is in the table or not needed |
| Shamir.ShamirSafeExactly | 0.tools/three-widget/plugins/authorization.cpp:1298-1327 | for a key d G of odd order n, no round of the loop is exceptional if and only if no bit needs the sum when d is 1 or -1, and for every prefix a + b d is not 0 and the point added is neither the double nor its opposite, all modulo n |
| Ecdsa.ReduceAbscissa | 0.tools/three-widget/plugins/authorization.cpp:1329-1333 | one subtraction reduces a field element modulo the order |
| Ecdsa.EcdsaVerify | 0.tools/three-widget/plugins/authorization.cpp:1255-1336 | for any hash, r, s and key with reduced coordinates: accepts if and only if r and s are in range and the abscissa of the value of the loop for u1 and u2 is r modulo the order |
| Ecdsa.VerifiesExactly | 0.tools/three-widget/plugins/authorization.cpp:1255-1336 | it accepts if and only if the standard does (section 6.4 of FIPS 186-4) and no round of the loop is exceptional, unless a bit needs the sum of two points with one abscissa |
| Ecdsa.VerifiesSoundly | 0.tools/three-widget/plugins/authorization.cpp:1255-1336 | for a key that is neither the base point nor its mirror image, whatever it accepts the standard accepts |
| Ecdsa.SignedIsAccepted | 0.tools/three-widget/plugins/authorization.cpp:1208-1336 | for every hash: ecdsa_verify accepts a signature made with a nonce from 2 to n - 2 under the key d G if and only if e + r d is not 0 modulo n and the loop for its scalars meets no exceptional round; with the nonce 1 only if, besides, G and 3G have abscissas of the same residue; n - 1 makes none |
| Ecdsa.SignedIsValid | 0.tools/three-widget/plugins/authorization.cpp:1208-1252 | the same for the condition of the standard (section 6.4 of FIPS 186-4), where no round matters |
| Ecdsa.ValidRefused | 0.tools/three-widget/plugins/authorization.cpp:1309-1335 | for the key 2G, the nonce 4 and the hash 2r signing gives s = r, the standard accepts it, and ecdsa_verify refuses it |
| Ecdsa.ValidRefusedBase | 0.tools/three-widget/plugins/authorization.cpp:1288-1335 | so it does for the key G, the nonce 2 and the hash r |
| Ecdsa.AcceptedExactly | 0.tools/three-widget/plugins/authorization.cpp:1255-1336 | the condition of the standard: whatever satisfies the signing equation for a nonce meets it if and only if e + r d is not 0 and r is the abscissa of k G modulo n |
| Ecdsa.RefusedSignature | 0.tools/three-widget/plugins/authorization.cpp:1244-1273 | for e + r d = 0 modulo n, and for the nonce n, signing yields s = 0, which verification refuses |
| Ecdsa.RefusedHash | 0.tools/three-widget/plugins/authorization.cpp:1245-1247 | for every r and every key there is a hash with e + r d = 0 modulo n |
| Ecdh.EccMakeKey | 0.tools/three-widget/plugins/authorization.cpp:1081-1112 | one attempt with any random number but 0: the private key is it modulo the order, the public key is the parity and abscissa of what EccPoint_mult makes of it, and the attempt fails exactly if that is (0, 0) |
| Ecdh.DecompressUnique | 0.tools/three-widget/plugins/authorization.cpp:1063-1079 | the ordinate is the only one with its parity, so decompressing a public key gives back the point it was made of |
| Ecdh.EcdhSharedSecret | 0.tools/three-widget/plugins/authorization.cpp:1114-1135 | for every 256-bit private key, every public key that names a point of the order, and any random bits: the secret is the abscissa of what EccPoint_mult gives, refused exactly if that is (0, 0) |
| Ecdh.OrderOfMultiple | 0.tools/three-widget/plugins/authorization.cpp:1104-1126 | a multiple of the base point by 1 to n - 1 has the order n itself, so a public key can be multiplied like the base point |
| Ecdh.SecretsAgree | 0.tools/three-widget/plugins/authorization.cpp:1081-1135 | for any two key pairs that key generation makes, both parties get the same point of the curve if neither public key has abscissa 0, and they agree if and only if both keys have it or neither does |
| Ecdh.KeyPairSigns | 0.tools/three-widget/plugins/authorization.cpp:1081-1336 | for every key pair made of a private key from 2 on and every signature it makes with a nonce from 2 on: ecdsa_verify accepts it if and only if e + r d is not 0 modulo n and the loop for its scalars meets no exceptional round |
| JsonText.PutLookup | 0.tools/JsonCpp/json/json_value.cpp:1014-1041 | assignment through operator[] keeps names sorted and changes the value of that name only |
| JsonText.LessExactly | 0.tools/JsonCpp/json/json_value.cpp:217-223 | names are ordered by the first byte in which they differ, and a prefix comes before what it is a prefix of |
| JsonText.UintToString | 0.tools/JsonCpp/json/json_writer.cpp:30-40 | filled backwards, the buffer holds the decimal digits and a terminator between the returned position and the end, and is unchanged elsewhere |
| JsonText.IntToString | 0.tools/JsonCpp/json/json_writer.cpp:42-55 | the decimal text of every signed 64-bit integer |
| JsonText.UIntToString | 0.tools/JsonCpp/json/json_writer.cpp:57-66 | the decimal text of every unsigned 64-bit integer |
| JsonText.ValueToQuotedString | 0.tools/JsonCpp/json/json_writer.cpp:113-174 | the short cut for strings without special characters and the escaping loop give the same quoted form, of what comes before the first NUL |
| JsonGrammar.NextToken | 0.tools/JsonCpp/json/json_reader.cpp:274-345 | every token lies inside the document and takes up at least a byte unless it is the end of the stream; a string token has both its quotes |
| JsonGrammar.ReadValue | 0.tools/JsonCpp/json/json_reader.cpp:194-242 | reading any bytes ends inside the document; success moves on and reports nothing, failure reports exactly one error |
| JsonGrammar.ReadElements | 0.tools/JsonCpp/json/json_reader.cpp:552-577 | the same for the rest of an array, including what recovery skips |
| JsonGrammar.ReadMembers | 0.tools/JsonCpp/json/json_reader.cpp:483-536 | the same for the rest of an object |
| JsonReader.Reader.ReadToken | 0.tools/JsonCpp/json/json_reader.cpp:274-345 | the token that the grammar gives at the position, white space skipped, with the position moved to its end and nothing else changed |
| JsonReader.Reader.MatchRest | 0.tools/JsonCpp/json/json_reader.cpp:362-375 | comparing from the back moves on exactly if the pattern is there |
| JsonReader.Reader.ReadString | 0.tools/JsonCpp/json/json_reader.cpp:463-476 | stops after the first quote that no backslash precedes |
| JsonReader.Reader.SkipCommentTokens | 0.tools/JsonCpp/json/json_reader.cpp:245-260 | passes over comments only where they are allowed |
| JsonReader.Reader.RecoverFromError | 0.tools/JsonCpp/json/json_reader.cpp:773-787 | ends after the first token of the kind or at the end of the stream, keeping the errors of before |
| JsonReader.Reader.DecodeNumber | 0.tools/JsonCpp/json/json_reader.cpp:581-616 | leaves in the current node the integer or double a number token stands for, or one error |
| JsonReader.Reader.DecodeInto | 0.tools/JsonCpp/json/json_reader.cpp:657-701 | the contents of the literal with its escapes replaced, or the error of the first bad escape with its place |
| JsonReader.Reader.DecodeUnicodeCodePoint | 0.tools/JsonCpp/json/json_reader.cpp:703-731 | one unit, or a high surrogate combined with the unit after it, or the error of the part that is missing |
| JsonReader.Reader.ReadNode | 0.tools/JsonCpp/json/json_reader.cpp:194-242 | position, current node and errors become those of the specified outcome, and the nodes below are untouched |
| JsonReader.Reader.ReadObject | 0.tools/JsonCpp/json/json_reader.cpp:479-536 | the same for objects: the stack of nodes has its old depth after every exit, recovery included |
| JsonReader.Reader.ReadArray | 0.tools/JsonCpp/json/json_reader.cpp:538-578 | the same for arrays |
| JsonReader.Reader.Parse | 0.tools/JsonCpp/json/json_reader.cpp:150-191 | leaves one node with the value, the errors and the result of the specified parse |
| JsonReads.ParseIsSound | 0.tools/JsonCpp/json/json_reader.cpp:150-191 | for any bytes: parsing ends inside the document, succeeds if and only if no error is reported, leaves sorted members, C strings and integers in the readable range at every depth, also after an error, and every error is true of the token it names: what the token is not, which number the C library refuses, or the place and the reason of the first bad escape |
| JsonReads.NumbersReadable | 0.tools/JsonCpp/json/json_reader.cpp:593-616 | no integer outside the readable range is ever produced |
| JsonReads.ColonInArray | 0.tools/JsonCpp/json/json_reader.cpp:565-574 | an array with a colon for a comma is read without an error, whatever follows it |
| JsonLoose.CommentEnds | 0.tools/JsonCpp/json/json_reader.cpp:425-435 | a C comment ends after the first closing pair; without one it is refused and takes up the rest of the document |
| JsonLoose.LineCommentEnds | 0.tools/JsonCpp/json/json_reader.cpp:438-448 | any other comment ends with the first carriage return or line feed, or with the document |
| JsonLoose.LooseNumberRead | 0.tools/JsonCpp/json/json_reader.cpp:451-461 | every run of number bytes is read as the integer its digits spell, leading zeros or no digits at all included, if it has only digits after a minus sign or none and that is below the bound, and otherwise as what the C library makes of it |
| JsonAccepts.LiteralTaken | 0.tools/JsonCpp/json/json_reader.cpp:657-731 | a string token that can be decoded is a literal made of bytes, short escapes and units of four digits, with no high surrogate on its own, and its contents are what was decoded |
| JsonAccepts.ReadLoose | 0.tools/JsonCpp/json/json_reader.cpp:194-577 | a text of the language the reader takes, anywhere in a document, is read as what it means or refused if it means nothing, and reading stops where its tokens end |
| JsonAccepts.AcceptedExactly | 0.tools/JsonCpp/json/json_reader.cpp:150-191 | parsing any bytes succeeds if and only if the document starts with the tokens of a text of that language that has a meaning (and is a container or null where that is required); a missing colon, comma, brace or name, a bad escape and a token that starts no value therefore fail |
| JsonAccepts.StartIsRead | 0.tools/JsonCpp/json/json_reader.cpp:150-191 | for every such text the document starts with, parsing succeeds if and only if it has a meaning, and gives that meaning |
| JsonAccepts.PastLaid | 0.tools/JsonCpp/json/json_reader.cpp:348-359 | the bytes those tokens come from are the tokens themselves with only white space before and between them |
| JsonReads.ReparseStable | 0.tools/JsonCpp/json/json_reader.cpp:150-191 | whatever was read without an error and holds no double comes back unchanged when printed and parsed again |
| JsonSyntax.AccumulateDigits | 0.tools/JsonCpp/json/json_reader.cpp:593-607 | reading a number's own digits gives the number if and only if its leading part is below the threshold |
| JsonSyntax.ByteClasses | 0.tools/JsonCpp/json/json_reader.cpp:274-359 | white space, digits, number bytes and punctuation as sets of characters |
| JsonSyntax.NumeralRead | 0.tools/JsonCpp/json/json_reader.cpp:581-616 | every number of RFC 8259 (section 6) is read as the integer it writes if it has neither fraction nor exponent and is below the bound, and as what the C library makes of its text otherwise |
| JsonSyntax.LastFieldCounts | 0.tools/JsonCpp/json/json_reader.cpp:483-536 | an object has its members in the order of their names, one for each name its fields have, with the value of the last field of that name |
| JsonRoundTrip.NumberReadsBack | 0.tools/JsonCpp/json/json_reader.cpp:581-616 | a 64-bit integer comes back as itself if and only if it is in the readable range of its type |
| JsonUnicode.LiteralReads | 0.tools/JsonCpp/json/json_reader.cpp:463-476 | for every literal of RFC 8259 (section 7) the tokeniser stops exactly at the closing quote, and decoding gives its contents, or fails if a high surrogate has no second unit |
| JsonRoundTrip.QuoteReadsBack | 0.tools/JsonCpp/json/json_writer.cpp:113-174 | the quoted form of any C string, whatever follows it, is one token with that string as its contents |
| JsonRoundTrip.TextIsRead | 0.tools/JsonCpp/json/json_reader.cpp:150-191 | parsing a document that is a text of RFC 8259, with any white space, any spelling of its strings and numbers, and fields in any order and any number of times, succeeds if and only if the text has a value (and is a container where that is required), and gives that value |
| JsonRoundTrip.AnyLayoutReadsBack | 0.tools/JsonCpp/json/json_reader.cpp:150-191 | parsing a document that holds the tokens of a value, in whatever layout, gives the value back if and only if all its integers are in the readable range (and the root is a container where that is required) |
| JsonRoundTrip.RoundTrip | 0.tools/JsonCpp/json/json_writer.cpp:199-265 | for every value without doubles, parsing what the compact writer prints, in both its forms, succeeds with the same value if and only if all its integers are in the readable range (and the root is a container where that is required) |
| JsonUnicode.Utf8Front | 0.tools/JsonCpp/json/json_reader.cpp:69-103 | the bytes made for a code point start a well-formed text if and only if it is not a surrogate, and spell it (section 3 of RFC 3629) |
| JsonUnicode.Utf8RoundTrip | 0.tools/JsonCpp/json/json_reader.cpp:69-103 | decoding the UTF-8 of any characters gives them back |
| JsonUnicode.SecondHalfUnchecked | 0.tools/JsonCpp/json/json_reader.cpp:703-731 | after a high surrogate any unit is taken as the second half, by its lowest ten bits |
| JsonUnicode.ShortEscapeTable | 0.tools/JsonCpp/json/json_reader.cpp:673-682 | the eight short escapes and their characters |
| JsonUnicode.HexValueTable | 0.tools/JsonCpp/json/json_reader.cpp:741-754 | the hexadecimal digits of either case and their values |
| JsonUnicode.ShortestEscape | 0.tools/JsonCpp/json/json_writer.cpp:129-168 | a byte that has a short escape other than that of the slash is written with it, another control character with a long one, and every other byte as it is |
| JsonUnicode.UnpairedFails | 0.tools/JsonCpp/json/json_reader.cpp:703-731 | a high surrogate that no unit follows makes decoding fail |
| JsonUnicode.CharactersReadBack | 0.tools/JsonCpp/json/json_reader.cpp:703-756 | a literal that spells any characters, each as UTF-8, as a short escape or by hexadecimal digits of either case, with surrogate pairs, is one token whose contents decode to exactly those characters |
| JsonWriters.FastWriter.Write | 0.tools/JsonCpp/json/json_writer.cpp:199-265 | the document is the compact text of the value and a line feed |
| JsonWriters.StripConcat | 0.tools/JsonCpp/json/json_writer.cpp:278-483 | removing layout from a text can be done piece by piece, if it is known whether a piece starts inside a literal |
| JsonWriters.QuoteCore | 0.tools/JsonCpp/json/json_writer.cpp:113-174 | a quoted string has no layout of its own and ends outside its literal |
| JsonLayout.FastLaid | 0.tools/JsonCpp/json/json_writer.cpp:209-265 | the compact text holds exactly the tokens of the value, in order, with the space of the YAML form as its only layout |
| JsonWriters.LaidCore | 0.tools/JsonCpp/json/json_writer.cpp:278-483 | a text that holds tokens with white space between them is, layout apart, those tokens one after the other |
| JsonWriters.FastFlatten | 0.tools/JsonCpp/json/json_writer.cpp:209-265 | the compact text is the tokens one after the other, with a space after each colon in the YAML form and nothing else added |
| JsonWriters.CompactCore | 0.tools/JsonCpp/json/json_writer.cpp:199-265 | what the compact writer prints in either form is, layout apart, the compact text without the YAML space |
| JsonStyled.StyledWriter.WriteIndent | 0.tools/JsonCpp/json/json_writer.cpp:447-459 | adds nothing after a space, and otherwise the indentation, on a new line unless one has just begun |
| JsonStyled.StyledWriter.IsMultilineArray | 0.tools/JsonCpp/json/json_writer.cpp:406-434 | a single line is chosen if and only if three times the size is below 74, all elements are scalars or empty containers, and the brackets, separators and element texts together take fewer than 74 bytes; then the texts of all elements have been collected |
| JsonStyled.StyledWriter.WriteArrayValue | 0.tools/JsonCpp/json/json_writer.cpp:353-403 | in either layout the document grows by the text of the array at its depth, and the indentation is restored |
| JsonStyled.StyledWriter.WriteValue | 0.tools/JsonCpp/json/json_writer.cpp:292-350 | while texts are collected only scalars and empty containers are written, and nothing reaches the document; otherwise it grows by the text of the value at its depth |
| JsonStyled.StyledWriter.Write | 0.tools/JsonCpp/json/json_writer.cpp:278-289 | the styled text is the lines of the value, each after three spaces for every container it stands in; it holds exactly the tokens of the value, so without layout it is the compact text, and parsing it gives the value back if and only if all its integers are in the readable range (and the root is a container where that is required) |
| JsonStyled.StyledLines | 0.tools/JsonCpp/json/json_writer.cpp:292-403 | at every depth the lines of a value, one for each bracket of a container that takes several lines and each value on a line of its own, are its text with a line feed and the margin of the depth at each break |
| JsonStyled.LinesNested | 0.tools/JsonCpp/json/json_writer.cpp:447-483 | every line stands as deep as brackets have been opened and not closed on the lines before, a closing one counted; no line is empty, starts with white space or holds a line feed |
| JsonStyled.OneLineExactly | 0.tools/JsonCpp/json/json_writer.cpp:406-434 | a value takes one line if and only if it is a scalar, an empty container, or an array of such values, three times whose number is below 74, whose line is shorter than 74 bytes |
| JsonStyled.ElementsStandFirst | 0.tools/JsonCpp/json/json_writer.cpp:362-391 | in the lines of an array that takes several, the brackets stand on the first and the last line, and each element first on a line of its own between them, one level deeper and in order |
| JsonStyled.MembersStandFirst | 0.tools/JsonCpp/json/json_writer.cpp:318-347 | the same for the members of an object, each with its name first on its line |
| JsonStyled.MarginOfThree | 0.tools/JsonCpp/json/json_writer.cpp:469-480 | the margin of a line is three spaces for each level |
| JsonStyled.StyledShows | 0.tools/JsonCpp/json/json_writer.cpp:292-403 | the styled text of a value holds exactly its tokens, in order |
| ThreadPool.StepKeepsInv | 2.thread-poll/thread-pool.cpp:18-52 | every step of every thread keeps the invariant |
| ThreadPool.Conservation | 2.thread-poll/thread-pool.cpp:18-42 | in every reachable state the posted tasks are the taken ones followed by the queued ones, and each taken task is finished or running on exactly one worker |
| ThreadPool.FirstInFirstOut | 2.thread-poll/thread-pool.cpp:24-33 | the task taken next is the oldest queued one, and was never taken before |
| ThreadPool.JoinedMeansDone | 2.thread-poll/thread-pool.cpp:44-52 | when all workers have exited the queue is empty and exactly the posted tasks have finished, those posted by tasks included |
| ThreadPool.PostsConserved | 2.thread-poll/thread-pool.cpp:24-42 | after any run, for every task: as often as it was posted or is still held by a poster or a running task, so often it stands in the lists of the posters at the start and of the tasks taken so far |
| ThreadPool.EverythingPosted | 2.thread-poll/thread-pool.cpp:36-52 | when all workers have exited, the posted tasks are those of the posters and of the posted tasks themselves, each as often as it stands there, and all have finished |
| ThreadPool.PostsFinish | 2.thread-poll/thread-pool.cpp:36-52 | then every task that a finished task posts has been posted and finished |
| ThreadPool.PostedInOrder | 2.thread-poll/thread-pool.cpp:36-42 | along any run what a poster or a task has posted is the first part of its list, in order, and all of it once the task has finished |
| ThreadPool.NoWorkersNoWork | 2.thread-poll/thread-pool.cpp:18-42 | in every reachable state of a pool without workers no task has been taken or finished and all posted tasks are queued |
| ThreadPool.NoWorkersJoined | 2.thread-poll/thread-pool.cpp:36-52 | the destructor of such a pool does return with a posted task queued |
| ThreadPool.DoneIfWorkers | 2.thread-poll/thread-pool.cpp:18-52 | when all workers have exited, every posted task has finished if and only if the pool has a worker or nothing was posted |
| ThreadPool.NoLostWakeup | 2.thread-poll/thread-pool.cpp:25-42 | while somebody sleeps, the queued tasks are no more than the threads awake that will attend to them |
| ThreadPool.NeverStuck | 2.thread-poll/thread-pool.cpp:25-52 | until the destructor has returned some thread can move without a spurious wakeup |
| ThreadPool.ShutdownProgress | 2.thread-poll/thread-pool.cpp:44-52 | after notify_all nobody sleeps again and every step leaves less to do |
| ThreadPool.ShutdownBounded | 2.thread-poll/thread-pool.cpp:44-52 | from then on every run has at most as many steps as there is work left |
| ThreadPool.DestructorReturns | 2.thread-poll/thread-pool.cpp:44-52 | a run that cannot be extended ends with the destructor returned, all workers gone and all tasks finished |
| Rooms.Client.OnUserJoined | 14.video-meeting/web/www/js/meeting.js:166-194 | a known user is ignored; a new one is added with its producers and counted |
| Rooms.Client.OnUserLeft | 14.video-meeting/web/www/js/meeting.js:196-207 | removes and uncounts a user that must be known |
| Rooms.Client.OnUserProduced | 14.video-meeting/web/www/js/meeting.js:210-239 | sets one producer of a known user other than oneself |
| Rooms.RoomsService.JoinRoom | 14.video-meeting/services/rooms/main.js:47-83 | the room gains the user, everybody in it is sent the arrival, and the newcomer is sent the others after its own |
| Rooms.RoomsService.OnProduce | 14.video-meeting/services/rooms/main.js:85-103 | the producer is stored and sent to the whole room; nothing changes for an unknown user |
| Rooms.ProduceStores | 14.video-meeting/services/rooms/main.js:98-102 | after a connected user produces a kind, the field of that kind is the id, null included, the two others and its server are as before, and so are all other users |
| Rooms.LastProduced | 14.video-meeting/services/rooms/main.js:85-106 | in every reachable state the room holds for each connected user and each kind the id it last produced since it joined, and so does the view of every other client in the room that has no event pending |
| Rooms.ServersTakeTurns | 14.video-meeting/services/rooms/main.js:53-63 | the n-th user to join is given server n modulo the number of servers, which is a server |
| Rooms.RoomsService.OnDisconnect | 14.video-meeting/services/rooms/main.js:29-37 | the user leaves its room and the others are told |
| Rooms.StepKeepsInv | 14.video-meeting/services/rooms/main.js:28-106 | joining, producing, disconnecting and delivering an event keep rooms, connections and pending events in step |
| Rooms.ViewsConverge | 14.video-meeting/services/rooms/main.js:28-106 | in every reachable state the rooms hold exactly the connected users, and a client's pending events turn its view into the members of its room with the others' producers; with none pending it is that view |
| Rooms.NoUnknownUser | 14.video-meeting/web/www/js/meeting.js:166-239 | no client ever handles a leave or a produce for a user it does not know |
| KingServer.StoreStep | 4.epoll-and-boost-async-io/run-king-server/server-of-basic.h:42-43 | storing keeps the status ordered by name and changes the steps of that name only |
| KingServer.RunCountsStep | 4.epoll-and-boost-async-io/run-king-server/server-of-basic.h:39-45 | for the one name of at most 24 bytes without a NUL that stands in the message from byte 4 on, the steps are set to the message's plus one modulo 2^32; no other name changes, the message is sent back with that number and otherwise unchanged, and the connection ends |
| KingServer.OneName | 4.epoll-and-boost-async-io/run-king-server/server-of-basic.h:42-44 | exactly one such name stands in every message |
| KingServer.OtherListsStatus | 4.epoll-and-boost-async-io/run-king-server/server-of-basic.h:46-62 | any other message changes nothing; it is answered with the number of names and then names in order with their steps, up to the send that fails, and the connection ends if and only if one does |
| KingServer.NameListed | 4.epoll-and-boost-async-io/run-king-server/server-of-basic.h:55-62 | if no send fails every name is listed with its steps |
| EventLoop.Server.Handle | 4.epoll-and-boost-async-io/run-king-server/server-of-epoll.h:40-61 | the status, the replies sent before a send fails and the end of the connection are those of the atomic handler |
| EventLoop.Server.Task | 4.epoll-and-boost-async-io/run-king-server/server-of-epoll.h:28-66 | one ready descriptor: its entry, the status and the replies become those of the next state, and it asks to be closed exactly if the connection ends |
| EventLoop.Server.Serve | 4.epoll-and-boost-async-io/run-king-server/server-of-epoll.h:93-124 | serving any events gives the state of that run |
| EventLoop.Reassembly | 4.epoll-and-boost-async-io/run-king-server/server-of-epoll.h:28-66 | for any cutting and interleaving of reads, the messages handled for a connection are the 32-byte blocks of its own bytes, its entry holds exactly the rest, a closed descriptor has no entry, and the descriptor count is right |
| EventLoop.LoopRefines | 4.epoll-and-boost-async-io/run-king-server/server-of-basic.h:30-68 | every run of the event loop is a run of the blocking server with the same replies, status and connections, each message handled at once |

## Left out

- The other curves (secp128r1, secp192r1, secp384r1) and the multiplication without 128-bit integers: the plugin is
  built for secp256r1 and a compiler that has them.
- `getRandomNumber` and the retry loops around it, in key generation and in signing: randomness; `Ecdh.EccMakeKey` and
  `Ecdsa.EcdsaSign` are one attempt, for a random number that is not 0. For 0 the source goes on to a loop condition
  that reads a point it may not have computed yet.
- `Authorization::verity`: network, files and the clock.
- Primality of the field and of the order and the group law of the curve are hypotheses, as described above.
- Ecdsa.EcdsaVerify: starts from the decoded numbers and the decompressed key, whose abscissa is taken to be reduced.
- Ecdsa.VerifiesExactly: for a key equal to the base point or its mirror image and scalars with a bit in common the
  loop adds (0, 0) as if it were a point; what it then accepts is given by `Shamir.ShamirValue` alone.
- Ecdh.EcdhSharedSecret: is for public keys that name a point of the curve, with a reduced abscissa; the source does
  not check that they do, and what it computes for other numbers is not modelled.
- Ladder.EccPointMult: a point for which a step before the last is exceptional is not covered; a point of odd order n
  has none for any scalar below 2 n - 2.
- VliModMult.ModMult: is stated for the moduli for which the shifted modulus fits the buffer; `VliModMult.ShiftFits`
  says exactly when.
- JSON doubles: scanning and printing them are calls into the C library and appear as two functions that the model
  takes as parameters; round trips exclude values that hold them.
- JsonStyled.StyledWriter.Write: the texts the C library gives for doubles are taken to be not empty and to hold no
  white space, quotes or punctuation of JSON; so for the compact writer where the layout of its text is the point.
- Collecting and placing comments, the positions in formatted error messages, `Path`, the C++ template variants, and
  `StyledStreamWriter`.
- JsonReader.Reader.ReadNode: the stack of nodes holds values and stores a node in the one below when it is popped,
  where the source holds pointers into one tree.
- JsonRoundTrip.AnyLayoutReadsBack: strings are C strings without a NUL, which is what the accessors of the library
  show; a string with a NUL is printed up to it.
- Removal, resizing and the alternative containers of the value class (`ValueInternalMap`, `ValueInternalArray`,
  `BatchAllocator`), which the default build leaves out.
- The memory pool beside the thread pool: freed blocks do not go back to its list.
- ThreadPool.StepKeepsInv: tasks are known only by the tasks they post; exceptions thrown by a task are not modelled.
- Rooms.RoomsService.JoinRoom: the callback of sock.join runs at once, a user has one session at a time, and the list
  of users a reconnecting client asks about is empty; the sample room, nicknames and the media transports are left out.
- EventLoop.Server.Task: a send sends all of a reply or fails; the flag of a listed entry, which the blocking server
  leaves uninitialised, is not part of a reply; a name is cut at 24 bytes.
- KingServer.RunCountsStep: the integers of a message are those of a little-endian host.
- EventLoop.LoopRefines: a failed send only ends the connection. The event loop sends the count of names without
  MSG_NOSIGNAL (4.epoll-and-boost-async-io/run-king-server/server-of-epoll.h, line 51), where the blocking handler sets
  it (server-of-basic.h, line 52), so a broken pipe at that send raises a signal, which the repository does not handle
  and the model does not have.
- The asio, select and poll variants of the king server, and accepting, binding and listening on sockets.
