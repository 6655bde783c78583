# A Dafny model of nano-dtls

nano-dtls is a DTLS 1.3 stack written from scratch in C. This project models its arithmetic, its
record layer, its reliability state, its message codecs and both ends of its handshake, and proves
what each of them is for: that limb code computes the one-line mathematics it stands for without
overflowing its C types, that the curve code is the group law and X25519 and ECDSA what they should
be over it, that records survive any delivery order, exactly when either end finishes, and that two
ends which both report success agree on everything they hashed and on every key.

## How it is laid out

| files | subject |
|---|---|
| `Machine`, `Arithmetic`, `Limbs`, `ByteOps`, `Wire` | C integer types as ranges of `int`, powers and congruences, numbers as digit strings, exclusive-or, big-endian fields |
| `Bits64`, `Fe25519`, `FeCodec`, `X25519` | signed 64-bit words bit by bit, GF(2^255 - 19) in sixteen signed 16-bit limbs, and the X25519 ladder |
| `Montgomery`, `X25519Law`, `KeyAgreement` | the ladder's formulas against the group law of the curve: scalar multiplication, small orders, Diffie-Hellman |
| `Bignum`, `ModExp`, `Curve`, `CurveLaw`, `P256`, `Ecdsa` | 256-bit arithmetic by binary long division, Jacobian point formulas and the chord-and-tangent law they compute, ECDSA verification |
| `CurveGroup`, `EcdsaLaw` | double-and-add is repeated addition, and which signatures verify |
| `Poly1305Field`, `Poly1305`, `ChaCha20`, `Aead` | the AEAD, down to its 26-bit limbs and its streaming MAC context |
| `Sha256`, `Transcript`, `Hkdf`, `KeySchedule` | streaming hash, transcript snapshots, key expansion and derivation |
| `Record`, `Reconstruct`, `RecordProtect`, `RecordRun` | record headers, truncated numbers, protected records, whole runs of them |
| `Replay`, `HandshakeHeader`, `Reassembly` | the replay window, the handshake header, reassembly |
| `Codec`, `Messages`, `Hello`, `Asn1`, `Formats` | the length-patching writer and its reader, handshake message bodies, DER, and every format byte by byte |
| `Handshake`, `HandshakeWire`, `HandshakeRun`, `HandshakeProgress`, `HandshakeSafety`, `HandshakeComplete` | both ends as machines, what they make of each other's datagrams, and runs over a network that loses, reorders and repeats |
| `Sockets`, `Client`, `Server` | the blocking client and server, proved to do what the machines do |
| `EndToEnd` | the handshake with X25519 and ECDSA in it |

Code that updates something in place is modelled by a class or by a method over an array, and its
contract ties the new state to a function of the old one. Code that only computes is a function.
Where a C function reads or writes a buffer through a pointer, the model passes a sequence in and
returns a sequence, unless the loop over the buffer is the point.

A C integer variable has a type such as `uint32` or `int64`, a range of `int`; every assignment to
it is an overflow check, and where the C code wraps or truncates on purpose the model says `%`.
Signed right shifts of limbs are floor divisions, left shifts are multiplications.

## What is given from outside

- The ChaCha20 block function, the SHA-256 compression function and the MAC under HKDF are
  function parameters. Each result holds for all of them.
- Randomness (private keys, hello randoms) is part of a configuration chosen before the run.
- Sends and receives have outcomes given by two functions of the call's number (`Sockets.Net`), or,
  in `HandshakeRun`, by a network holding a multiset of datagrams in flight each way.
- Certificate parsing and chain verification against a trust anchor at a given time, the server's
  signer and the client's signature check are functions in `Handshake.Suite` and
  `Handshake.ServerConfig`. `Ecdsa` models the check itself.
- The curve's parameters are an argument (`P256.Domain`): the point arithmetic and the verification
  are proved for every curve of the P-256 shape, and `P256Usable` shows that P-256 is one. The C
  code names its constants globally.
- Hypotheses, stated as predicates where they are used: no zero divisors modulo the field primes
  (`Curve.NoZeroDivisors`); Fermat's little theorem for them and for the group order (`ModExp.Fermat`);
  associativity of the addition on the P-256 curve (`CurveGroup.Associative`) and that its base point
  has order n (`EcdsaLaw.Standard`); for X25519, that the multiples of a point are a homomorphism from
  the integers into the curve's group (`Montgomery.Multiples`). `HandshakeWire.Commutes`, that
  Diffie-Hellman agrees for the two private keys of a run, is a hypothesis where the exchange is any
  function, and a theorem where it is X25519 (`KeyAgreement.SecretsAgree`).

## Where the code decides

- Sequence numbers are reconstructed against the highest number seen, not against the next expected
  one as section 4.2.2 of RFC 9147 words it. The model follows the code.
- The transcript hashes each message with its whole 12-byte DTLS handshake header, not the TLS form
  without message_seq and the fragment fields. The model follows the code.
- `mod_pow` returns 1 for modulus 1 and exponent 0, where the power modulo 1 is 0. `ModPow` states
  exactly when the result is the power.
- A unified header without a length field takes the payload's length modulo 2^16.
  `UnifiedRoundTrip` states when the payload comes back whole.
- A certificate list of 2^24 bytes or more is written with a truncated length.
  `CertificateRoundTrip` states exactly when the list comes back. `CertificateVerifyRoundTrip` does the
  same for a signature of 2^16 bytes or more.
- The server's wait for the client's Finished tolerates any loss and reordering, and up to three
  repeated datagrams. `FinishedReached` proves it, and `FourRepeatsExhaust` shows that four are too many.
- The ChaCha20 block counter wraps after 2^32 - 1 blocks of text to the block of the one-time key.
  `CiphertextByte` states which block masks which byte.
- A Certificate message of more than 2035 bytes does not fit the one record it is sent in, although
  the serializer accepts it. `PlanCompletes` states exactly when the server's flight is built.
- A reassembly is bound to the first well-formed fragment it is given, whatever message that is of.
  `FeedCollects` states exactly when a message can still be collected.

## Model

| member | source | states |
|---|---|---|
| Fe25519.Carry | src/crypto/x25519.c:57-69 | one carry pass leaves limbs 1 to 15 as digits and replaces the value v by v mod 2^256 plus 38 times the quotient, with no 64-bit overflow for any limbs the callers produce |
| Fe25519.CarryCong | src/crypto/x25519.c:57-69 | a carry keeps the residue modulo 2^255 - 19 |
| Fe25519.CarryTwice | src/crypto/x25519.c:57-79 | the first carry after a product moves out less than 2^31, the second at most one |
| Fe25519.AddRow | src/crypto/x25519.c:71-79 | one row of the schoolbook product adds x times b shifted by i limbs, every column staying inside a bound that grows with i |
| Fe25519.Convolve | src/crypto/x25519.c:71-79 | the 31 columns are the product of the two values and all fit in 64 bits |
| Fe25519.Fold | src/crypto/x25519.c:71-79 | folding the upper columns back with weight 38 keeps the residue |
| Fe25519.Mul | src/crypto/x25519.c:71-79 | the product modulo p, with limbs 1 to 15 in 0..65535 and limb 0 in -38..65573 |
| Fe25519.Add | src/crypto/x25519.c:31-33 | the sum modulo p, with limbs fit for a multiplication |
| Fe25519.Sub | src/crypto/x25519.c:35-37 | the difference modulo p, with limbs fit for a multiplication |
| Fe25519.ExponentFinal | src/crypto/x25519.c:87-95 | the exponent the inversion chain spells out is exactly 2^255 - 21 |
| Fe25519.Inv | src/crypto/x25519.c:87-95 | a to the power p - 2 modulo p |
| FeCodec.Unpack | src/crypto/x25519.c:97-105 | 32 little-endian bytes become digits whose value is the number modulo 2^255 |
| FeCodec.ThirdCarry | src/crypto/x25519.c:107-133 | after the third carry all sixteen limbs are true digits |
| FeCodec.Freeze | src/crypto/x25519.c:107-133 | three carries give digits with the same residue |
| FeCodec.TrialSubtract | src/crypto/x25519.c:107-133 | one trial subtraction reports a borrow exactly when the value is below p, and otherwise leaves value minus p |
| FeCodec.Pack | src/crypto/x25519.c:107-133 | the 32 output bytes are the unique representative below p |
| Bits64.MaskedExchange | src/crypto/x25519.c:42-49 | masking both words with the masked difference exchanges them when all mask bits are set and leaves them when none is, for all signed 64-bit words |
| X25519.Swap | src/crypto/x25519.c:42-49 | the loop of masked exchanges swaps the two elements exactly when the flag is 1 |
| X25519.LadderStep | src/crypto/x25519.c:163-185 | one iteration on limbs is one step of the reference ladder of section 5 of RFC 7748, whose meaning StepFormulas gives, and its outputs are again fit for the next |
| X25519.Clamp | src/crypto/x25519.c:135-154 | clamping the bytes is decodeScalar25519 on the number |
| X25519.Climbed | src/crypto/x25519.c:155-186 | the loop with deferred swaps, over every bit, equals the reference ladder without them |
| X25519.ScalarMult | src/crypto/x25519.c:135-195 | for every scalar and u-coordinate the output encodes x2 times z2 to the power p - 2 modulo p of the reference ladder |
| Montgomery.DoubleStands | src/crypto/x25519.c:164-185 | on every smooth curve b y^2 = x^3 + a x^2 + x: (X^2 - Z^2)^2 over 4XZ(X^2 + aXZ + Z^2) is the x-coordinate of 2p by the tangent law, for every p including the origin and the points of order two |
| Montgomery.SumStands | src/crypto/x25519.c:169-179 | the differential addition is the x-coordinate of p + q by the chord-and-tangent law, for all p and q whose difference is a point over u, u not 0 |
| X25519Law.StepFormulas | src/crypto/x25519.c:163-185 | one step is that doubling and that differential addition, modulo any m, with a = 4 * 121665 + 2 = 486662 |
| X25519Law.ShapeIsSmooth | src/crypto/x25519.c:146-146 | with a = 486662 the curve is smooth modulo 2^255 - 19, for every b but 0 |
| X25519Law.EveryUHasAPoint | src/crypto/x25519.c:149-149 | every u is the coordinate of a point of the curve or of a twist of it, so the results below leave none out |
| X25519Law.ClimbStands | src/crypto/x25519.c:150-188 | after the bits of k from t up the ladder holds the multiples k / 2^t and k / 2^t + 1 of the point over u |
| X25519Law.ProductIsMultiple | src/crypto/x25519.c:135-195 | X25519(k, u) is the x-coordinate of k times the point over u, and 0 when that is the point at infinity |
| X25519Law.ProductOfZero | src/crypto/x25519.c:135-195 | over u = 0 the result is 0 for every scalar |
| X25519Law.DecodedU | src/crypto/x25519.c:97-105 | bit 255 of the coordinate is ignored and the rest taken modulo p |
| X25519Law.ClampedRange | src/crypto/x25519.c:140-144 | a clamped scalar is a multiple of 8 in 2^254..2^255-1 whose bits 3 to 253 are the given ones |
| X25519Law.SmallOrderRefused | src/handshake/client.c:163-168 | a clamped scalar sends every point of order 1, 2, 4 or 8 to the all-zero secret that both ends refuse |
| X25519Law.Agreement | src/crypto/x25519.c:135-195 | for any two clamped scalars and any point, X25519(a, X25519(c, u)) = X25519(c, X25519(a, u)) |
| KeyAgreement.Exchange | src/crypto/x25519.c:135-195 | the 32 bytes are that number, little-endian |
| KeyAgreement.SecretsAgree | src/handshake/client.c:160-162 | with X25519 for the exchange both ends compute the same secret, whatever their private keys |
| Bignum.IsZero | src/crypto/p256_internal.h:65-69 | true exactly for value zero |
| Bignum.Cmp | src/crypto/p256_internal.h:71-76 | the three-way comparison of the values |
| Bignum.AddRaw | src/crypto/p256_internal.h:80-88 | the sum with its carry |
| Bignum.SubRaw | src/crypto/p256_internal.h:90-98 | the difference, with a borrow exactly when the first value is smaller |
| Bignum.MulRowInto | src/crypto/p256_internal.h:118-135 | one row adds x times b shifted by i limbs and leaves its carry for limb i + 8 |
| Bignum.Propagate | src/crypto/p256_internal.h:118-135 | the carry after a row stops at the limb it meets and never leaves the sixteen |
| Bignum.MulWide | src/crypto/p256_internal.h:118-135 | the 512-bit product of the values |
| Bignum.ShiftIn | src/crypto/p256_internal.h:146-169 | the nine-limb remainder becomes twice itself plus the next bit |
| Bignum.AtLeast | src/crypto/p256_internal.h:137-144 | the nine-limb comparison with the modulus |
| Bignum.SubtractInPlace | src/crypto/p256_internal.h:146-169 | subtracting the modulus in place, the ninth limb covering any borrow |
| Bignum.DivisionStep | src/crypto/p256_internal.h:146-169 | a step of long division keeps the remainder of the prefix and keeps it below the modulus |
| Bignum.ReduceWide | src/crypto/p256_internal.h:146-169 | 512 steps leave the value modulo m |
| Bignum.ModMul | src/crypto/p256_internal.h:191-195 | the product modulo m for all 256-bit operands and every positive m |
| Bignum.ModAdd | src/crypto/p256_internal.h:171-179 | the sum modulo m of reduced operands |
| Bignum.ModSub | src/crypto/p256_internal.h:181-189 | the difference modulo m of reduced operands |
| ModExp.ModPow | src/crypto/p256_internal.h:197-207 | the power modulo m if and only if m exceeds 1 or the exponent is positive; 1 otherwise |
| ModExp.ModInv | src/crypto/p256_internal.h:209-214 | a to the power m - 2 modulo m; for m = 1, where the exponent wraps, 0 |
| ModExp.InverseCancels | src/crypto/p256_internal.h:209-214 | under Fermat that power is an inverse |
| ModExp.ReduceOnce | src/crypto/p256_internal.h:216-222 | the value modulo m |
| ModExp.FromBytes | src/crypto/p256_internal.h:100-106 | the limbs hold the big-endian number |
| Curve.LineIdentity | src/crypto/p256_internal.h:227-329 | the integer identity behind both formulas: where a line meets the cubic next |
| Curve.DoubleOnCurve | src/crypto/p256_internal.h:227-273 | doubling a point of Y^2 = X^3 - 3XZ^4 + bZ^6 gives infinity or a point of the same curve with nonzero Z |
| Curve.SumOnCurve | src/crypto/p256_internal.h:275-329 | the same for addition, in every one of its cases |
| Curve.MultipleOnCurve | src/crypto/p256_internal.h:331-346 | every doubling and every partial sum of a scalar multiplication stays on the curve |
| CurveLaw.DoubleIsTangent | src/crypto/p256_internal.h:227-273 | the double of a point standing for (x, y) stands for the mirrored third point of the tangent, whose slope l satisfies l 2y = 3x^2 - 3, and is finite |
| CurveLaw.DoubleIsInfinity | src/crypto/p256_internal.h:227-273 | the double is infinity if and only if y is 0 |
| CurveLaw.SumIsChord | src/crypto/p256_internal.h:275-329 | the sum over different x stands for the mirrored third point of the chord and is finite; over the same x it is the double for equal points and infinity for opposite ones |
| CurveLaw.StandsForOne | src/crypto/p256_internal.h:357-367 | a finite Jacobian point stands for one affine point only, so the law fixes the result |
| CurveGroup.SumSame | src/crypto/p256_internal.h:275-329 | the affine point of a sum depends only on the affine points of its operands, in every case of the addition |
| CurveGroup.TimesAdd | src/crypto/p256_internal.h:331-346 | j times p plus k times p is j + k times p, given associativity |
| CurveGroup.MultipleCorrect | src/crypto/p256_internal.h:331-346 | for every k below 2^256 and every point of the curve, double-and-add gives p added to itself k times: the same affine point, or both infinity |
| CurveGroup.PowerMultiple | src/crypto/p256_internal.h:331-346 | without any hypothesis, 2^i times p is i doublings; 2p is the double |
| Curve.AffineTest | src/crypto/p256.c:19-26 | for an affine point the comparison of field elements is the curve equation |
| P256.Parameters | src/crypto/p256_internal.h:44-55 | the limb constants are the prime, order, coefficients and base point of P-256 |
| P256.P256Usable | src/crypto/p256_internal.h:44-55 | they are reduced, a is -3, and the base point satisfies the curve equation |
| P256.PointDouble | src/crypto/p256_internal.h:227-273 | the limb code computes the doubling formula and keeps coordinates reduced |
| P256.PointAdd | src/crypto/p256_internal.h:275-329 | the limb code computes the addition formula with its infinity, equal and opposite cases |
| P256.ChordPoint | src/crypto/p256_internal.h:305-329 | the general case of the addition |
| P256.PointScalarMult | src/crypto/p256_internal.h:331-346 | the sum of the doublings selected by the scalar's 256 bits, which MultipleCorrect shows to be the multiple |
| P256.PointToAffine | src/crypto/p256_internal.h:360-367 | the affine pair taken with the power z^(p-2) |
| P256.AffineCorrect | src/crypto/p256_internal.h:360-367 | xZ^2 = X and yZ^3 = Y modulo p, under Fermat |
| Ecdsa.PointIsValid | src/crypto/p256.c:12-27 | true exactly when both coordinates are reduced and the affine point is on the curve |
| Ecdsa.Verify | src/crypto/p256.c:29-67 | accepts exactly when the key is valid, r and s are in 1..n-1, the combined point is finite and its x-coordinate modulo n is r |
| Ecdsa.Combine | src/crypto/p256.c:50-60 | the point reached is u1 G + u2 Q |
| Ecdsa.VerifyStaysOnCurve | src/crypto/p256.c:51-60 | every doubling and every partial sum of either scalar multiplication, and their sum, is infinity or on the curve |
| Ecdsa.QuotientTimes | src/crypto/p256.c:45-48 | under Fermat for n, u1 and u2 are the quotients by s: u s = x modulo n |
| Ecdsa.AcceptedPoint | src/crypto/p256.c:45-66 | an accepted signature names the true x-coordinate of a finite curve point u1 G + u2 Q with u1 s = e and u2 s = r modulo n |
| EcdsaLaw.AcceptsIff | src/crypto/p256.c:29-67 | for every key pair and every r and s in range: accepted if and only if r is the x-coordinate modulo n of kG for the k with s k = e + r x |
| EcdsaLaw.SignedVerifies | tools/p256_sign_demo.c:10-46 | whatever the signing procedure produces with nonzero r and s is accepted under the public key |
| Poly1305Field.BytesToLimbs | src/crypto/poly1305.c:33-46 | the five 26-bit limbs hold the 17-byte number |
| Poly1305Field.Columns | src/crypto/poly1305.c:48-68 | the five column sums, with 5r for what passes limb 4, are the product modulo 2^130 - 5 |
| Poly1305Field.CarryColumns | src/crypto/poly1305.c:48-68 | the carry chain keeps the residue, fits 32 and 64 bits, and restores the limb bounds |
| Poly1305Field.MulMod | src/crypto/poly1305.c:48-68 | the product modulo 2^130 - 5 for every accumulator a block can leave, with the bounds restored |
| Poly1305Field.CarryFinal | src/crypto/poly1305.c:139-150 | one more pass leaves true 26-bit limbs with the same residue |
| Poly1305Field.SubtractOnce | src/crypto/poly1305.c:152-173 | the value modulo 2^130 - 5 exactly |
| Poly1305Field.PackAndAdd | src/crypto/poly1305.c:175-196 | the tag is that value plus the pad, modulo 2^128 |
| Poly1305.ClampR | src/crypto/poly1305.c:25-28 | four bytes keep their low four bits, three lose their low two, and together they hold r of section 2.5 of RFC 8439 |
| Poly1305.ProcessFullBlock | src/crypto/poly1305.c:70-78 | a block with its 2^128 bit is added and the sum multiplied by r |
| Poly1305.PolynomialBlock | src/crypto/poly1305.c:70-78 | appending a block multiplies the message polynomial through by r |
| Poly1305.ClosedForm | src/crypto/poly1305.c:70-137 | with q blocks the polynomial is the sum of the block values times r^q, r^(q-1), ..., r |
| Poly1305.EmptyTag | src/crypto/poly1305.c:80-196 | the tag of the empty message is the second half of the key |
| Poly1305.ClampedValue | src/crypto/poly1305.c:25-28 | the byte masks and the masked 32-bit words are the same r |
| Poly1305.Context.constructor | src/crypto/poly1305.c:80-97 | a context for a key, with nothing fed |
| Poly1305.Context.Update | src/crypto/poly1305.c:99-125 | the context stands for the old message followed by the new data, however it was split |
| Poly1305.Context.Refill | src/crypto/poly1305.c:99-125 | topping up the buffer consumes a prefix and absorbs a full block |
| Poly1305.Context.FeedBlocks | src/crypto/poly1305.c:99-125 | the block loop consumes all full blocks |
| Poly1305.Context.Final | src/crypto/poly1305.c:127-196 | the tag of everything fed; the accumulator is left standing for the whole message |
| Poly1305.LastBlock | src/crypto/poly1305.c:127-137 | the remaining bytes with their one bit and zeros are the last coefficient |
| Poly1305.MacChunks | src/crypto/poly1305.c:80-204 | for every key, message and split into updates: polynomial at clamped r modulo 2^130 - 5, plus s, modulo 2^128 |
| ChaCha20.XorStream | src/crypto/chacha20.c:55-72 | the block loop masks byte i with byte i mod 64 of block counter plus i div 64, the counter wrapping at 32 bits |
| ChaCha20.CipherTwice | src/crypto/chacha20.c:55-72 | masking twice gives back the text |
| Aead.MacInputInjective | src/crypto/aead_chacha20poly1305.c:17-33 | two (AAD, ciphertext) pairs with the same MAC input are the same pair |
| Aead.MacAadAndCiphertext | src/crypto/aead_chacha20poly1305.c:17-33 | the MAC is fed exactly the padded pair and both lengths |
| Aead.ComputeTag | src/crypto/aead_chacha20poly1305.c:35-64 | the tag under the one-time key of block 0 |
| Aead.Encrypt | src/crypto/aead_chacha20poly1305.c:42-64 | ciphertext from block 1 on, and its tag |
| Aead.Decrypt | src/crypto/aead_chacha20poly1305.c:66-91 | opens exactly when all sixteen tag bytes agree |
| Aead.OpenSeal | src/crypto/aead_chacha20poly1305.c:42-91 | decryption undoes encryption for every key, nonce, AAD and text |
| Aead.SealOpen | src/crypto/aead_chacha20poly1305.c:66-91 | whatever opens is what sealing its text produces |
| Aead.CiphertextByte | src/crypto/aead_chacha20poly1305.c:53-54 | ciphertext byte i is the text byte masked with byte i mod 64 of block 1 + i / 64, up to the point where the 32-bit counter comes back to 0 |
| Aead.CiphertextIgnoresKeyBlock | src/crypto/aead_chacha20poly1305.c:35-64 | block 0, which supplies the one-time MAC key, has no part in any ciphertext of up to 64 (2^32 - 1) bytes |
| Aead.TagIgnoresTextBlocks | src/crypto/aead_chacha20poly1305.c:35-64 | the tag of a ciphertext depends on the key stream through the first half of block 0 only, and is the Poly1305 tag of the MAC input under it |
| Aead.OpensIff | src/crypto/aead_chacha20poly1305.c:66-91 | a ciphertext opens if and only if its tag is that Poly1305 tag |
| Sha256.PaddedLength | src/crypto/sha256.c:78-97 | the padded message is whole blocks, and below 2^61 bytes the length field is the true bit length |
| Sha256.PaddingLayout | src/crypto/sha256.c:78-89 | a byte 0x80, the fewest zeros that fill the block, and the length in bits as a 64-bit big-endian number |
| Sha256.PaddedInjective | src/crypto/sha256.c:78-89 | below 2^61 bytes different messages are padded differently |
| Sha256.FoldIterates | src/crypto/sha256.c:62-76 | the fold is one compression for each block from the first to the last, as in section 6.2.2 of FIPS 180-4 |
| Sha256.InitialIsRoots | src/crypto/sha256.c:55-60 | the initial words are the first 32 fractional bits of the square roots of the first eight primes |
| Sha256.SerializedWords | src/crypto/sha256.c:91-96 | each word is written most significant byte first, in order |
| Sha256.Context.constructor | src/crypto/sha256.c:55-60 | a context with nothing fed |
| Sha256.Context.Update | src/crypto/sha256.c:62-76 | the context stands for the old message followed by the new data, however it was split |
| Sha256.Context.Absorb | src/crypto/sha256.c:62-76 | one turn of the loop fills the buffer and compresses it when full |
| Sha256.Context.Final | src/crypto/sha256.c:78-97 | the fold of compression over the message padded as in section 5.1.1 of FIPS 180-4 |
| Sha256.Context.PadZeros | src/crypto/sha256.c:78-97 | the padding loop ends, having fed exactly the zeros the length asks for |
| Sha256.Context.Copy | src/handshake/transcript.c:9-13 | an independent copy of a context |
| Transcript.Transcript.Add | src/handshake/transcript.c:5-7 | the transcript grows by the message |
| Transcript.Transcript.Snapshot | src/handshake/transcript.c:9-13 | the hash of everything added, changing nothing |
| Transcript.Session | src/handshake/transcript.c:3-13 | over any list of messages, snapshot i is the hash of the first i, whatever snapshots came before |
| Hkdf.ExpandInto | src/crypto/hkdf.c:31-68 | section 2.3 of RFC 5869 for every allowed length; the one-byte counter never wraps before use |
| Hkdf.OkmPrefix | src/crypto/hkdf.c:31-68 | a shorter output is a prefix of a longer one |
| Hkdf.OkmChains | src/crypto/hkdf.c:49-68 | each full block of the output is the MAC of the block before it, the info and its own number in one byte |
| Hkdf.LabelFits | src/crypto/hkdf.c:70-99 | an allowed label always fits the info bound, so only an over-long output is refused |
| Hkdf.LabelInjective | src/crypto/hkdf.c:70-99 | different (length, label, context) triples have different encodings |
| KeySchedule.Derived | src/crypto/hkdf.c:70-106 | with the schedule's own arguments expansion never fails and has the asked length |
| KeySchedule.PurposesSeparate | src/handshake/key_schedule.c:6-68 | two derivations use the same info string exactly when purpose, context and length are the same |
| KeySchedule.ScheduleCalls | src/handshake/key_schedule.c:14-50 | every secret, key and IV as a MAC call with its label, context and length written out |
| KeySchedule.FinishedCalls | src/handshake/key_schedule.c:55-68 | the Finished value as two MAC calls |
| KeySchedule.DirectionsSeparate | src/handshake/key_schedule.c:30-50 | if the two directions share a secret or a key, the MAC collides on two of the schedule's own inputs |
| KeySchedule.SessionsSeparate | src/handshake/key_schedule.c:14-37 | if two runs with different shared secrets or hello hashes share a traffic secret, the MAC collides |
| KeySchedule.FinishedSeparate | src/handshake/key_schedule.c:55-68 | equal Finished values under different keys or transcripts are a MAC collision |
| KeySchedule.VerifyFinished | src/handshake/key_schedule.c:70-81 | the or of all differences is zero exactly when the value is the expected one |
| Record.PlaintextRoundTrip | src/record.c:5-53 | a serialized DTLSPlaintext parses back, also with more bytes behind it |
| Formats.FieldsAreBigEndian | src/record.c:5-53 | every multi-byte field is read most significant byte first |
| Formats.PlaintextLayout | src/record.c:25-53 | type, version, epoch, 48-bit number, length and fragment at their places |
| Formats.PlaintextParsed | src/record.c:5-23 | a record is accepted if and only if its length field is covered, and is then the encoding of what is reported |
| Record.WriteUnified | src/record.c:113-156 | the moving-offset writer produces header and payload, or changes nothing and says why |
| Record.UnifiedRoundTrip | src/record.c:55-156 | every unified header shape parses back; the payload is whole if and only if it is shorter than 2^16 |
| Formats.UnifiedLayout | src/record.c:113-156 | the first byte is 001CSLEE, then connection ID, number and length at their places |
| Formats.UnifiedParsed | src/record.c:55-111 | an accepted header is the encoding of what is reported |
| Reconstruct.ReconstructSequence | src/record.c:177-201 | the loop, with its signed 64-bit casts, keeps the first candidate in range that no later one beats, for every 64-bit reference |
| Reconstruct.CastIsHarmless | src/record.c:190-192 | a cast changes a candidate only into one that is out of range or no closer |
| Reconstruct.SequenceExact | src/record.c:177-201 | truncation is inverted exactly for the numbers that meet a stated distance and range condition |
| Reconstruct.SequenceInRange | src/record.c:177-201 | the result stays below 2^48 and agrees with the wire bits |
| Reconstruct.ReconstructEpoch | src/record.c:158-175 | the same loop for epochs, within 0 and 65535 |
| Reconstruct.EpochExact | src/record.c:158-175 | exactly which epochs come back from two bits, ties going low |
| RecordProtect.BuildNonce | src/record_protect.c:27-32 | the IV masked with the sequence number right-aligned in twelve bytes |
| RecordProtect.NonceInjective | src/record_protect.c:27-32 | under one IV two sequence numbers never share a nonce |
| RecordProtect.NonceMask | src/record_protect.c:27-32 | taking the IV off a nonce leaves the 64-bit number, big-endian and right-aligned |
| RecordProtect.FixedHeaderIsUnified | src/record_protect.c:48-56 | the hand-written five bytes are the general serializer's header |
| RecordProtect.UnprotectProtect | src/record_protect.c:59-136 | a record whose number the receiver can recover opens to exactly its type and text |
| RecordProtect.OpenedIsSealed | src/record_protect.c:90-136 | whatever a receiver accepts is the sealing of the reported text and type with zero padding, under its key, the nonce of the number it found and the header's own bytes as additional data |
| Formats.RecordLayout | src/record_protect.c:48-88 | a protected record byte by byte, sealed with its five header bytes as additional data |
| RecordRun.RecordProtection.constructor | src/record_protect.c:9-15 | numbering starts at 0 |
| RecordRun.RecordProtection.ProtectInto | src/record_protect.c:59-88 | writes the record and moves the counter, or changes nothing |
| RecordRun.RecordUnprotection.constructor | src/record_protect.c:17-25 | the high mark starts at 0 |
| RecordRun.RecordUnprotection.UnprotectFrom | src/record_protect.c:90-136 | opens to content and type and raises the high mark; every rejection leaves it alone |
| RecordRun.Strip | src/record_protect.c:120-126 | the padding loop stops at the last nonzero byte |
| RecordRun.SendAllRecords | src/record_protect.c:59-88 | a sender's run is its records numbered consecutively |
| RecordRun.HighIsMaximum | src/record_protect.c:131-131 | High is the largest of the start and the numbers delivered, and is one of them |
| RecordRun.DeliveryCorrect | src/record_protect.c:59-136 | for any order, loss, repetition and junk in between, and for each delivery by itself: a copy gets its own number if and only if it is near enough the high mark it meets, and then opens to its own message; the final high mark is the largest of the start and the numbers of the accepted deliveries |
| RecordRun.AcceptedNumber | src/record_protect.c:100-131 | whatever is accepted, the high mark becomes the larger of itself and that datagram's number and nothing else moves |
| RecordRun.CopyNumber | src/record_protect.c:100-104 | a record is given the number it was sent with if and only if that number is near enough the high mark |
| RecordRun.FairDelivery | src/record_protect.c:59-136 | when every copy is near enough and nothing foreign opens, every copy opens to its message, everything else is rejected and the high mark is High |
| RecordRun.HalfWindowRecoverable | src/record_protect.c:103-104 | within 2^15 of the high mark is near enough |
| RecordRun.RunNonces | src/record_protect.c:27-88 | no two records of a run share a nonce |
| Replay.ReplayWindow.constructor | src/replay.c:4-8 | nothing accepted yet |
| Replay.ReplayWindow.Check | src/replay.c:10-16 | fresh exactly when never accepted and fewer than 64 behind the highest |
| Replay.ReplayWindow.Accept | src/replay.c:18-34 | the 64-bit word goes on standing for the unbounded set of accepted numbers |
| Replay.Advance | src/replay.c:18-34 | shifting the history up moves every mark with its number |
| Replay.Filter | src/replay.c:10-34 | over every run of check-then-accept, each decision is the one the full history calls for |
| Replay.NoReplay | src/replay.c:10-34 | no number passes twice |
| HandshakeHeader.RoundTrip | src/handshake/header.c:5-57 | a serialized fragment parses back, also with more bytes behind it |
| HandshakeHeader.ParsedIsWireSized | src/handshake/header.c:5-25 | what the parser hands on has 24-bit lengths and a body of the length it says |
| Formats.HandshakeLayout | src/handshake/header.c:27-57 | type, length, message number, offset, fragment length and body at their places |
| Formats.HandshakeParsed | src/handshake/header.c:5-25 | a fragment is accepted if and only if its length is covered, and is then the encoding of what is reported |
| Reassembly.Reassembler.constructor | src/reassembly.c:6-13 | idle |
| Reassembly.Reassembler.AddFragment | src/reassembly.c:15-38 | takes the fragment's bytes at their place, or rejects it and changes nothing |
| Reassembly.AddMeans | src/reassembly.c:15-38 | exactly which fragments are taken; the positions of one that is hold its bytes, whatever was there, and no other position changes |
| Reassembly.EndExactIff | src/reassembly.c:18-18 | the 32-bit end of a fragment compares like the true one exactly when it does not wrap to within the message; every parsed header is such |
| Reassembly.EndWraps | src/reassembly.c:18-18 | a header for which it does not |
| Reassembly.Reassembler.IsComplete | src/reassembly.c:40-46 | true exactly when every byte is there, and the buffer is then the message |
| Reassembly.FeedCollects | src/reassembly.c:15-38 | over any order, overlap and repetition, with any foreign fragments around: if the first fragment that can start a message is a piece of this one, the collected bytes are its bytes at exactly the covered positions, and otherwise nothing of it is ever collected |
| Reassembly.CompleteIffCovered | src/reassembly.c:15-46 | this message is complete exactly when a piece of it started the reassembly and its pieces cover it |
| Reassembly.Reassemble | src/reassembly.c:6-46 | the object over a whole run reports this message complete exactly then, and its buffer is the message |
| Codec.Writer.WriteBytes | src/handshake/hello.c:29-37 | appends, or overflows for good when the data does not fit |
| Codec.Writer.Reserve | src/handshake/hello.c:44-58 | appends a zero length and says where |
| Codec.Writer.Patch | src/handshake/messages.c:45-63 | overwrites the reserved length with the size of what followed it |
| Codec.Writer.Finish | src/handshake/messages.c:147-149 | the bytes written, or BAD_LENGTH after an overflow |
| Codec.PatchIsVector | src/handshake/hello.c:44-64 | reserving, writing and patching is writing the body behind its length |
| Codec.Reader.View | src/handshake/hello.c:194-219 | the next n bytes, or nothing moved |
| Codec.Reader.ViewVector | src/handshake/messages.c:82-105 | a length and that many bytes |
| Codec.TakeVectorFirst | src/handshake/messages.c:76-105 | a written vector is read back, leaving exactly what followed it |
| Messages.WriteCertificate | src/handshake/messages.c:127-149 | for one to four certificates the list is written exactly when the capacity covers its length |
| Messages.ReadCertificate | src/handshake/messages.c:151-185 | the parsing loop, with its limit of four entries and its error codes |
| Messages.ParsedFits | src/handshake/messages.c:165-182 | the entries parsed take up no more than the list they came from |
| Messages.CertificateRoundTrip | src/handshake/messages.c:127-185 | a serialized list of one to four comes back if and only if it is shorter than 2^24 bytes |
| Messages.CertificateVerifyRoundTrip | src/handshake/messages.c:187-200 | the body the server builds parses to its algorithm and signature if and only if the signature is shorter than 2^16 bytes |
| Formats.VectorLayout | src/handshake/messages.c:40-63 | a vector is its length, big-endian, and its bytes |
| Formats.VectorTaken | src/handshake/messages.c:71-105 | what a length-prefixed field was read from is that field, written, and the rest |
| Formats.EncryptedExtensionsParsed | src/handshake/messages.c:116-125 | accepted if and only if the two length bytes count exactly what follows |
| Formats.CertificateLayout | src/handshake/messages.c:127-149 | empty context, list length, and for each certificate its length, its bytes and no extensions |
| Formats.CertificateParsed | src/handshake/messages.c:151-185 | accepted only as a context, one to four certificates each with some extensions, and possibly more bytes |
| Formats.CertificateVerifyLayout | src/handshake/server.c:180-185 | 0x0403, the length, and the signature |
| Formats.CertificateVerifyParsed | src/handshake/messages.c:187-200 | accepted only if nothing follows the signature |
| Formats.SignedContentLayout | src/handshake/messages.c:202-219 | 64 spaces, the server's context string, a zero byte and the hash |
| Formats.SignedHashMeans | src/handshake/messages.c:221-233 | what is signed is the hash of that content over the transcript's hash |
| Hello.SerializeClientHello | src/handshake/hello.c:66-138 | the whole ClientHello, exactly when the capacity covers it |
| Hello.SerializeServerHello | src/handshake/hello.c:140-180 | the whole ServerHello, exactly when the capacity covers it |
| Hello.FindExtension | src/handshake/hello.c:224-241 | the first extension of the kind, a malformed block ending the scan |
| Hello.FindStep | src/handshake/hello.c:224-241 | an extension at the front is found or passed over |
| Hello.ReadServerHello | src/handshake/hello.c:243-295 | the parser with its error codes |
| Hello.ReadClientHello | src/handshake/hello.c:297-394 | the parser with its three scans and its error codes |
| Hello.ReadSuites | src/handshake/hello.c:319-329 | the suite list must be whole and contain the one suite |
| Hello.ReadVersions | src/handshake/hello.c:345-357 | the version list must be whole and contain DTLS 1.3 |
| Hello.ReadLastShare | src/handshake/hello.c:375-390 | the last x25519 share of a well-formed list |
| Hello.ServerHelloRoundTrip | src/handshake/hello.c:140-295 | the client reads back the server's random, suite and share |
| Hello.ClientHelloRoundTrip | src/handshake/hello.c:66-394 | the server reads back the client's random and share |
| Formats.ClientHelloLayout | src/handshake/hello.c:66-138 | the whole ClientHello byte by byte |
| Formats.ServerHelloLayout | src/handshake/hello.c:140-180 | the whole ServerHello byte by byte |
| Formats.FoundFirst | src/handshake/hello.c:224-241 | before the extension that is found stand only well-formed extensions of other kinds |
| Formats.ServerHelloParsed | src/handshake/hello.c:243-295 | a ServerHello is accepted only with DTLS 1.3 as its first version and a 32-byte x25519 share at the front of its first key share |
| Formats.ClientHelloParsed | src/handshake/hello.c:297-394 | a ClientHello is accepted only with 0x1303 among its suites and DTLS 1.3 among its versions, and its key is the last 32-byte x25519 share of its list |
| Asn1.ParseTlv | src/x509/asn1.c:4-33 | what parses lies inside the buffer behind a header of at least two bytes |
| Asn1.ParseTlvFrom | src/x509/asn1.c:4-33 | the 64-bit length accumulates without loss and the wrap guard misses nothing |
| Asn1.TlvRoundTrip | src/x509/asn1.c:4-33 | a value of any length parses back behind any of its length forms |
| Asn1.Reader.Next | src/x509/asn1.c:43-49 | moves past exactly what it returns, strictly forward, never past the end |
| Asn1.Walk | src/x509/asn1.c:35-49 | on any buffer repeated steps tile the consumed prefix exactly |
| Asn1.ReadUint | src/x509/asn1.c:51-75 | the unsigned integer left-padded to the width, with every error case |
| Asn1.DerEncode | src/x509/asn1.c:94-106 | minimal contents with a zero before a set top bit |
| Asn1.ReadEncoded | src/x509/asn1.c:51-106 | reading undoes encoding for every 32-byte value |
| Asn1.EncodedMeans | src/x509/asn1.c:94-106 | tag, length and the number itself: never negative, no byte more than DER allows |
| Asn1.ReadMeans | src/x509/asn1.c:51-75 | an integer is read if and only if it is not negative and fits, and is then that number |
| Asn1.SignatureMeans | src/handshake/messages.c:235-252 | a signature is read only from a SEQUENCE that begins with two INTEGERs, and is their values |
| Asn1.WriteEcdsaSig | src/x509/asn1.c:108-124 | the SEQUENCE of both integers, or BAD_LENGTH |
| Asn1.ReadEcdsaSig | src/handshake/messages.c:235-252 | taking a signature apart with the reader |
| Asn1.SigRoundTrip | src/x509/asn1.c:4-124 | for all r and s the writer refuses only a buffer that is too small, and what it writes reads back |
| Handshake.ClientHelloFits | src/handshake/client.c:87-113 | building the first flight never fails |
| Handshake.IsZero | src/handshake/client.c:163-168 | the loop finds out whether the shared secret is all zero |
| Handshake.VerifyBody | src/handshake/server.c:159-186 | a built CertificateVerify body fits the 84 bytes reserved for it |
| HandshakeWire.HelloAccepted | src/handshake/server.c:64-82 | the server accepts this client's hello and reads its share out of it |
| HandshakeWire.ServerHelloTaken | src/handshake/client.c:151-178 | the client derives from the server's hello the keys and transcript the server has, or both see an all-zero secret |
| HandshakeWire.PlainDoesNotOpen | src/record.c:55-62 | a stale hello fails the unified-header test whatever the read state |
| HandshakeWire.RecordIsNotPlain | src/handshake/client.c:39-57 | a protected record is never taken for a plaintext handshake record |
| HandshakeWire.SealedOpens | src/handshake/client.c:63-78 | any record of the flight opens for a client at any point of it, to its own message |
| HandshakeWire.EmitHolds | src/handshake/server.c:36-48 | sending and the transcript move together: record i carries message i, and the transcript is the hello and the messages so far |
| HandshakeWire.PlanIsShaped | src/handshake/server.c:132-202 | however far the server gets, what it sent is the four kinds in order, and its snapshots are the transcripts after the second, third and fourth |
| HandshakeRun.FirstAnswer | src/handshake/client.c:133-178 | whatever arrives first, the client has the server's keys and transcript, or retries, or fails |
| HandshakeRun.NextMessage | src/handshake/client.c:182-246 | a message is accepted at a stage only if it is that stage's, and adds exactly itself |
| HandshakeRun.LaterAnswer | src/handshake/client.c:182-246 | every later datagram keeps the client in step with the server's flight or makes it fail; none alone makes it done |
| HandshakeRun.StepInv | src/handshake/client.c:80-274 | every step of either end or of the network keeps the invariant |
| HandshakeRun.Reachable | src/handshake/server.c:50-245 | the invariant holds after every run |
| HandshakeRun.FollowedAgrees | src/handshake/client.c:233-252 | a client that has taken the whole flight holds the server's keys and all four hashed transcripts |
| HandshakeRun.Agreement | src/handshake/client.c:80-274 | under any loss, reordering and repetition, if both ends finish they hold equal keys and hashed the same transcript at each of the four snapshots |
| HandshakeProgress.FinishedAccepted | src/handshake/server.c:229-244 | the client's Finished completes the server's handshake |
| HandshakeProgress.StaleSkipped | src/handshake/server.c:219-229 | a stale hello costs one receive and leaves session and read state alone |
| HandshakeProgress.AlwaysCounted | src/handshake/client.c:134-150 | after every run, hellos in flight and hellos taken are at most hellos sent and repeated |
| HandshakeProgress.FinishedReached | src/handshake/server.c:219-244 | with fewer than four repeats at most seven stale hellos come in between, no delivery makes the waiting server give up, and the client's Finished completes it |
| HandshakeSafety.TakesEarned | src/handshake/client.c:133-246 | a datagram, whoever sent it, moves the client on only if it carries that stage's message and that message passed its check |
| HandshakeSafety.ClientAuthenticates | src/handshake/client.c:80-274 | the last five datagrams of a client that finished are a ServerHello with whose key it shares a nonzero secret, EncryptedExtensions, a Certificate whose chain verified with the leaf it reports, a CertificateVerify with that leaf's signature over everything up to the Certificate, and a Finished that is the MAC of everything before it; the four hashed transcripts are its own hello and exactly these messages |
| HandshakeSafety.PlaintextMeans | src/handshake/client.c:39-57 | a plaintext handshake message is accepted if and only if the record parses, its type is 22 and the header inside parses |
| HandshakeSafety.ProtectedMeans | src/handshake/client.c:63-78 | the same for what a protected record opens to |
| HandshakeSafety.GreetsIff | src/handshake/client.c:151-180 | a ServerHello is taken if and only if every check on it passes, and gives exactly this session |
| HandshakeSafety.AnnouncesIff | src/handshake/client.c:182-192 | the same for EncryptedExtensions |
| HandshakeSafety.CertifiesIff | src/handshake/client.c:194-216 | the same for Certificate |
| HandshakeSafety.SignsIff | src/handshake/client.c:218-234 | the same for CertificateVerify |
| HandshakeSafety.ConfirmsIff | src/handshake/client.c:236-250 | the same for the server's Finished |
| HandshakeSafety.ClientFinishesIff | src/handshake/client.c:80-274 | for all outcomes: the client finishes if and only if one of its first five hellos is sent and answered with a plaintext handshake record, that record and the next four datagrams pass every check, and its own Finished is sent |
| HandshakeSafety.KeysBind | src/handshake/client.c:170-175 | sessions with equal traffic secrets share the secret and the hash of both hellos, unless the MAC collides |
| Formats.ClientFinishedLayout | src/handshake/client.c:248-268 | the client's Finished byte by byte and the record it is sent in |
| Formats.PlainLayout | src/handshake/server.c:102-112 | the record around a hello, byte by byte |
| Formats.FramedLayout | src/handshake/server.c:18-30 | an unfragmented handshake message, byte by byte |
| HandshakeSafety.ServerFinishesIff | src/handshake/server.c:50-245 | for all outcomes: the server finishes if and only if its first datagram is a hello it can answer in full, every send succeeds, and within the next eight receives, after only datagrams that do not open, comes the client's MAC of the transcript of that answer |
| HandshakeSafety.WaitEnds | src/handshake/server.c:215-244 | the bounded wait succeeds exactly when the Finished comes in time, and ends with it |
| HandshakeSafety.ServerAuthenticates | src/handshake/server.c:50-245 | the first datagram of a server that finished is a hello it answered under a nonzero secret, and the last one it received is the client's MAC of exactly the transcript of that answer |
| HandshakeComplete.CompleteBodies | src/handshake/server.c:137-198 | the bodies of a complete flight, each over the transcript before it |
| HandshakeComplete.EmitGoes | src/handshake/server.c:36-48 | a message is sent if and only if its body was built and has at most 2035 bytes |
| HandshakeComplete.VerifyBodyIff | src/handshake/server.c:171-187 | CertificateVerify is built if and only if the signer succeeds: every signature fits its 80 bytes |
| HandshakeComplete.PlanCompletes | src/handshake/server.c:137-198 | the flight is built in full if and only if there are one to four certificates, their message has at most 2035 bytes, and the signer succeeds on the transcript up to Certificate |
| HandshakeComplete.AnsweredInFullIff | src/handshake/server.c:58-198 | any datagram is answered in full if and only if it is a whole ClientHello that parses, the shared secret is not all zero, and that condition holds |
| HandshakeComplete.SignatureChecks | src/handshake/messages.c:221-255 | the client's check is the signature check on exactly what the server signed |
| HandshakeComplete.Hears | src/handshake/client.c:134-247 | each datagram of the flight is accepted in its turn |
| HandshakeComplete.Completes | src/handshake/client.c:80-274 | when the secret is not all zero, the server's certificates fit, its signer succeeds and the client accepts chain and signature, an undisturbed run ends with both sides done |
| EndToEnd.SignatureAccepted | src/handshake/messages.c:221-255 | with ECDSA on both sides, whatever the server signs a client with its public key accepts |
| EndToEnd.HandshakeCompletes | src/handshake/client.c:80-274 | with X25519 and ECDSA in it the handshake completes for all private keys, hellos and presentable chains, neither agreement nor the signature's validity being assumed |
| HandshakeComplete.FourRepeatsExhaust | src/handshake/server.c:219-230 | with four repeats there is a run in which the client is done and its Finished is on its way to a server whose wait stale hellos have used up |
| Sockets.Socket.Send | src/handshake/client.c:140-144 | one send with its given outcome |
| Sockets.Socket.Recv | src/handshake/server.c:221-225 | one receive with its given outcome |
| Client.RunEnds | src/handshake/client.c:134-271 | every run of the client ends after at most fifteen calls |
| Client.ReceiveHandshake | src/handshake/client.c:63-78 | one datagram received, opened and parsed |
| Client.ReceiveReply | src/handshake/client.c:39-57 | one plaintext handshake record received and parsed |
| Client.ExchangeHello | src/handshake/client.c:133-150 | the retransmission loop does what the machine does with the same outcomes |
| Client.StartSession | src/handshake/client.c:151-175 | the handshake secret, both traffic secrets, both directions' keys and the transcript after ServerHello |
| Client.TakeServerExtensions | src/handshake/client.c:182-192 | EncryptedExtensions, with transcript and read state as the machine has them |
| Client.TakeServerCertificate | src/handshake/client.c:194-212 | Certificate, likewise |
| Client.TakeServerVerify | src/handshake/client.c:214-230 | CertificateVerify, checked over the snapshot taken before it |
| Client.TakeServerFinished | src/handshake/client.c:232-246 | the server's Finished, likewise |
| Client.BuildFinished | src/handshake/client.c:248-267 | the client's Finished record |
| Client.ClientHandshake | src/handshake/client.c:80-274 | the blocking client sends what the machine sends and returns what it ends with, for all outcomes |
| Server.RunEnds | src/handshake/server.c:50-245 | every run of the server ends after at most fourteen calls |
| Server.Accept | src/handshake/server.c:64-82 | a ClientHello checked, added to the transcript and parsed |
| Server.BuildHello | src/handshake/server.c:84-111 | the ServerHello datagram, which always fits |
| Server.BuildProtected | src/handshake/server.c:36-48 | one message wrapped, added and protected |
| Server.SendMessage | src/handshake/server.c:36-48 | the same and sent, as the machine's next step |
| Server.BuildVerify | src/handshake/server.c:159-186 | the signed CertificateVerify body |
| Server.AwaitFinished | src/handshake/server.c:200-244 | the bounded wait does what the machine does with the same outcomes |
| Server.CheckClientFinished | src/handshake/server.c:231-241 | the checks on what opened |
| Server.ServerHandshake | src/handshake/server.c:50-245 | the blocking server sends what the machine sends and returns what it ends with, for all outcomes |

## Left out

- The ChaCha20 quarter rounds, SHA-256 compression rounds and HMAC pads: straight-line code with no deep property; they are function parameters.
- X.509 field walking, OID tables, time parsing and chain building (src/x509/x509.c): shallow over the TLV reader; a function parameter.
- ACK records (src/ack.c), which the handshake never sends or reads; the BIT STRING reader, which only certificate parsing uses; and `bn_to_bytes_be`, which verification does not use.
- Sockets, the OS random source, demos, benchmarks, fuzz drivers and board code.
- Constant-time claims: the masked swap and the accumulating comparisons are modelled step by step, but not how long they take.
- Cryptographic hardness: against datagrams that someone makes up, only which checks passed is claimed, not that nobody else could pass them.
- Primality of the two field primes, Fermat's theorem, the order of the base point and associativity of the two curves' groups: hypotheses, as listed above.
- Randomness of the signing nonce and its rejection loop: `EcdsaLaw.Sign` is the signature for a given nonce.
- Null-pointer checks: references in the model are never null.
- Aliasing of C buffers that are input and output at once: values are passed in and results returned.
- Bitwise or of fields that share no bit is modelled as addition.
- The datagram buffers' size: a received datagram longer than 4096 bytes, which neither end sends, is handed on whole.
- Reassembly.Reassembler.AddFragment: requires that the 32-bit end of the fragment compares like the true one, because beyond that the C code has no defined behaviour to model; `EndExactIff` says exactly which headers that leaves out, and none of them can come from the header parser.
- Asn1.WriteEcdsaSig: the body-longer-than-127 refusal is not a branch of the model, because the body is at most 70 bytes.
- Reconstruct.ReconstructSequence: signed overflow, which only references within one window of 2^63 reach, is taken to wrap.
- ModExp.ModInv: requires a positive modulus; there is no remainder modulo 0.
- Sockets.Socket.Send: the outcome of a send is a given function of the call's number; the socket, the peer address and the network are not modelled.
- Sockets.Socket.Recv: likewise for a receive; the timeout is one of the given outcomes.
