# A verified model of rust-bitcoin's arithmetic, codec and streaming cores

This Dafny project models the parts of rust-bitcoin in which an optimised form has to agree with a
simple mathematical one, and proves that it does.

- **Poly1305** (`Poly1305Spec`, `Poly1305Limbs`, `Poly1305Final`, `Poly1305`): five 26-bit limbs, lazy
  carries and a buffered `input` against the polynomial of section 2.5 of RFC 8439.
- **ChaCha20 and the AEAD** (`ChaCha20Spec`, `ChaCha20`, `Aead`): the block function on vectors of four
  words against the scalar quarter rounds of sections 2.1 to 2.4 of RFC 8439, a keystream with a
  position, and encryption with a tag as in section 2.8.
- **256-bit integers** (`U256`, `U256Arith`, `U256Text`, `U256Float`): two 128-bit words against the
  numbers they stand for: division, multiplication with exact overflow, inversion, decimal text and
  correctly rounded conversion to binary64.
- **Compact block filters** (`Bits`, `BitStream`, `Sorting`, `GolombRice`, `Bip158`): bit streams,
  Golomb-Rice codes, filter construction and one-pass matching.
- **Base58** (`Radix`, `Base58`, `Base58Check`): in-place radix conversion both ways, its two capacity
  formulas, and the checksummed form.
- **Difficulty** (`Retarget`, `Pow`): the retarget arithmetic and the next-target rule over whole chains.
- **Extended keys** (`Bip32`, `Bip32Path`, `Bip32Text`): derivation runs, the 78-byte encoding, path
  syntax and base58check text.
- **Streaming cores** (`CompactSize`, `HashEngine`, `BlockLocator`): the variable-length integer and its
  two reading loops, the hash-engine block buffer, and the block locator.

`Words` holds machine words as bounded integers (an assignment to a `u32` is a proof that nothing
overflowed), bitwise operators as functions on naturals, and little-endian numbers; `DecimalText` holds
decimal numbers and `Wrappers` the result types.

Methods whose source updates state in place are Dafny classes and methods over arrays, sequences and
sets, each proved equal to a function of its inputs or of the old state. The lemmas beside them prove
what the source promises about that function.

## Where the code and its documentation part

- `Base58CkString::encode_unbounded` is documented as unable to fail (`base58/src/lib.rs:171-217`). For a
  payload of 94 bytes the 137/100 formula reserves 128 places, and some payloads need 129: the `expect`
  then panics. `Base58Check.EncodeUnbounded` returns `None` exactly for those payloads
  (`Base58Check.Overlong`), and `Base58Check.OverlongByFirstBytes` says what the first bytes of the data
  tell a caller: 57 or more in the first byte forces the panic, and so does a zero byte followed by 250
  or more.
- `U256::from_str` parses chunks of 38 bytes with the standard parser, which accepts a plus sign. A plus
  sign can therefore open any chunk, also in the middle of the text (`U256Text.PlusInside`).
  `U256Text.AcceptedStrings` gives the exact set of strings that parse.
- `is_retarget_height` says that the height ends a difficulty period (`bitcoin/src/pow.rs:273`); a
  multiple of the interval is the first height of a period, and that is how the rule uses it.

## Model

| member | source | states |
|---|---|---|
| Poly1305.ClampLimbsCorrect | chacha20_poly1305/src/poly1305.rs:33-53 | cutting the key into limbs with four masks clears exactly the bits that clamping the bytes clears, and the five limbs make up that number |
| Poly1305.Poly1305.constructor | chacha20_poly1305/src/poly1305.rs:33-53 | a new authenticator is valid and has absorbed nothing |
| Poly1305Limbs.CarryKeepsValue | chacha20_poly1305/src/poly1305.rs:198-205 | moving carries up the limbs keeps the number they stand for |
| Poly1305Limbs.FieldProduct | chacha20_poly1305/src/poly1305.rs:186-194 | the five column sums, with limbs past 2^130 coming back times 5, are the product modulo 2^130 - 5 |
| Poly1305Limbs.ColumnsBound | chacha20_poly1305/src/poly1305.rs:186-194 | no column sum reaches the width of the 64-bit accumulator, so no multiplication or addition overflows |
| Poly1305.Poly1305.RTimesA | chacha20_poly1305/src/poly1305.rs:186-210 | multiplies the accumulator by r modulo 2^130 - 5 and leaves every limb below 2^26 except the second, which stays below 2^26 + 64 |
| Poly1305.Poly1305.Input | chacha20_poly1305/src/poly1305.rs:69-111 | for every split of a message over calls the authenticator has absorbed the concatenation |
| Poly1305.Poly1305.AddBlock | chacha20_poly1305/src/poly1305.rs:92-103 | one padded block takes the accumulator h to (h + block) * r modulo 2^130 - 5 |
| Poly1305Final.FullyCarriedKeepsValue | chacha20_poly1305/src/poly1305.rs:131-139 | masking every limb at once before the tag drops no carry, given the limb invariant |
| Poly1305Final.MinusPCorrect | chacha20_poly1305/src/poly1305.rs:140-155 | the sign bit of the wrapped top limb is clear exactly when the accumulator was at least 2^130 - 5, and the chosen value is the fully reduced one |
| Poly1305Final.PackWordsCorrect | chacha20_poly1305/src/poly1305.rs:156-161 | the four or-ed 32-bit words are the accumulator modulo 2^128 |
| Poly1305Final.LowWordsCorrect | chacha20_poly1305/src/poly1305.rs:162-172 | carrying over 32-bit words and cutting them off is the sum modulo 2^128 |
| Poly1305.Poly1305.FinishTag | chacha20_poly1305/src/poly1305.rs:131-180 | the final carry, conditional subtraction and key addition write the low 128 bits of h + s |
| Poly1305.Poly1305.Tag | chacha20_poly1305/src/poly1305.rs:119-180 | the tag is the RFC 8439 authenticator of everything absorbed |
| Poly1305Spec.AccumulateIsPolynomial | chacha20_poly1305/src/poly1305.rs:69-111 | absorbing blocks one after the other evaluates the polynomial whose coefficients are the padded blocks |
| Poly1305Spec.MacIsPolynomial | chacha20_poly1305/src/poly1305.rs:119-180 | the tag as a number is (polynomial at clamped r modulo 2^130 - 5, plus s) modulo 2^128 |
| ChaCha20Spec.RotLIsMultiplication | chacha20_poly1305/src/chacha20.rs:81-87 | rotating a word by n bits multiplies it by 2^n modulo 2^32 - 1 |
| ChaCha20Spec.WordAtBytes | chacha20_poly1305/src/chacha20.rs:155-166 | key and nonce words are read least significant byte first |
| ChaCha20.LaneIsQuarter | chacha20_poly1305/src/chacha20.rs:180-193 | each lane of the vectorised quarter round is the scalar quarter round of section 2.1 of RFC 8439 |
| ChaCha20.DoubleRoundIsStandard | chacha20_poly1305/src/chacha20.rs:206-223 | the double round with rotated rows is four column rounds followed by four diagonal rounds |
| ChaCha20.State.constructor | chacha20_poly1305/src/chacha20.rs:153-176 | the starting state is the constants, key, counter and nonce words of section 2.3 of RFC 8439 |
| ChaCha20.State.ChachaBlock | chacha20_poly1305/src/chacha20.rs:227-238 | the state becomes itself plus ten double rounds of itself |
| ChaCha20.State.Keystream | chacha20_poly1305/src/chacha20.rs:242-248 | the 64 bytes are the little-endian words in order |
| ChaCha20.ChaCha20.constructor | chacha20_poly1305/src/chacha20.rs:269-273 | a cipher made from a seek position stands at that byte of the keystream |
| ChaCha20.ChaCha20.FromBlock | chacha20_poly1305/src/chacha20.rs:276-278 | a cipher made from a block stands at the first byte of that block |
| ChaCha20.ChaCha20.KeystreamAtBlock | chacha20_poly1305/src/chacha20.rs:283-287 | the bytes of a block are those of the RFC 8439 block function |
| ChaCha20.ChaCha20.ApplyKeystream | chacha20_poly1305/src/chacha20.rs:295-339 | from any position, the buffer is combined with the keystream from that position on and the position 64 * block + offset advances by exactly its length |
| ChaCha20.ChaCha20.Seek | chacha20_poly1305/src/chacha20.rs:349-352 | the position becomes the given byte |
| ChaCha20.ChaCha20.ToBlock | chacha20_poly1305/src/chacha20.rs:355-358 | the position becomes the start of the given block |
| ChaCha20Spec.XorStreamConcat | chacha20_poly1305/src/chacha20.rs:295-339 | applying the keystream over any split of a buffer is applying it once |
| ChaCha20Spec.XorStreamTwice | chacha20_poly1305/src/chacha20.rs:295-339 | applying the keystream twice from the same position restores the data |
| Aead.ConstantTimeEq | chacha20_poly1305/src/lib.rs:147-153 | the accumulated difference is zero exactly when the tags are equal |
| Aead.InputPadded | chacha20_poly1305/src/lib.rs:73-84 | a slice and its zero padding are what the authenticator absorbs |
| Aead.ChaCha20Poly1305.Authenticate | chacha20_poly1305/src/lib.rs:60-91 | the tag is Poly1305 under the first half of block 0 over padded data, padded ciphertext and both lengths |
| Aead.ChaCha20Poly1305.Encrypt | chacha20_poly1305/src/lib.rs:56-92 | content becomes the keystream from block 1 on combined with it, and the tag is over that ciphertext |
| Aead.ChaCha20Poly1305.Decrypt | chacha20_poly1305/src/lib.rs:100-142 | succeeds exactly on the right tag, restoring the content, and leaves the buffer unchanged otherwise |
| Aead.ChaCha20Poly1305.RoundTrip | chacha20_poly1305/src/lib.rs:56-142 | decrypting after encrypting with the returned tag succeeds and restores the content |
| Aead.ContentStream | chacha20_poly1305/src/lib.rs:57-58 | content byte i is combined with keystream byte 64 + i, so none uses the block of the one-time key |
| Aead.MacDataLayout | chacha20_poly1305/src/lib.rs:72-90 | what the tag covers, position by position, with the length of the associated data before that of the ciphertext |
| Aead.OpenIffSealed | chacha20_poly1305/src/lib.rs:56-142 | a ciphertext and tag open to some content exactly when they are what sealing that content makes |
| U256.OverflowingAddCorrect | include/u256.rs:189-206 | the words are the sum modulo 2^256 and the flag says exactly when it wrapped |
| U256.OverflowingSubCorrect | include/u256.rs:213-217 | adding the complement and one is subtraction modulo 2^256, flagged exactly when the subtrahend is larger |
| U256.WrappingIncCorrect | include/u256.rs:273-283 | incrementing wraps only at the largest value |
| U256.WrappingShlCorrect | include/u256.rs:292-309 | shifting left multiplies by a power of two modulo 2^256 |
| U256.WrappingShrCorrect | include/u256.rs:318-335 | shifting right is floor division by a power of two |
| U256.BitsCorrect | include/u256.rs:108-114 | the word-by-word count is the bit length of the number |
| U256.LessCorrect | include/u256.rs:12-13 | the derived lexicographic order is the order of the numbers |
| U256Arith.MulU64 | include/u256.rs:122-138 | the product with a word modulo 2^256, flagged exactly when 256 bits do not hold it; the inner step never leaves 128 bits |
| U256Arith.DivRem | include/u256.rs:150-182 | the one quotient and remainder with remainder below the divisor, for every non-zero divisor |
| U256Arith.OverflowingMul | include/u256.rs:225-244 | the product modulo 2^256, and the three overflow sources together flag exactly the products of 2^256 or more |
| U256Arith.Inverse | include/u256.rs:63-80 | floor of 2^256 / (x + 1) for every x from 2 on, and the largest value for 0 and 1 |
| U256Arith.InverseAntitone | include/u256.rs:63-80 | a larger argument never has the larger inverse |
| U256Arith.InverseInvolution | include/u256.rs:63-80 | inverting twice is the identity from 2 up to 2^128 |
| DecimalText.Ascii | include/u256.rs:339-358 | digits are the ASCII digits with their values |
| U256Text.ParseChunk | include/u256.rs:540-542 | a chunk parses exactly when it is an optional plus sign and digits, and 38 digits always fit 128 bits |
| U256Text.FromStr | include/u256.rs:530-554 | the chunk loop judges the value of all chunks before the first bad one against 2^256, then the bad chunk |
| U256Text.ParseDigits | include/u256.rs:530-554 | a non-empty digit string fails with Overflow exactly when its value is 2^256 or more, and otherwise gives that value |
| U256Text.AcceptedStrings | include/u256.rs:530-554 | the exact set of strings that parse, and the value they get |
| U256Text.PlusInside | include/u256.rs:537-542 | a plus sign between digits is accepted at a chunk boundary and read as a zero |
| U256Text.FmtDecimal | include/u256.rs:339-358 | writes the decimal digits without leading zeros and never runs below index 0 of its 78-byte buffer |
| U256Text.Display | include/u256.rs:454-462 | every number prints as its decimal digits, zero as one digit |
| U256Text.ParseOfDisplay | include/u256.rs:339-358 | parsing after printing is the identity on all 256-bit integers |
| U256Float.SplitAt203 | include/u256.rs:370-381 | the 53-bit mantissa is the quotient by 2^203 of the left-aligned number, and the folded dropped bits compare with one half as its remainder does |
| U256Float.RoundedValue | include/u256.rs:382-389 | the branch-free expression adds one exactly above one half, or at one half with an odd mantissa |
| U256Float.ToF64IsNearest | include/u256.rs:362-395 | for every integer, zero included, the bits are those of the nearest binary64 value with ties to even |
| U256Float.NearestMono | include/u256.rs:362-395 | nearest-even rounding keeps the order, so the nearest value is unique |
| U256Float.ToF64Monotone | include/u256.rs:362-395 | the conversion is monotone |
| U256Float.ToF64Exact | include/u256.rs:362-395 | an integer that binary64 can hold converts to itself |
| U256Float.ToF64RoundsTo2To256 | include/u256.rs:390-394 | the mantissa overflows into the exponent exactly from 2^256 - 2^202 on, giving the bits of 2^256 |
| BitStream.BitStreamWriter.Write | bitcoin/src/bip158.rs:468-486 | appends the low bits of the data to what was written, most significant first, refuses more than 64, and counts the bytes that reached the writer |
| BitStream.BitStreamWriter.Flush | bitcoin/src/bip158.rs:489-498 | pads with zero bits to the next byte and returns how many bytes it wrote |
| BitStream.BitStreamReader.Read | bitcoin/src/bip158.rs:433-453 | returns the next bits as a number, or an end-of-file error exactly when fewer are left |
| BitStream.ReadBack | bitcoin/src/bip158.rs:433-486 | reading a value back under its width gives its low bits |
| BitStream.RunReadsBack | bitcoin/src/bip158.rs:433-486 | any run of writes reads back under the same widths, whatever padding follows |
| GolombRice.Encode | bitcoin/src/bip158.rs:371-389 | writes the code of every number for parameters up to 63, quotients of any size included, and counts the bytes |
| GolombRice.Decode | bitcoin/src/bip158.rs:392-402 | reads exactly one code or fails at the end of the stream |
| GolombRice.DecodeCode | bitcoin/src/bip158.rs:371-402 | a coded number at the front of a stream decodes to itself and leaves the rest |
| GolombRice.CodesDecode | bitcoin/src/bip158.rs:371-402 | any sequence of 64-bit numbers decodes to itself |
| Bip158.MapToRangeExact | bitcoin/src/bip158.rs:307 | the mapped hash r is the one with r * 2^64 <= hash * nm < (r + 1) * 2^64 |
| Bip158.MapToRangeMonotone | bitcoin/src/bip158.rs:307 | mapping into the range keeps the order of the hashes |
| Bip158.GcsFilterWriter.AddElement | bitcoin/src/bip158.rs:324-328 | empty elements are dropped and duplicates kept once |
| Bip158.GcsFilterWriter.Finish | bitcoin/src/bip158.rs:331-356 | the bytes written are the count and the coded differences of the sorted mapped hashes, and the returned count is their number |
| Bip158.OrderIrrelevant | bitcoin/src/bip158.rs:331-343 | the filter depends on the set of elements only |
| Bip158.MergeAny | bitcoin/src/bip158.rs:236-257 | the single pass over two sorted lists finds a common value exactly when there is one |
| Bip158.MergeAll | bitcoin/src/bip158.rs:281-302 | the single pass finds every query exactly when all are there |
| Bip158.MatchAny | bitcoin/src/bip158.rs:217-258 | on a filter of some hashes the answer is whether some mapped query is among them, empty filter and empty query included |
| Bip158.MatchAll | bitcoin/src/bip158.rs:261-303 | the answer is whether all mapped queries are among them, true for no query |
| Bip158.FilterAnswers | bitcoin/src/bip158.rs:217-356 | on what was written for a set, matching compares mapped hashes of queries with those of the elements |
| Bip158.NoFalseNegative | bitcoin/src/bip158.rs:217-356 | an inserted element is never missed |
| Radix.ConvertInverse | base58/src/lib.rs:90-126 | converting digits to another radix and back is the identity and keeps the number of leading zeros |
| Radix.StrippedDigits | base58/src/lib.rs:120-124 | dropping the zero top bytes of the fixed-width scratch space leaves exactly the digits of its number |
| Base58.Alphabet | base58/src/lib.rs:29-82 | the two tables are inverse to each other |
| Base58.AlphabetExact | base58/src/lib.rs:29 | the alphabet is the ASCII digits and letters in order, without 0, O, I and l |
| Base58.CapacitySuffices | base58/src/lib.rs:91-92 | 58^k never exceeds 256^(1 + 11k/15), so the reserved scratch space holds k digits |
| Base58.MulAdd | base58/src/lib.rs:110-116 | one pass multiplies the scratch number by 58 and adds a digit, and nothing is carried out |
| Base58.Decode | base58/src/lib.rs:90-126 | decodes every string over the alphabet for any capacity the allocator grants, and names the first byte that is not in it |
| Base58.DecodeEncode | base58/src/lib.rs:90-126 | decoding undoes encoding on every byte string |
| Base58.EncodeDecode | base58/src/lib.rs:90-126 | encoding undoes decoding on every string over the alphabet, and no other string decodes |
| Base58.LeadingOnes | base58/src/lib.rs:298-333 | leading zero bytes match leading ones in number, and no other top digit is zero |
| Base58Check.Buffer.TryPush | base58/src/lib.rs:264-295 | a bounded buffer refuses exactly the byte that does not fit |
| Base58Check.Buffer.Absorb | base58/src/lib.rs:304-324 | one input byte multiplies the little-endian digits by 256 and adds it, failing exactly when the new digits do not fit |
| Base58Check.EncodeToBuffer | base58/src/lib.rs:298-333 | writes the encoding, and fails exactly when the buffer cannot hold it |
| Base58Check.EncodeUnbounded | base58/src/lib.rs:202-217 | gives the encoding of data and checksum, small up to 90 bytes; panics exactly on the overlong payloads |
| Base58Check.EncodeWithoutAlloc | base58/src/lib.rs:187-197 | fails exactly when the encoding is longer than 128 characters |
| Base58Check.ShortEncoding | base58/src/lib.rs:202-216 | payloads of up to 93 bytes always fit 128 characters, and 94 bytes unless their number is too large |
| Base58Check.OverlongByFirstBytes | base58/src/lib.rs:202-216 | which first bytes of a 94-byte payload force or exclude the panic |
| Base58Check.DecodeCheck | base58/src/lib.rs:135-151 | names the bad character, the short length or both checksums, and otherwise strips the checksum |
| Base58Check.EncodesDataAndHash | base58/src/lib.rs:202-217 | the text decodes to the data followed by the first four bytes of its double hash |
| Base58Check.CheckedIff | base58/src/lib.rs:135-217 | a string decodes to some data exactly when it is the checksummed encoding of that data |
| Retarget.MaxThresholdValue | bitcoin/src/pow.rs:178-197 | the upper threshold is four times the target modulo 2^256, or the limit if that is lower |
| Retarget.MinThresholdValue | bitcoin/src/pow.rs:166-168 | the lower threshold is a quarter of the target |
| Retarget.FromNextWorkRequired | bitcoin/src/pow.rs:305-329 | word multiplication, long division and the comparison give the least of the scaled target, four times the old one and the limit, all modulo 2^256; with every product in range that is the old target scaled by the timespan, held between a quarter and four and under the limit; without retargeting the bits stay |
| Retarget.NextTargetInRange | bitcoin/src/pow.rs:305-329 | when the largest product fits, the discarded overflow flag is false and the target is min(floor(prev * clamp(t) / T), 4 * prev, limit) |
| Retarget.NextTargetExact | bitcoin/src/pow.rs:316-328 | with T / 4 and 4T written out: inside that range the floor of prev * timespan / T, below it that of prev * (T / 4) / T, above it 4 * prev, each capped by 4 * prev and the limit |
| Retarget.NextTargetBounds | bitcoin/src/pow.rs:166-197 | a retarget stays between the two transition thresholds |
| Retarget.NextTargetMonotone | bitcoin/src/pow.rs:305-329 | a longer timespan never gives a lower target |
| Pow.FromHeaderDifficultyAdjustment | bitcoin/src/pow.rs:349-366 | the timespan is between the two headers and the old bits come from the first one under BIP 94, from the last one otherwise |
| Pow.WalkBack | bitcoin/src/pow.rs:247-258 | the walk returns the bits of the nearest block at which it must stop, or the first failed lookup |
| Pow.NextTargetAfter | bitcoin/src/pow.rs:220-271 | inside a period: the limit for a block more than two spacings late, otherwise the walk back, which stops at once on other bits; unchanged bits without least-difficulty blocks; at its end the retarget; and failed lookups |
| Pow.PeriodInvariant | bitcoin/src/pow.rs:220-276 | on every chain built by the rule with least-difficulty blocks, each block carries the limit or its period's first bits, and walking back from it finds those first bits |
| Pow.LateOrFirst | bitcoin/src/pow.rs:236-260 | on such a chain a block inside a period carries the limit when it comes more than two spacings after the one before it, and its period's first bits otherwise |
| Pow.ConstantPeriod | bitcoin/src/pow.rs:220-276 | without least-difficulty blocks the bits never change inside a period |
| Pow.NewPeriod | bitcoin/src/pow.rs:262-270 | a period starts from the first block of the period before it under BIP 94, otherwise from its last, over a timespan one block short |
| Pow.Bip94Determined | bitcoin/src/pow.rs:349-366 | under BIP 94 the next target depends only on the period's first bits and its timespan |
| Bip32.ChildBits | key_expression/src/bip32.rs:277-283 | the masks split a raw child number into index and hardened flag |
| Bip32.IncrementCorrect | key_expression/src/bip32.rs:290-298 | incrementing adds one, fails at index 2^31 - 1 and never crosses between normal and hardened |
| Bip32.DeriveXpriv | key_expression/src/bip32.rs:785-794 | the loop derives child after child and stops at the first failure |
| Bip32.DeriveXpub | key_expression/src/bip32.rs:940-946 | the loop derives child after child and stops at the first failure |
| Bip32.PrivChildOfBip32 | key_expression/src/bip32.rs:797-826 | what the HMAC of a child covers, hardened or not, byte by byte, and which halves give the tweak and the chain code; fingerprint, child number and depth |
| Bip32.PubChildOfBip32 | key_expression/src/bip32.rs:954-1005 | the same for public derivation, which refuses hardened numbers |
| Bip32.MasterOfBip32 | key_expression/src/bip32.rs:729-747 | the master key is the left half of the HMAC under the text Bitcoin seed and its chain code the right half |
| Bip32.NeuterCommutes | key_expression/src/bip32.rs:785-1005 | along hardened-free paths deriving privately and then taking the public key is deriving publicly, failures included |
| Bip32.PrivSucceeds | key_expression/src/bip32.rs:785-826 | unless it panics, derivation succeeds exactly when depth plus path length is at most 255 |
| Bip32.PubSucceeds | key_expression/src/bip32.rs:940-1005 | unless it panics, it succeeds exactly when moreover no step is hardened |
| Bip32.JoinIsTwoStages | key_expression/src/bip32.rs:659-663 | deriving along a join is deriving in two stages |
| Bip32.BeInverse | key_expression/src/bip32.rs:869 | the four big-endian bytes and the word they stand for determine each other |
| Bip32.JoinedFields | key_expression/src/bip32.rs:861-875 | where the version, depth, fingerprint, child number, chain code and key stand in the 78 bytes |
| Bip32.EncodedFields | key_expression/src/bip32.rs:861-1041 | the 78 bytes of private and public keys on both networks: version, depth, fingerprint, big-endian child number, chain code and key |
| Bip32.PrivRoundTrip | key_expression/src/bip32.rs:835-875 | a private key survives encoding and decoding exactly when a depth of 0 goes with zero fingerprint and child number |
| Bip32.PubRoundTrip | key_expression/src/bip32.rs:1008-1041 | a public key survives encoding and decoding under the same condition |
| Bip32.DecodedIsEncoding | key_expression/src/bip32.rs:835-1041 | data that decodes is the encoding of the key it decodes to |
| Bip32.ReachableRoundTrip | key_expression/src/bip32.rs:729-875 | every key derived from a master key, and its public key, survives encoding and decoding |
| Bip32Path.PrintRelative | key_expression/src/bip32.rs:692-712 | the loop prints the children with slashes between them |
| Bip32Path.PrintAbsolute | key_expression/src/bip32.rs:552-566 | the master sign alone, or before a slash and the relative path |
| Bip32Path.ParseRelative | key_expression/src/bip32.rs:456-477 | the empty text is the empty path, a master prefix is refused, and the first bad part decides the error |
| Bip32Path.ParseAbsolute | key_expression/src/bip32.rs:527-550 | the master sign alone is the master path, and every other path needs the prefix and no empty part |
| Bip32Path.ChildAccepted | key_expression/src/bip32.rs:366-382 | exactly which text is a child number, and which number it is |
| Bip32Path.ChildRoundTrip | key_expression/src/bip32.rs:309-382 | a printed child number parses back with either suffix |
| Bip32Path.PathRoundTrip | key_expression/src/bip32.rs:456-712 | parsing a printed path returns the path, with both suffix styles, relative and absolute |
| Bip32Path.PrintedForm | key_expression/src/bip32.rs:309-712 | decimal indices between slashes, hardened ones with an apostrophe or the letter h by style, absolute paths after the letter m |
| Bip32Path.RelativeAccepted | key_expression/src/bip32.rs:456-477 | a text is a path exactly when every part between slashes is a child number, and the path is those children in order |
| Bip32Path.MasterPrefix | key_expression/src/bip32.rs:456-550 | what the letter m at the front does in relative and absolute paths, error by error |
| Bip32Path.RelativeOrAbsolute | key_expression/src/bip32.rs:456-550 | no text is both a relative and an absolute path |
| Bip32Path.RelativeDerivationPathIterator.Next | key_expression/src/bip32.rs:594-598 | returns the current child of the base path and moves on |
| Bip32Path.IteratesInOrder | key_expression/src/bip32.rs:594-598 | the n-th child is n past the start, and the run ends after index 2^31 - 1 |
| Bip32Text.Print | key_expression/src/bip32.rs:1054-1080 | printing a key never reaches the length at which base58check panics |
| Bip32Text.ParseXpriv | key_expression/src/bip32.rs:1060-1074 | checks the text, then the payload length, then the 78 bytes |
| Bip32Text.ParseXpub | key_expression/src/bip32.rs:1082-1096 | checks the text, then the payload length, then the 78 bytes |
| Bip32Text.XprivPrefix | key_expression/src/bip32.rs:1054-1058 | the text of a private key has 111 characters and starts with xprv on the main network and tprv elsewhere |
| Bip32Text.XpubPrefix | key_expression/src/bip32.rs:1076-1080 | the text of a public key has 111 characters and starts with xpub or tpub |
| Bip32Text.KeyTextRoundTrip | key_expression/src/bip32.rs:1054-1096 | a printed key parses back to itself |
| Bip32Text.KeyTextUnique | key_expression/src/bip32.rs:1054-1096 | text that parses is the one printed form of its key |
| CompactSize.DecodeEncoded | consensus_encoding/src/compact_size.rs:91-113 | an encoding followed by anything decodes to its value and leaves the rest |
| CompactSize.CutOff | consensus_encoding/src/compact_size.rs:279-293 | a cut-off encoding is refused with the number of bytes needed after the first and the number received |
| CompactSize.WireForm16 | consensus_encoding/src/compact_size.rs:309-318 | one byte below 0xFD stands for itself, and 0xFD precedes a 16-bit number, least significant byte first, of at least 0xFD |
| CompactSize.WireForm32 | consensus_encoding/src/compact_size.rs:301-308 | 0xFE precedes a 32-bit number of at least 2^16 |
| CompactSize.WireForm64 | consensus_encoding/src/compact_size.rs:293-300 | 0xFF precedes a 64-bit number of at least 2^32 |
| CompactSize.DecodedIsEncoding | consensus_encoding/src/compact_size.rs:277-319 | nothing but a minimal encoding decodes |
| CompactSize.Decoder.PushBytes | consensus_encoding/src/compact_size.rs:237-261 | takes from the front of a slice what the encoding still needs, and is ready exactly when it is complete |
| CompactSize.Decoder.LimitIsMissing | consensus_encoding/src/compact_size.rs:264-274 | the read limit is what is missing of the encoding, and one before its first byte |
| CompactSize.Decoder.PushAll | io/src/lib.rs:634-640 | under the read limit the whole slice is taken |
| CompactSize.DecodeFromRead | io/src/lib.rs:538-568 | for every fragmentation the buffered loop decodes as the whole input does and consumes exactly the encoding |
| CompactSize.DecodeFromReadUnbuffered | io/src/lib.rs:615-649 | so does the unbuffered loop for every buffer size, never reading more than the encoding lacks; with an empty buffer it reads nothing and reports the end of input |
| HashEngine.HashEngine.Input | hashes/src/internal_macros.rs:203-230 | any call appends to what the engine absorbed |
| HashEngine.HashEngine.IncompleteLength | hashes/src/lib.rs:308-313 | the byte count modulo the block size is the length of the live part of the buffer |
| HashEngine.HashEngine.StateOfInput | hashes/src/internal_macros.rs:203-230 | chaining value, byte count and live buffer are functions of the bytes absorbed |
| HashEngine.SplitIrrelevant | hashes/src/internal_macros.rs:203-230 | engines that absorbed the same bytes in different pieces agree on everything finalisation looks at |
| BlockLocator.Build | p2p/src/message_blockdata.rs:151-171 | asks for the heights of the walk in order and returns the first failure |
| BlockLocator.LocatorShape | p2p/src/message_blockdata.rs:151-171 | the heights start at the tip, decrease strictly, always end at genesis and are at most 43, so the cap of 101 is never reached |
| BlockLocator.LocatorHeights | p2p/src/message_blockdata.rs:151-171 | counting from 0, the first twelve entries are one apart and each later entry 10 + j is at depth 9 + 2^j |
| BlockLocator.LocatorCovers | p2p/src/message_blockdata.rs:151-171 | for every depth x there is an entry at a depth from x to 2x, or that entry is genesis |

## Left out

- secp256k1, SHA-2, RIPEMD-160, SipHash and HMAC are function parameters. BIP-32 assumes of the curve only that public-key derivation is a homomorphism, and for the encodings that serialised keys read back.
- Conversion between compact bits and 256-bit targets is a parameter; `Params` constants are not modelled.
- I/O errors and interrupted calls: a reader is a byte sequence delivered in arbitrary non-empty pieces, a writer accepts everything. `Take`, `read_exact`, `write_all` and `Cursor` have no model of their own.
- Debug-build overflow panics: the 64-bit byte counter of the hash engine, the 32-bit block counter of ChaCha20 and the timestamp addition of the next-target rule are preconditions. The running sum of decoded differences and the product n * m in filter matching wrap as in release builds, and the guarantees hold where they do not.
- The ordered set of filter elements is a set whose elements come in an arbitrary order; `Bip158.OrderIrrelevant` shows that the order does not matter.
- `U256Text.FromStr`: invalid digits and invalid UTF-8 are one error, and of `pad_integral` only the form without width or sign is modelled.
- Bip158.MatchAny: what it answers on bytes that are no filter is stated only for a count that does not decode; a cut-off or foreign bit stream ends in an I/O error or in an answer about whatever was decoded.
- Bip158.MatchAll: the same.
- Sizes: filter data is assumed shorter than 2^61 bytes and Golomb-Rice parameters at most 63, where the source's 64-bit counters and shifts are defined.
- Base58 tables are written as ranges of the ASCII code instead of arrays; `Base58.Alphabet` ties the two directions together.
- `Poly1305.Poly1305.Tag` leaves the object without a promise about its later use, as the source consumes it.
- `Bip32.NewMaster` does not check the seed length, which the source's seed type guarantees.
- Difficulty figures and work (`difficulty`, `difficulty_float`, `to_work`), hexadecimal, octal and binary printing, serde, error display and fuzzing variants would add only easy members.
- Constant-time behaviour, memory erasure, `unsafe` code and the capacity management of vectors (beyond the two base58 formulas).
