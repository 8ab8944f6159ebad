# libmako, modelled and proved

A Dafny model of the parts of libmako (the library under mako, which does no I/O) that carry
arguments of their own, and proofs of what they promise. Each group below follows one or a few
source files, in the form of that source: arrays of limbs written in place, objects whose methods
update their fields, loops with their invariants, and pure functions where the source only computes.

- **Multi-precision arithmetic** (`Arith`, `Limbs`, `LimbArrays`, `Shifts`, `Reciprocal`, `Division`,
  `DivMod`, `HalfLimbs`, `Montgomery`, `ModInverse`): division by a precomputed reciprocal and Knuth's Algorithm D
  (section 4.3.1 of The Art of Computer Programming, volume 2), including the argument that one
  add-back suffices where the estimate is not corrected; word-by-word Montgomery multiplication;
  the binary modular inverse. Limbs are numbers below B = 2^LIMB_BITS, and all results hold for
  every limb width from 8 to 64 bits.
- **Script** (`ScriptNum`, `Opcodes`, `ScriptStack`, `Multisig`, `Machine`, `ScriptRuns`,
  `Interpreter`): script numbers, opcode serialization, FindAndDelete and code-separator stripping as
  rewritings of opcode sequences, the m-of-n scan, and the whole interpreter loop against a small-step
  machine whose runs keep the limits and the meaning of conditionals. `ScriptRuns` says what whole scripts come to,
  from the stack a run starts with to the stack it ends with.
- **Block transfer** (`MerkleBlock`, `PartialTree`, `MerkleRoot`, `TxRequest`, `CompactBlock`): partial
  merkle proofs, prover against verifier and the messages accepted, the merkle root of a block, and
  compact-block relay as a two-party run.
- **Rolling bloom filter** (`RollingFilter`): two-bit generation tags in pairs of words.
- **Coin selection** (`Heap`, `Fees`, `CoinSelection`): the binary heap, fee subtraction, and the
  selector with its fee and size feedback.
- **Encodings** (`Wire`, `Radix`, `Base58`, `Checksum`, `Generator`, `Regroup`, `Bech32`, `Bip173`,
  `Compress`): varints and compact sizes, base58, bech32 with the polynomial behind it, and the
  compression of amounts, scripts and outputs.
- `Consensus` and `Sequences` hold what several of these share.

`dafny verify dfyconfig.toml` checks everything.

## Reading the model

Hashes, signature checks, encoding checks of keys and signatures, locktime checks and short ids are
parameters; a statement that needs the node hash injective, or short ids without collisions, says so.
Where the source aborts on a failed internal check the model returns `None` (base58, finalizing a
compact block) or states the check as a precondition (vectors and stacks). Errors are values.
Random choices (the tweak of the filter, the index in the random strategy) are parameters.

Places where the code does something other than what one might expect: `btc_get_fee` is not
monotone in the size (`Fees.GetFeeNotMonotone`; `Fees.GetFeeMonotoneExactly` says for which rates it
is), and coin selection relies on the clamp to make up for it (`Fees.FeeMonotone`); the rolling filter keeps more than the promised 2 limit values, namely
those of the generation in progress as well; an accepted base58 text can decode to more than the
encoder takes back (`Base58.ReencodeExactly`); the selector counts resolved inputs without looking
which (`CoinSelection.PushedTwice`); the test for repeated nodes in a merkle root also fires where no
other list has the root (`MerkleRoot.FalseAlarm`); and filling a compact block from a mempool with
three entries of one short id can release an empty slot (`CompactBlock.ThreeTrip`).

## Model

| member | source | states |
|---|---|---|
| `Limbs.WrapIsMod` | src/mpi.c:597-609 | the sums and differences of the macros are those of unsigned arithmetic, modulo B |
| `Limbs.AddCarry` | src/mpi.c:728-736 | the wrapped sum and its carry denote x + y + c, and the carry is one bit: the two wrap-arounds inside never both happen |
| `Limbs.SubBorrow` | src/mpi.c:738-746 | the wrapped difference less B times its borrow equals x - y - c, with a one-bit borrow |
| `Limbs.AddMulCarry` | src/mpi.c:758-768 | one limb of z + x y + c: low and high limb together are exactly that number, so the high limb never overflows |
| `Limbs.SubMulCarry` | src/mpi.c:770-780 | one limb of z - x y - c: the new limb less B times the new borrow limb is exactly that number |
| `HalfLimbs.MulHalves` | src/mpi.c:678-700 | the product of two limbs from four half-limb products: no intermediate sum overflows, and the two limbs are those of the true product |
| `HalfLimbs.HalfDigit` | src/mpi.c:1949-1974 | a half-limb digit with a two-digit divisor: the correction loop ends in the true digit and remainder |
| `HalfLimbs.DivHalves` | src/mpi.c:1904-1978 | two limbs by one, through normalization and two half-limb digits, is exact |
| `LimbArrays.SumLimbsValue` | src/mpi.c:1390-1424 | the limbs and carry of the limb-by-limb sum denote the sum of the two numbers |
| `LimbArrays.DiffLimbsValue` | src/mpi.c:1524-1558 | the limbs and borrow of the limb-by-limb difference denote the difference |
| `LimbArrays.MulLimbsValue` | src/mpi.c:1651-1678 | the limbs and carry denote the product with one limb |
| `LimbArrays.AddMulLimbsValue` | src/mpi.c:1680-1707 | the limbs and carry denote z + x y |
| `LimbArrays.SubMulLimbsValue` | src/mpi.c:1709-1736 | the limbs and borrow limb denote z - x y |
| `LimbArrays.AddN` | src/mpi.c:1390-1424 | the in-place loop writes those limbs into its window, also when it overwrites an operand, and touches nothing else |
| `LimbArrays.SubN` | src/mpi.c:1524-1558 | the same for subtraction |
| `LimbArrays.Mul1` | src/mpi.c:1651-1678 | the same for multiplication by a limb, in place or into another array |
| `LimbArrays.AddMul1` | src/mpi.c:1680-1707 | the same for multiply-and-add, the window and the operand coinciding or apart |
| `LimbArrays.SubMul1` | src/mpi.c:1709-1736 | the same for multiply-and-subtract, the window and the operand coinciding or apart |
| `Shifts.LeftShiftedValue` | src/mpi.c:3279-3295 | shifted limbs and the bits shifted out denote the number times 2^k |
| `Shifts.RightShiftedValue` | src/mpi.c:3301-3317 | shifted limbs denote the number divided by 2^k, rounded down |
| `Shifts.LShift` | src/mpi.c:3279-3295 | the downward loop produces the shifted limbs and returns what falls out at the top |
| `Shifts.RShift` | src/mpi.c:3301-3317 | the upward loop produces the shifted limbs in its window, in place or not |
| `Reciprocal.Inv2By1` | src/mpi.c:1981-2038 | for a normalized d the result is floor((B^2 - 1) / d) - B |
| `Reciprocal.Div2By1` | src/mpi.c:2040-2183 | for every normalized d with that reciprocal and every u1 < d, the wrap-around computation with its two corrections returns the true quotient and remainder of u1 B + u0 |
| `Division.TopLimbs` | src/mpi.c:2665-2670 | the top limb of the window never exceeds the top limb of the divisor |
| `Division.SaturatedDigit` | src/mpi.c:2665-2738 | in the branch that skips the correction, B - 1 exceeds the true digit by at most one |
| `Division.FirstEstimate` | src/mpi.c:2739-2741 | the two-limb quotient is never below the true digit |
| `Division.TestFires` | src/mpi.c:2743-2751 | when the three-limb test fires, lowering the estimate does not go below the true digit |
| `Division.TestPasses` | src/mpi.c:2743-2751 | when the test passes, the estimate exceeds the true digit by at most one |
| `Division.EstimateDigit` | src/mpi.c:2664-2752 | the whole estimate, with its loop of corrections, exceeds the true digit by at most one |
| `Division.MultiplyAndSubtract` | src/mpi.c:2754-2757 | the window less qhat times the divisor, with the borrow that tells whether the estimate was too large |
| `Division.AddBackLimbs` | src/mpi.c:2759-2765 | after a borrow one addition of the divisor yields the true remainder, digit qhat - 1, and a carry that cancels the borrow |
| `Division.DivideStep` | src/mpi.c:2663-2765 | one digit: window = q times divisor + remainder, with remainder below the divisor, in place; the rest of the numerator is untouched |
| `DivMod.Divisor.Precompute` | src/mpi.c:2506-2537 | the divisor is stored normalized together with its shift and the reciprocal of its top limb |
| `DivMod.DivModSmall` | src/mpi.c:2539-2571 | single-limb division of a number of any length is exact |
| `DivMod.Normalize` | src/mpi.c:2654-2660 | the copied numerator is the given one times 2^shift |
| `DivMod.DigitLoop` | src/mpi.c:2662-2771 | the downward loop over the digits keeps total = quotient times divisor + rest and ends with the whole quotient |
| `DivMod.DivModLarge` | src/mpi.c:2621-2780 | multi-limb division is exact: N = Q D + R and R < D, written out in the quotient and remainder arrays |
| `DivMod.DivMod` | src/mpi.c:3044-3056 | the same for every numerator and every divisor with non-zero top limb, through the dispatch on its size |
| `Montgomery.NewtonStep` | src/mpi.c:2441-2474 | one Newton step doubles the number of correct low bits of an inverse |
| `Montgomery.InvMod` | src/mpi.c:2441-2474 | for every odd d the result times d is 1 modulo B |
| `Montgomery.MontStep` | src/mpi.c:3631-3668 | what one pass keeps: the window and its carry, times B^i, are the partial product up to a multiple of the modulus, within a bound that makes the two carries of a pass add up to at most one |
| `Montgomery.NextPass` | src/mpi.c:3655-3665 | one turn of the loop keeps this with `c1 = c2 or c3`, which is the sum of the two carries because they are never both set |
| `Montgomery.MontMulInner` | src/mpi.c:3631-3668 | after all passes the window and carry hold the product over B^n, up to multiples of the modulus |
| `Montgomery.FinalReduction` | src/mpi.c:3670-3688 | subtracting the modulus exactly when the carry is set leaves an n-limb number in the same residue class |
| `Montgomery.MontMul` | src/mpi.c:3670-3688 | for odd m and any x, y < B^n: z B^n is congruent to x y modulo m, and z < B^n |
| `Montgomery.Precompute` | src/mpi.c:3603-3629 | k is the negated inverse of the low limb of m modulo B, and r is B^(2n) modulo m |
| `ModInverse.ShiftKeepsDivisors` | src/mpi.c:3916-3917 | shifting zero bits out of u keeps the common divisors with an odd v |
| `ModInverse.SubtractKeepsDivisors` | src/mpi.c:3933-3943 | subtracting one of the two numbers from the other keeps the common divisors |
| `ModInverse.HalfKeeps` | src/mpi.c:3919-3931 | halving a coefficient modulo odd y keeps a x congruent to u |
| `ModInverse.SubtractKeeps` | src/mpi.c:1575-1588 | subtracting coefficients modulo y keeps the congruence and the range 0 <= a < y |
| `ModInverse.ShiftZeroes` | src/mpi.c:805-826 | all trailing zero bits are shifted out, over any number of zero limbs, and counted |
| `ModInverse.HalveMod` | src/mpi.c:3919-3924 | in place: a/2, or (a + y)/2 when a is odd, with the carry limb cleared again |
| `ModInverse.SubModInto` | src/mpi.c:1575-1588 | in place: a - b modulo y |
| `ModInverse.Round` | src/mpi.c:3915-3944 | one round keeps a x = u, b x = v (mod y), the ranges of a and b and the common divisors of u and v, and u + v falls |
| `ModInverse.KeptEnd` | src/mpi.c:3946-3953 | when u is zero, v is 1 exactly when x and y are coprime, and then b is the inverse |
| `ModInverse.InverseMeansCoprime` | src/mpi.c:3877-3954 | only coprime numbers have an inverse, so failing is never wrong |
| `ModInverse.Invert` | src/mpi.c:3877-3954 | for odd y it terminates and succeeds exactly when y > 1 and gcd(x, y) = 1, with 0 <= z < y and z x = 1 (mod y); otherwise z is zeroed; z may be the array of x or of y |
| `MerkleBlock.WidthMeaning` | src/bip37.c:136-139 | position p exists at height h exactly when its first leaf does |
| `MerkleBlock.SiblingsDiffer` | src/bip37.c:264-284 | distinct leaves and an injective node hash give different sibling hashes, so the duplicate check never rejects an honest proof |
| `MerkleBlock.BuildSize` | src/bip37.c:298-325 | a proof has no more hashes than leaves and at least one bit per hash: what the count checks of the verifier ask |
| `MerkleBlock.PushBitHolds` | src/bip37.c:286-296 | appending a bit to the packed flags keeps all earlier bits |
| `MerkleBlock.SubtreeRoundTrip` | src/bip37.c:141-203 | traversing what was built for a subtree, wherever it sits in the proof, returns its hash, consumes exactly its bits and hashes, and reports its matched leaves |
| `MerkleBlock.SubtreeSound` | src/bip37.c:141-203 | for any bits and hashes: a traversal that ends in the true hash of a subtree reports only real leaves, at strictly increasing indices |
| `MerkleBlock.RoundTrip` | src/bip37.c:205-243 | extracting what the prover produced succeeds, uses all bits and hashes, passes the count checks, and returns the root and exactly the matched leaves and indices in order |
| `MerkleBlock.Sound` | src/bip37.c:205-243 | for any flags and hashes whatsoever: success with the true root means every reported leaf is the real one at its index, indices strictly increasing |
| `MerkleBlock.Tree.BitPush` | src/bip37.c:286-296 | the in-place update of the flag bytes |
| `MerkleBlock.Tree.TreeBuild` | src/bip37.c:298-325 | the recursion appends exactly the proof of the subtree to flags and hashes |
| `MerkleBlock.Tree.SetMatches` | src/bip37.c:327-344 | the object holds the proof of the whole tree |
| `MerkleBlock.Tree.TreeTraverse` | src/bip37.c:141-203 | the recursion with its counters and output buffers is the pure traversal |
| `MerkleBlock.Tree.Extract` | src/bip37.c:205-243 | limits, height, traversal and the final checks together |
| `MerkleBlock.SendAndVerify` | src/bip37.c:205-344 | prover object to verifier object, end to end |
| `MerkleBlock.LowestFirst` | src/bip37.c:150-157 | flag bits are taken from the lowest of a byte up |
| `MerkleBlock.RootLowest` | src/bip37.c:205-243 | the root is the first row of width one |
| `PartialTree.TreeRead` | src/bip37.c:141-203 | a partial tree of the right shape that stands in the message is read: its root, its bits and hashes used up, its matches and their places |
| `PartialTree.ReadTree` | src/bip37.c:141-203 | whatever is read is such a tree |
| `PartialTree.AcceptedExactly` | src/bip37.c:205-243 | accepted messages are exactly the writings of partial trees over 1 to 16666 leaves without equal siblings: all hashes used, and all bits but those that fill the last byte |
| `PartialTree.NothingLeftOver` | src/bip37.c:205-243 | an accepted message with one more hash, or one more byte of flags, is refused |
| `PartialTree.SmallestProof` | src/bip37.c:298-325 | no accepted message that reports all the matches has fewer hashes or flag bytes than the one built |
| `MerkleRoot.RootIsTreeRoot` | src/crypto/merkle.c:88-124 | the root computed row by row is the root of the tree that merkle blocks prove against |
| `MerkleRoot.DistinctClear` | src/crypto/merkle.c:88-124 | different leaves never set the malleated flag |
| `MerkleRoot.RootDetermines` | src/crypto/merkle.c:88-124 | among lists with as many rows, none with a row of more than two nodes ending in an equal pair, the root determines the list |
| `MerkleRoot.RootShared` | src/crypto/merkle.c:88-124 | a list with such a row shares its root with a shorter one cut from it |
| `MerkleRoot.SuspectsExactly` | src/crypto/merkle.c:88-124 | of two lists with as many rows and the same root one has such a row, and such a row sets the flag |
| `MerkleRoot.FalseAlarm` | src/crypto/merkle.c:88-124 | the flag is also set for two equal nodes below the root, where no other list has the root |
| `MerkleRoot.ReplaceRow` | src/crypto/merkle.c:102-118 | one row overwrites the one below it in place, and the test is of the last pair of an even row |
| `MerkleRoot.ComputeRoot` | src/crypto/merkle.c:88-124 | the loops return that root, zero for no leaves, and fail exactly when some row ends in an equal pair |
| `Wire.CompactRoundTrip` | src/impl.h:663-680 | reading a written compact size returns it and leaves the rest |
| `Wire.CompactUnique` | src/impl.h:682-735 | only the shortest form of a value is accepted |
| `Wire.CompactBytes` | src/impl.h:663-680 | the bytes written, case by case: one byte up to 252, else 253, 254 or 255 and the number in 2, 4 or 8 bytes, lowest first |
| `Wire.VarintRoundTrip` | src/impl.h:806-826 | reading a written varint returns it and leaves the rest, for all 64-bit values |
| `Wire.VarintUnique` | src/impl.h:828-854 | every accepted string is the varint of its value: a bijection onto accepted strings |
| `Wire.VarintNumber` | src/impl.h:806-826 | a varint is its number in base 128, highest digit first, counted from the first number that needs as many bytes; all bytes but the last have the top bit |
| `Wire.VarintSize` | src/impl.h:790-804 | the size loop returns the length of the varint |
| `Wire.VarintWrite` | src/impl.h:806-826 | the loop that fills a small buffer backwards and copies it produces the varint |
| `Wire.Cursor.VarintRead` | src/impl.h:828-854 | the reading loop, with its overflow checks, is the parser |
| `Wire.Cursor.CompactRead` | src/impl.h:682-735 | the same for compact sizes |
| `Wire.Cursor.SizeRead` | src/impl.h:770-783 | the same with the size limit |
| `Compress.ValueRoundTrip` | src/compress.c:214-247 | decompressing a compressed amount returns it |
| `Compress.CodeRoundTrip` | src/compress.c:187-212 | and the other way round: amounts and codes correspond one to one |
| `Compress.CodeFits` | src/compress.c:187-212 | codes of amounts up to MAX_MONEY fit 64 bits |
| `Compress.AmountCode` | src/compress.c:187-212 | the code of m 10^e in m and e |
| `Compress.AmountExamples` | src/compress.c:187-212 | 0, 1, 9, 50 and 21000000 stand for nothing, a satoshi, one coin, fifty coins and all of them |
| `Compress.StoredForms` | src/compress.c:78-109 | the bytes stored for key hashes, script hashes, short and full keys, and any other script |
| `Compress.ValueCompress` | src/compress.c:187-212 | the loop computes the code, modulo 2^64 |
| `Compress.ValueDecompress` | src/compress.c:214-247 | the loop computes the amount, modulo 2^64 |
| `Compress.StoreAmount` | src/compress.c:187-247 | for every amount up to MAX_MONEY the two loops undo each other without wrapping |
| `Compress.ScriptDeflate` | src/compress.c:57-76 | the computed size is the length of what is written |
| `Compress.ScriptCompress` | src/compress.c:78-109 | the written bytes are the compressed script |
| `Compress.ScriptDecompress` | src/compress.c:111-181 | the reader, with its step back by one byte, is the parser |
| `Compress.KeyStartsAtCode` | src/compress.c:111-181 | in any accepted buffer with code 2 or 3 the byte before the key is the code, because varints are unique: the step back reads the tag of the key |
| `Compress.FullKeyRoundTrip` | src/compress.c:22-181 | an uncompressed key survives, given that decompressing a valid key undoes compressing it |
| `Compress.ScriptRoundTrip` | src/compress.c:78-181 | decompressing a compressed script returns it, for every script and every kind |
| `Compress.OutputCompress` | src/compress.c:259-264 | amount code, then script |
| `Compress.OutputDecompress` | src/compress.c:266-279 | the reader is the parser of both |
| `Compress.OutputRoundTrip` | src/compress.c:259-279 | decompressing a compressed output returns it |
| `Radix.NumeralUnique` | src/base58.c:59-175 | a digit string without leading zeros is determined by its number |
| `Base58.EncodeBufferFits` | src/base58.c:76-92 | 256^n < 58^(138 n / 100 + 1), for every n |
| `Base58.DecodeBufferFits` | src/base58.c:131-154 | 58^n < 256^(733 n / 1000 + 1), for every n |
| `Base58.MultiplyAdd` | src/base58.c:81-94 | the inner loop multiplies the number in the buffer and adds a digit; given room its final carry is 0, and the digits in use stay tracked |
| `Base58.EncodeDigits` | src/base58.c:76-100 | the buffer ends up holding the digits of the number, none of them a leading zero |
| `Base58.Encode` | src/base58.c:59-112 | a 1 per leading zero byte, then the number in radix 58; refused above 512 bytes |
| `Base58.SymbolIs` | src/base58.c:21-22 | digit d is written as character d of the alphabet |
| `Base58.DecodeDigits` | src/base58.c:131-160 | fails exactly at a character outside the alphabet, else holds the bytes of the number |
| `Base58.Decode` | src/base58.c:114-175 | the text is accepted exactly when it is short enough and in the alphabet, with the bytes it stands for |
| `Base58.DecodeUndoesEncode` | src/base58.c:59-175 | decoding undoes encoding for every input the encoder takes |
| `Base58.DecodedLength` | src/base58.c:131-170 | how many bytes an accepted text can decode to |
| `Base58.EncodeUndoesDecode` | src/base58.c:59-175 | as radix conversion, encoding undoes decoding: no two accepted texts decode alike |
| `Base58.ReencodeExactly` | src/base58.c:59-175 | the encoder gives an accepted text back exactly when it decodes to at most 512 bytes, the limit at which the encoder aborts |
| `Base58.TooLongToReencode` | src/base58.c:66-67 | texts that are accepted and not given back: more than 512 ones |
| `Checksum.PolymodLinear` | src/bech32.c:47-57 | the step is linear over exclusive or |
| `Checksum.PolymodInjective` | src/bech32.c:47-57 | the step is one to one on 30-bit states |
| `Checksum.FeedInjective` | src/bech32.c:47-204 | feeding the same symbols to different states leaves different states |
| `Checksum.FeedPacks` | src/bech32.c:47-124 | up to six symbols are added, packed, to what the state would be without them |
| `Checksum.BurstDetected` | src/bech32.c:126-204 | two different runs of up to six symbols, whatever surrounds them, never leave the same state |
| `Checksum.TailExact` | src/bech32.c:113-119 | the six symbols computed are the only six that bring the state to one |
| `Generator.StepMultiplies` | src/bech32.c:47-57 | on six symbols the step multiplies by x modulo x^6 + 29x^5 + 22x^4 + 20x^3 + 21x^2 + 29x + 18 over the field of 32 elements, the field given by x^5 + x^3 + 1: this fixes all five constants |
| `Generator.FeedDivides` | src/bech32.c:47-124 | feeding any symbols leaves the remainder of their polynomial modulo that generator |
| `Generator.ClosesExactly` | src/bech32.c:126-204 | the checksum closes exactly when the polynomial, led by a one, leaves one |
| `Bip173.SymbolIs` | src/bech32.c:26 | symbol v is written as character v of the alphabet |
| `Bip173.AcceptedExactly` | src/bech32.c:126-204 | a string is accepted exactly when it has the right shape and its symbols, after the expanded prefix, leave one modulo the generator |
| `Bip173.ShortestExample` | src/bech32.c:59-124 | prefix a and no data are written a12uel5l |
| `Regroup.ConvertBits` | src/bech32.c:206-244 | the accumulator loop, with its 32-bit wrap-around, regroups the bits of the number; padding and refusal as specified |
| `Regroup.UnpadUndoesPad` | src/bech32.c:206-244 | bytes to 5-bit groups and back is the identity |
| `Regroup.PadUndoesUnpad` | src/bech32.c:206-244 | 5-bit groups that are accepted come from the bytes returned |
| `Bech32.WriteTail` | src/bech32.c:113-119 | the two closing loops compute the six checksum symbols |
| `Bech32.Serialize` | src/bech32.c:59-124 | the string written, or refusal: prefix characters, lengths, symbols |
| `Bech32.Deserialize` | src/bech32.c:126-204 | the prefix and data accepted, or refusal: characters, separator, case, table, checksum |
| `Bech32.DeserializeUndoesSerialize` | src/bech32.c:59-204 | reading undoes writing |
| `Bech32.SerializeUndoesDeserialize` | src/bech32.c:59-204 | an accepted string is, in lower case, the one its content is written as |
| `Bech32.BurstRejected` | src/bech32.c:126-204 | changing any of up to six neighbouring data symbols of an accepted string, one symbol in particular, makes it rejected |
| `Bech32.Encode` | src/bech32.c:246-269 | version, program and prefix checks, regrouping, serialization |
| `Bech32.Decode` | src/bech32.c:271-298 | deserialization, regrouping, and the checks on the result |
| `Bech32.DecodeUndoesEncode` | src/bech32.c:246-298 | decoding returns the same triple for every encodable one |
| `Bech32.EncodeUndoesDecode` | src/bech32.c:246-298 | an accepted address is, in lower case, the encoding of what it decodes to |
| `TxRequest.Write` | src/bip152.c:476-493 | the written bytes: hash, count, and differences with the wrap-around of the source |
| `TxRequest.Read` | src/bip152.c:495-531 | the two passes of the reader, the second in place, are the parser |
| `TxRequest.RequestRoundTrip` | src/bip152.c:476-531 | increasing 16-bit indexes survive the wire |
| `TxRequest.RequestUnique` | src/bip152.c:495-531 | what is accepted is strictly increasing, within 16 bits, and the only form of its request |
| `TxRequest.SentGaps` | src/bip152.c:476-493 | what is sent for increasing indexes: the first, and then how many were passed over each time |
| `CompactBlock.PlacedExact` | src/bip152.c:141-159 | prefilled transactions stand at their positions, strictly increasing and below the total, and nothing else is filled |
| `CompactBlock.FitsExactly` | src/bip152.c:141-159 | a message passes the bounds exactly when the slots its indexes describe are all below the total |
| `CompactBlock.PlacedLaid` | src/bip152.c:141-159 | the slots described are increasing and hold the transactions in order; all other slots are free |
| `CompactBlock.GapsAccepted` | src/bip152.c:117-176 | for any increasing slots below a permitted total, the message whose indexes are the gaps between them is accepted, and each transaction is laid in its slot |
| `CompactBlock.Compact.SetBlock` | src/bip152.c:87-115 | short ids for all but the first transaction, which is sent along at index 0 |
| `CompactBlock.Compact.Setup` | src/bip152.c:117-176 | for any message: accepted exactly when the total is 1 to 16665 and the slots its indexes describe (each index the number of free slots since the last one) are below it; then slot i of them holds transaction i, all others are free, and the i-th short id leads to the i-th free slot; 0 exactly when two short ids are the same |
| `CompactBlock.Compact.NextFree` | src/bip152.c:163-167 | the scan for a free slot finds the i-th one and never passes the end |
| `CompactBlock.SettledThird` | src/bip152.c:202-215 | a slot is met again while empty exactly at a third match |
| `CompactBlock.SettledMatch` | src/bip152.c:202-218 | the first match fills a slot and the second one empties it again |
| `CompactBlock.Compact.FillMempool` | src/bip152.c:178-231 | in any order of the entries: a mapped slot holds its lone match and nothing where two compete, other slots are untouched, count is the number of filled slots, the early exit happens exactly when none is missing, and the source fails exactly when a third entry with one short id comes up before that |
| `CompactBlock.ThreeTrip` | src/bip152.c:178-231 | an input on which it fails: three entries with one short id, another transaction missing |
| `CompactBlock.Compact.FillMissing` | src/bip152.c:233-253 | the j-th transaction goes to the j-th empty slot; success exactly when the numbers agree |
| `CompactBlock.Compact.Finalize` | src/bip152.c:255-276 | the block is the filled slots; aborts exactly when one is empty |
| `CompactBlock.Compact.RequestMissing` | src/bip152.c:442-454 | the request lists exactly the empty slots in order |
| `CompactBlock.Reply` | src/bip152.c:556-577 | the transactions at the requested indexes, up to the first out of range |
| `CompactBlock.CompletedIsBlock` | src/bip152.c:233-253 | slots that agree with the block, completed with the reply, are the block |
| `CompactBlock.Relay` | src/bip152.c:87-577 | the whole run, request encoded and decoded, returns the original block for every mempool, when short ids do not collide |
| `RollingFilter.WipedTag` | src/bloom.c:319-330 | the word-parallel mask clears the cells of one generation and no others |
| `RollingFilter.MarkedTag` | src/bloom.c:335-345 | adding a value tags its cells with the generation and changes no other cell |
| `RollingFilter.RotateAges` | src/bloom.c:312-331 | a rotation makes every cell one generation older and clears exactly the oldest |
| `RollingFilter.AddAges` | src/bloom.c:302-346 | one add keeps the exact tag of every cell: the generation of the last value that has the cell, unless that generation is gone |
| `RollingFilter.RunAges` | src/bloom.c:302-346 | so after any run of a new filter, for any limit |
| `RollingFilter.SetExactly` | src/bloom.c:302-346 | a cell is set exactly when it is a cell of a value of the generation in progress or of the two before |
| `RollingFilter.FoundExactly` | src/bloom.c:302-369 | a value is found exactly when each of its cells is a cell of one of those values |
| `RollingFilter.OldForgotten` | src/bloom.c:302-369 | so a value that shares no cell with them is not found, whenever it was added |
| `RollingFilter.NoRecentFalseNegatives` | src/bloom.c:302-369 | after any run of adds each of the last 2 limit values, and those of the generation in progress besides, is found |
| `RollingFilter.RunEntries` | src/bloom.c:302-346 | how many values the generation in progress holds |
| `RollingFilter.Filter.Reset` | src/bloom.c:248-256 | all words zero, no entries, first generation |
| `RollingFilter.Filter.Wipe` | src/bloom.c:319-330 | the in-place loop over pairs of words |
| `RollingFilter.Filter.Add` | src/bloom.c:302-346 | the in-place update is the pure one of the run |
| `RollingFilter.Filter.Contains` | src/bloom.c:348-369 | found exactly when every cell of the value carries a tag |
| `RollingFilter.FoundAfter` | src/bloom.c:302-369 | the object from its creation: after any values were added it answers for any value exactly as that says, with the entry count (|vs| - 1) mod limit + 1 |
| `Heap.StepDown` | src/heap.c:34-59 | one swap downward moves the hole and orders everything around it |
| `Heap.StepUp` | src/heap.c:61-77 | one swap upward keeps all but the moved element in order |
| `Heap.RootLeast` | src/heap.c:103-116 | the root of a heap comes before everything in it |
| `Heap.ChangedHole` | src/heap.c:137-144 | changing one element of a heap leaves exactly what the fix asks for |
| `Heap.Vector.Down` | src/heap.c:34-59 | fills a hole from below, keeps the elements, reports whether anything moved, leaves the elements past n alone |
| `Heap.Vector.Up` | src/heap.c:61-77 | restores the order above, keeps the elements |
| `Heap.Vector.Init` | src/heap.c:83-93 | a heap of the same elements |
| `Heap.Vector.Insert` | src/heap.c:95-101 | a heap of the elements and one more |
| `Heap.Vector.Shift` | src/heap.c:103-116 | takes out an element that comes before all others, leaves a heap of the rest |
| `Heap.Vector.Remove` | src/heap.c:118-135 | takes out the element at an index, leaves a heap of the rest |
| `Heap.Vector.Fix` | src/heap.c:137-144 | restores the heap after one element was changed, keeps the elements |
| `Fees.GetFeeNotMonotone` | src/policy.c:17-32 | the bare fee can fall as the size grows: rate 500, sizes 1 and 2 |
| `Fees.GetFeeMonotoneExactly` | src/policy.c:17-32 | the bare fee is monotone in the size exactly for rates of at most 1 or at least 1000 |
| `Fees.FeeMonotone` | src/select.c:183-192 | the clamped fee never falls as the size grows, rounded or not |
| `Fees.FeeExact` | src/select.c:183-192 | the fee in terms of rate and size: in proportion and rounded down, or for every thousand begun, within 1000 and a tenth of a coin |
| `Fees.DustExact` | src/output.c:94-112 | three times the size of the output and of an input spending it; 546, 540, 294 and 330 for the standard kinds |
| `Fees.SubtractsExactly` | src/select.c:132-181 | exactly the fee is removed in total, scripts and unspendable outputs stay, every other output is left at or above its dust threshold |
| `Fees.Tx.SubtractEvenly` | src/select.c:132-181 | succeeds exactly when every payer affords the share and one then affords the rest; the rest is paid by the first that does |
| `Fees.Tx.SubtractAt` | src/select.c:115-130 | succeeds exactly when the output exists and stays at or above its dust threshold; nothing else changes |
| `CoinSelection.OrderIsTotal` | src/select.c:194-232 | the four comparators are total orders up to ties |
| `CoinSelection.OrderPrefers` | src/select.c:194-232 | which orders they are, in heights and values: lower height first, unconfirmed last; the reverse; lower value first, unconfirmed last; higher value first, unconfirmed last |
| `CoinSelection.SpendableExactly` | src/select.c:294-328 | what may be spent, in confirmations: 120 of them for a coinbase, as many as asked for otherwise |
| `CoinSelection.ShortAtRateNext` | src/select.c:498-527 | coins taken at an earlier, smaller fee were also short of the fee of their own size |
| `CoinSelection.OfferedOnce` | src/select.c:330-401 | offering a new outpoint keeps the pool free of repetitions |
| `CoinSelection.TakenDistinct` | src/select.c:330-401 | coins pushed once each are spent at most once, and never twice with an input that was there |
| `CoinSelection.SameWorth` | src/select.c:539-588 | different coins, as many as there are inputs and all of them inputs, are worth what the inputs are |
| `CoinSelection.PushedTwice` | src/select.c:539-588 | the count of resolved inputs alone does not show that: one input pushed twice stands in for another |
| `CoinSelection.Selector.Push` | src/select.c:330-401 | an input that came with the transaction is counted, each time it is pushed; a spendable coin joins the pool, each time it is pushed, the heap staying a heap; anything else is refused |
| `CoinSelection.Selector.Fund` | src/select.c:480-496 | takes coins in order while they are needed and no longer: no shorter prefix covered the amount |
| `CoinSelection.Selector.ByFee` | src/select.c:529-537 | the change, or -1 exactly when all coins together do not cover the fee |
| `CoinSelection.Selector.ByRate` | src/select.c:498-527 | the fee and size loop terminates; the coins taken cover the final fee, and no shorter prefix covers it, nor the fee of its own size |
| `CoinSelection.ChargedTotal` | src/select.c:565-572 | subtracting as asked, evenly, from one output or not at all, changes the total by exactly the fee or not at all |
| `CoinSelection.Selector.Settle` | src/select.c:565-587 | the outputs afterwards: charged as asked, with the change output last unless it would be dust; refused exactly when they cannot be charged |
| `CoinSelection.Selector.Fill` | src/select.c:539-588 | conservation: inputs minus outputs, less the miscount of the inputs, is the chosen fee or exceeds it by a change below the dust threshold; the miscount is zero when no input was pushed twice; inputs all different when no coin was; for every coin taken and every coin left, in heights and values: highest and lowest never take an unconfirmed coin while a confirmed one is left, nor a coin worth less (more) than one left that is as confirmed, oldest leaves none of lower height with unconfirmed ones last, newest the reverse; no shorter prefix of the coins taken covers the fee; and why it fails when it fails |
| `ScriptNum.ImportUndoesExport` | src/script.c:45-94 | importing an exported number returns it |
| `ScriptNum.ExportMinimal` | src/script.c:29-43 | exports are minimal |
| `ScriptNum.ExportUndoesImport` | src/script.c:29-94 | a minimal string is the export of its number: numbers and minimal strings correspond |
| `ScriptNum.ExportFits` | src/script.c:45-72 | numbers below 2^(8k-1) in absolute value take at most k bytes |
| `ScriptNum.ImportBound` | src/script.c:74-94 | k bytes give numbers below 2^(8k-1) in absolute value |
| `ScriptNum.SignedExamples` | src/script.c:45-72 | where the sign goes, on both sides of the one-byte and two-byte limits |
| `ScriptNum.ExportLoop` | src/script.c:45-72 | the loop and the sign byte produce the export |
| `ScriptNum.ImportLoop` | src/script.c:74-94 | the loop and the sign bit produce the number |
| `ScriptNum.TruthIsNonzero` | src/script.c:165-180 | an item is true exactly when its number is not zero |
| `ScriptNum.GetBool` | src/script.c:165-180 | the loop decides that |
| `Opcodes.ParseUndoesWrite` | src/script.c:525-622 | reading a written opcode returns it and leaves the rest |
| `Opcodes.WriteUndoesParse` | src/script.c:525-622 | rewriting an opcode that was read reproduces its bytes |
| `Opcodes.PushBytes` | src/script.c:433-446 | the bytes of the push of an item, for every length |
| `Opcodes.PushShortest` | src/script.c:433-446 | among the well-formed pushes of an item it is the shortest, and the only one as short |
| `Opcodes.ReadOpcode` | src/script.c:554-622 | the reader is the parser |
| `Opcodes.DeletedParts` | src/script.c:1247-1316 | deletion leaves exactly the other opcodes and the unreadable tail; deleting again finds nothing |
| `Opcodes.DeletedSize` | src/script.c:1247-1316 | the script shrinks by the size of the push times the number found |
| `Opcodes.Rewrite` | src/script.c:1293-1311 | the second pass keeps the original bytes of the kept opcodes, followed by the tail |
| `Opcodes.Script.FindAndDelete` | src/script.c:1247-1316 | the script becomes the one without the push of the item, and the number found is returned |
| `Opcodes.SeparatorSize` | src/script.c:1318-1383 | the length prefix is the number of bytes that are fed |
| `Opcodes.FeedParts` | src/script.c:1370-1382 | the segments between separators, and the last one with any tail, are the script without separators |
| `Opcodes.UpdateV0` | src/script.c:1318-1383 | the hash is fed the length of what follows, and then the script without its code separators |
| `ScriptStack.Stack.Insert` | src/script.c:228-244 | the shifting loop inserts before the place given from either end |
| `ScriptStack.Stack.Remove` | src/script.c:246-264 | the shifting loop removes one item and returns it |
| `ScriptStack.Stack.Erase` | src/script.c:266-284 | the shifting loop removes a range |
| `ScriptStack.Stack.Swap` | src/script.c:286-304 | two items change places |
| `Multisig.ScanComplete` | src/script.c:2423-2452 | unless a pair is refused, the greedy scan succeeds exactly when some strictly order-preserving assignment of all signatures to keys verifies |
| `Machine.MultisigExact` | src/script.c:2367-2487 | a CHECKMULTISIG that goes through consumes n + m + 3 items, counts n operations, and pushes true exactly when such an assignment exists |
| `Machine.MultisigVerifyExact` | src/script.c:2367-2487 | CHECKMULTISIGVERIFY with its counts in range goes through exactly when no pair is refused, such an assignment exists and the dummy passes; it then consumes n + m + 3 items |
| `Machine.ShortResults` | src/script.c:2073-2199 | operands of four bytes give results of at most five, and need no saturation |
| `Machine.NextKeeps` | src/script.c:1632-2498 | every completed step: stacks within 1000, op count within 201, script consumed, the counter still the number of false conditions, items still within 520 bytes |
| `Machine.RunKeeps` | src/script.c:1599-2505 | the same for every state of every run, which has at most as many steps as the script has bytes |
| `Machine.RunIsSteps` | src/script.c:1632-2498 | a run that goes through is some number of turns, no more than the script has bytes |
| `Machine.ExecutedKeeps` | src/script.c:1599-2505 | where a run ends: conditions closed with the counter at zero, op count within 201, stacks within 1000, items still within 520 bytes |
| `Machine.SkippedStep` | src/script.c:1645-1649 | below a false condition an opcode that is no branch changes nothing but the op count |
| `Machine.ExecutedStep` | src/script.c:1645-1663 | when all conditions are true the opcode takes effect |
| `Machine.SkipBalanced` | src/script.c:1645-1810 | a whole block below a false condition, nested conditionals included, has no effect |
| `Machine.ThenSkipped` | src/script.c:1756-1800 | IF on a false item, and NOTIF on a true one, pass over the THEN part and run the ELSE part next |
| `Machine.ElseSkipped` | src/script.c:1789-1810 | after a THEN part that ran, ELSE passes over its part and ENDIF closes the conditional |
| `Machine.ShufflesCompose` | src/script.c:1841-2033 | any list of stack shuffles is one shuffle, and goes through exactly when the stack has the items that one needs |
| `Machine.PickIsShuffle` | src/script.c:1980-2004 | PICK and ROLL at any depth are shuffles, depths beyond the stack included |
| `ScriptRuns.PayToKeyHash` | src/script.c:2311-2366 | a whole run of DUP HASH160 h EQUALVERIFY CHECKSIG, signature below key: it leaves true exactly when the key has the hash, the pair is not refused, the signature is not empty and verifies for the script without its own push; false exactly for an empty signature, or a wrong one where NULLFAIL is off |
| `ScriptRuns.PayToKeyHashVerify` | src/script.c:2311-2366 | with CHECKSIGVERIFY it goes through exactly when the first would leave true, and leaves nothing |
| `ScriptRuns.SeparatorCuts` | src/script.c:2306-2366 | after CODESEPARATOR the code before it is not signed |
| `ScriptRuns.SubscriptExact` | src/script.c:2326-2424 | the script signed in version 0 is the script without the pushes of any of the signatures, in whatever order they are cut |
| `ScriptRuns.PayToMultisig` | src/script.c:2367-2487 | a whole run of k keys n CHECKMULTISIG: it leaves true exactly when the signatures verify, in their order, under different keys in theirs, and the dummy passes, unless the scan meets a refused pair; the VERIFY form goes through exactly then |
| `ScriptRuns.BinaryMeaning` | src/script.c:2117-2199 | what a run of each opcode on two numbers leaves: sum, difference, logic, comparisons, minimum, maximum |
| `ScriptRuns.UnaryMeaning` | src/script.c:2073-2116 | the same for one number |
| `ScriptRuns.RangeMeaning` | src/script.c:2117-2225 | NUMEQUALVERIFY goes through exactly on equal numbers, and WITHIN answers for a half-open range |
| `ScriptRuns.SubThenAdd` | src/script.c:2022-2199 | TUCK SUB ADD leaves the first of two numbers |
| `ScriptRuns.ShuffleRuns` | src/script.c:1841-2033 | a run of a stack shuffle leaves what its pattern says |
| `ScriptRuns.ConstantRuns` | src/script.c:1664-1686 | the small constants push their number |
| `ScriptRuns.QuestionRuns` | src/script.c:1918-2045 | DEPTH, SIZE and IFDUP |
| `ScriptRuns.VerifyRuns` | src/script.c:1811-1824 | VERIFY goes through exactly on a number that is not zero, RETURN never |
| `ScriptRuns.EqualRuns` | src/script.c:2046-2072 | EQUAL and EQUALVERIFY compare bytes |
| `ScriptRuns.HashRuns` | src/script.c:2226-2305 | each hash opcode replaces the item by its own hash |
| `ScriptRuns.PickRuns` | src/script.c:1980-2004 | PICK copies and ROLL moves the item at the given depth |
| `ScriptRuns.LockRuns` | src/script.c:1690-1743 | the lock opcodes go through exactly when the number is not negative and its lock is met, and leave the stack |
| `ScriptRuns.AltRuns` | src/script.c:1825-1840 | TOALT SWAP FROMALT exchanges the two items below the top |
| `ScriptRuns.OtherRuns` | src/script.c:1687-1755 | opcodes without effect, and opcodes that nothing defines |
| `ScriptRuns.ChoiceRuns` | src/script.c:1756-1810 | IF 1 ELSE 2 ENDIF, and NOTIF: the number decides which branch runs, and only that one; any item is accepted unless minimal booleans are asked for |
| `ScriptRuns.PassedOver` | src/script.c:1642-1649 | inside 0 IF ENDIF an opcode is passed over unless it is disabled or an unknown branch |
| `ScriptRuns.LimitRuns` | src/script.c:1620-1649 | 201 operations go through and 202 do not; 1000 items and not 1001; no script above 10000 bytes |
| `ScriptRuns.PushRuns` | src/script.c:1636-1661 | a push of up to 520 bytes leaves its item, a longer one fails |
| `ScriptRuns.MinimalIsShortest` | src/script.c:347-370 | a push is minimal exactly when no other opcode that leaves its item is shorter |
| `ScriptRuns.MinimalRuns` | src/script.c:1651-1661 | where minimal pushes are asked for exactly those go through |
| `Interpreter.RunShuffle` | src/script.c:1841-2033 | the shuffles, by the primitives of the stack, have the effects of the table, or leave a short stack alone |
| `Interpreter.GetNum` | src/script.c:123-140 | an item as a number: length limit and minimality first |
| `Interpreter.Interp.DoUnaryOp` | src/script.c:2073-2116 | the unary numeric operations |
| `Interpreter.Interp.DoBinaryOp` | src/script.c:2117-2199 | the binary numeric operations, and NUMEQUALVERIFY |
| `Interpreter.Interp.DoIfOp` | src/script.c:1756-1788 | IF and NOTIF |
| `Interpreter.Interp.DoPickOp` | src/script.c:1980-2004 | PICK and ROLL |
| `Interpreter.Interp.DoCheckSigOp` | src/script.c:2311-2366 | CHECKSIG on the stacks is the step of the machine: script signed, refusals and their order, result; ScriptRuns.PayToKeyHash says what that step means |
| `Interpreter.Interp.CutSignatures` | src/script.c:2414-2421 | the script signed is the one with every signature cut out in turn |
| `Interpreter.Interp.ScanStack` | src/script.c:2423-2452 | the loop on the stack, every index in range, is the scan |
| `Interpreter.Interp.DropAll` | src/script.c:2454-2466 | n + m + 2 items are dropped; a non-empty failed signature is refused where asked, and only signatures are looked at |
| `Interpreter.Interp.DoMultisigOp` | src/script.c:2367-2487 | the counts, their limits and errors, then the scan |
| `Interpreter.Interp.Turn` | src/script.c:1632-2498 | one turn of the loop is one step of the machine, error for error |
| `Interpreter.Execute` | src/script.c:1599-2505 | the loop terminates and returns the error of the run of the machine, leaving the stack as it does then; without an error the stack is that of the run, within 1000 items unless the script is empty, and items stay within 520 bytes |

## Left out

- Inline assembly, compiler intrinsics, the 3-by-2 division (switched off in the source) and the constant-time variants: platform or timing variants of the modelled paths.
- Unrolled loops of the limb primitives: modelled as the plain loop over the limbs; counting leading and trailing zeros are functions with the values of the macros.
- Jacobi symbols, primality tests, square roots and windowed exponentiation: number theory beyond this code, or constants not in these files.
- SHA-256, RIPEMD-160, SipHash, murmur3, ECDSA and signature hashes: parameters.
- Encoding checks of signatures and keys (`validate_signature`, `validate_key`): a parameter that refuses a pair with an error.
- Witness programs and the outer script verification (`btc_script_verify`): they only call the interpreter.
- Sizing of the filter in floating point and the plain bloom filter: the sizes are parameters.
- The `next` callback of the selector: selection is from the coins pushed.
- Size estimates of inputs by script kind (`estimate_input_size`): a field of the coin.
- 64-bit overflow of amounts, sizes and fees in coin selection, and the INT_MAX checks of vectors: amounts are unbounded integers there.
- Wire form of the compact block message itself: the receiver gets the short ids and prefilled transactions as values; the request for missing transactions is encoded and decoded.
- CompactBlock.Compact.FillMempool: one call per setup; a second call would count filled slots again.
- CompactBlock.Relay: starts from a block within the size limit of the setup and a mempool without repeated entries, as the map of the source guarantees.
- ScriptRuns.PayToMultisig: up to 16 keys, each pushed minimally, as single opcodes count them; Machine.MultisigExact covers all counts.
- ScriptNum.ImportLoop: unbounded integers, where the source's 64 bits suffice for the at most five bytes it is called with.
- Strings are sequences of characters without a terminating zero; in the base58 alphabet test and in bech32 every character outside the table is refused.
- Memory management, reference counts, hash maps, network tables, JSON, printing and addresses: data or plumbing.
