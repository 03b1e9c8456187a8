# A verified model of XPIR's arithmetic, packing and cryptosystems

XPIR lets a client retrieve an element of a server's database without revealing which one. This
project models the code that makes a retrieval come out right, in Dafny, and proves it from the
64-bit words up to whole retrievals:

- the number-theoretic engine: Shoup multiplication with wrap-around, Harvey's in-place lazy
  transform, the twist by roots of `X^N + 1`, the tables and constants, and residues modulo several
  primes (`Arith`, `Polynomials`, `NttSpec`, `Words`, `NttWords`, `Ntt`, `Negacyclic`, `NflParams`, `NflCoprime`,
  `NflTables`, `NflConfigure`, `Crt`, `Pointwise`, `NflLib`, `Products`);
- the bit splitter and the serializers, which cut byte buffers into coefficients and put
  coefficients back into bytes (`BitOps`, `ByteStrings`, `Fields`, `Splitter`, `BsLoop`, `CrtData`,
  `Deserialize`, `Serializer`, `Repacking`);
- the ring-LWE scheme: encryption, decryption, homomorphic accumulation and the absorption bound
  (`Flat`, `Sampling`, `Accumulation`, `LweWords`, `LweSpec`, `Lwe`, `NflLwe`, `Replies`, `Selection`,
  `Retrieval`), a retrieval from files to bytes (`EndToEnd`), and one that goes wrong (`Overflow`);
- the Damgård-Jurik scheme with its cache of powers and its key generation (`Binomials`, `Primes`,
  `PaillierKeys`, `PaillierSpec`, `Paillier`, `Lifting`, `PaillierKeygen`);
- the semaphore queue, as steps that interleave (`SharedQueue`), and parameter shaping (`Optimizer`).

The main results:

- `EndToEnd.PrivateRetrieval`: set the parameters, draw a key, choose the absorption size, import the
  files, encrypt one query for file `k`, accumulate a reply for every polynomial of the elements,
  decrypt, serialize and join; the bytes are file `k`, filled up with zeros. Key, noise and masks are
  drawn from their own random words, and the tables use the recorded roots. Nothing is assumed but
  numeric ranges. In the build that the repository compiles, where replies are accumulated lazily by
  Shoup's method (crypto/NFLLWE.hpp:21), this holds for any number of files as long as no accumulation
  step and no butterfly of the client's inverse transform leaves 64 bits. Neither can happen up to 5
  files, nor up to 25 if the words of the reply are brought below 2p before decryption, which the source
  does not do. In the other build, with complete reductions, it holds for any number of files.
- `Overflow.Misread`: the limit of five is exact for words in the ranges that transforms and encryption
  produce. For the modulus that is used when there is one, and for every key, the reply to six elements
  hides a decodable polynomial, and decryption returns another one.
- `Ntt.Ntt`, `NflLib.NflLib.NegacyclicProduct`, `Products.NegacyclicProductShoup`,
  `NflLib.NflLib.RoundTrip`: the lazy in-place transform of any 64-bit words is a fixed function of them,
  which is evaluation at the powers of the root whenever no butterfly wraps, and always below 2p;
  products of transforms are products modulo `X^N + 1`, and running the transform and its inverse on one
  array leaves every 64-bit coefficient fully reduced, for every modulus.
- `Accumulation.ChainGrowth` and `Accumulation.ChainExact`: how far any carry-free chain of fused steps
  can grow, and that a chain is right exactly when it is carry-free.
- `BsLoop.BitSplitter`: every limb is the corresponding range of bits of the concatenated buffers,
  every read is inside its buffer, and the loops terminate; `BsLoop.FittingIff` says which buffers the
  walk cannot handle.
- `Selection.SelectionDecodes` with `Selection.AbsorbsAll`: the noise of the accumulated products
  stays below half the modulus whenever the bit size is the one the scheme computes.
- `PaillierKeygen.EncryptThenDecrypt`: from two different primes of the same size, encrypting, computing
  any expression on the ciphertexts and decrypting by iterated extraction gives the expression of the
  plaintexts modulo n^s, for every level up to 6.
- `PaillierKeygen.DecryptsIff`: from any two primes of the same size and any invertible random number r,
  decryption returns the message if and only if r^d = 1 modulo n; for equal primes it fails at r = 1 + p.
- `SharedQueue.RunSafe`, `SharedQueue.RunHistory`, `SharedQueue.RunPopFront` and
  `SharedQueue.NoMutualBlocking`: safety in every state of every interleaving, the queue as what the
  calls pushed and did not remove, the value that each call returns, and the only ways in which threads
  can wait forever.
- `Optimizer.PaillierCountsAgreeIff`: client and optimizer count the same number of ciphertexts for
  every element exactly when the key is a whole number of bytes, for every first level, depth and
  aggregation.

How it is modelled: machine words are integers below 2^64 with wrap-around written out
(`Words.Wrap`), pointers are offsets, GMP integers are integers, and random words are arguments.
Arrays that the source overwrites are arrays; its objects are classes.

Where code and comments disagree the model follows the code:

- the size argument of the transform is the degree, not its logarithm
  (crypto/NFLlib_old.hpp:451);
- `mulmodShoup` is exact for every 64-bit first operand, more than crypto/NFLlib_old.hpp:285 says;
- the noise amplifier is meant to be 2^A (crypto/NFLLWE.cpp:326), but
  crypto/NFLLWE.cpp:650-664 reduces a variable that is zero, so it is 0
  (`NflLwe.NflLwe.RecomputeNoiseAmplifiers`); encryption, decryption and retrieval are proved for both;
- `serializeData64` works for more widths than crypto/NFLlib_old.cpp:533 says, and never finishes
  for some others: `Serializer.FinishesIff` says exactly when;
- the Shoup accumulation is not reduced in the reply generator: `Replies.ReplyExactIff` says
  exactly when it is right, and `Accumulation.CarryingChain` gives operands for which 25 steps are right
  and 26 are not. Words at or above 2p then enter the inverse transform, against
  crypto/NFLlib_old.hpp:241-248: `Ntt.InvNtt` says what it makes of them, and `Overflow.Misread` gives six
  elements for which that is wrong;
- key generation does not check that its primes differ, and encryption does not check that its random
  number is invertible: `PaillierKeygen.KeyIff` says that the mask of every ciphertext vanishes exactly for
  different primes, `PaillierKeygen.DecryptsIff` which messages come back, and
  `PaillierKeygen.DivisionExactIff` that the first division of decryption is exact exactly for
  invertible random numbers.

The splitter, the serializers and the residue code exist twice; crypto/Bitsplit.cpp:64-437 repeats
crypto/NFLlib_old.cpp:534-904, and the model covers both.

## Model

| member | source | states |
|---|---|---|
| `Words.AddModExact` | crypto/NFLlib_old.hpp:259-264 | one conditional subtraction keeps the residue of the sum when it fits 64 bits, and reduces completely below 2p |
| `Words.SubModExact` | crypto/NFLlib_old.hpp:268-271 | the residue of the difference for any 64-bit subtrahend, and a result at most x or below p |
| `Words.LazyRange` | crypto/NFLlib_old.hpp:286-293 | Shoup's estimate leaves a product congruent to x*y, non-negative, below 2p and below p(1 + x/2^64) |
| `Words.MulModShoupExact` | crypto/NFLlib_old.hpp:286-293 | Shoup multiplication is x*y mod p for every 64-bit x, despite the wrapped products |
| `Words.MulAndAddShoupExact` | crypto/NFLlib_old.hpp:307-325 | one fused step is right modulo p if and only if it does not carry out of 64 bits |
| `Words.MulAndAddShoupGrowth` | crypto/NFLlib_old.hpp:307-325 | without carry a step keeps the residue and grows the accumulator by less than p*x/2^64, or ends below p |
| `Accumulation.ChainResidue` | pir/replyGenerator/PIRReplyGeneratorNFL_internal.cpp:579-606 | a chain of fused steps is off from the sum of products by 2^64 for every carry |
| `Accumulation.ChainExact` | pir/replyGenerator/PIRReplyGeneratorNFL_internal.cpp:579-606 | for an odd modulus and fewer steps than it, the chain is right if and only if no step carries |
| `Accumulation.ChainGrowth` | crypto/NFLlib_old.hpp:302-325 | any number n of carry-free steps with factors up to X end below p + n*p*X/2^64 from a reduced accumulator, for every p below 2^63 |
| `Accumulation.ChainNeverCarries` | crypto/NFLlib_old.hpp:302-325 | no step carries when 2p + n*p*X/2^64 is at most 2^64 |
| `Accumulation.ChainBound` | crypto/NFLlib_old.hpp:302-325 | in particular 24 steps with factors below 2p and p below 2^61 |
| `Accumulation.ZeroChainBound` | pir/replyGenerator/PIRReplyGeneratorNFL_internal.cpp:571-606 | from zeroed words, 25 steps never carry and 5 stay below 2p |
| `Accumulation.CarryingChain` | crypto/NFLlib_old.hpp:302-325 | both bounds are exact: operands in the same ranges for which 6 steps reach 2p and 26 give a wrong residue |
| `NttSpec.RevInvolution` | crypto/NFLlib_old.cpp:169-190 | bit reversal is its own inverse |
| `NttSpec.LayersEvaluate` | crypto/NFLlib_old.hpp:474-502 | the layers of butterflies leave, at the bit-reversed place of k, the value of the polynomial at w^k |
| `NttSpec.InverseTransform` | crypto/NFLlib_old.hpp:552-570 | transforming the values with the inverse root gives N times the coefficients, from w^(N/2) = -1 alone |
| `NttWords.ButterflyExact` | crypto/NFLlib_old.hpp:462-470 | sum and difference of any two words are right modulo p if neither leaves 64 bits |
| `NttWords.SumExactIff` | crypto/NFLlib_old.hpp:488-489 | for the sum that condition is exact |
| `NttWords.DiffSigned` | crypto/NFLlib_old.hpp:466-468 | the tested sign is that of the difference as a signed 64-bit word |
| `NttWords.SmoothEvaluates` | crypto/NFLlib_old.hpp:474-541 | the layers of any words are the values at the powers of the root if no butterfly wraps |
| `NttWords.BelowTransforms` | crypto/NFLlib_old.hpp:474-541 | words below 2p never wrap in any layer, and end below 2p |
| `Ntt.PrepWtab` | crypto/NFLlib_old.hpp:575-590 | the table holds, for every layer, the powers of its root and their Shoup quotients |
| `Ntt.LayerInPlace` | crypto/NFLlib_old.hpp:480-499 | one pass of butterflies over all blocks is one layer of words, for any words |
| `Ntt.LastTwoLayers` | crypto/NFLlib_old.hpp:504-539 | the unrolled loop over groups of four computes the last two layers, for any words |
| `Ntt.Ntt` | crypto/NFLlib_old.hpp:454-541 | for every power of two and any words, exactly the layers of words, and nothing else changes; congruent to the values at w^k in bit-reversed order if nothing wraps; words below 2p stay below 2p |
| `Ntt.Permut` | crypto/NFLlib_old.hpp:543-549 | writes the bit-reversed order |
| `Ntt.InvNtt` | crypto/NFLlib_old.hpp:552-570 | in natural order, the layers of the bit-reversed input for any words; its values at the powers of the inverse root if nothing wraps |
| `NflParams.GoodModuli` | crypto/NFLParams.cpp:27-43 | each of the 17 moduli lies within 2^23 below 2^61, its root to the 8192 is -1, and the listed inverse of 8192 is one |
| `NflConfigure.RootOfDegree` | crypto/NFLlib_old.cpp:86-90 | repeated squaring gives exactly the recorded root to the power 8192/N, and phi^N = -1 |
| `NflConfigure.BuildTables` | crypto/NFLlib_old.cpp:86-131 | all tables of one modulus are right for that root, in particular entry i of the last one inverts N*phi^i |
| `NflConfigure.ReversalIndexes` | crypto/NFLlib_old.cpp:169-190 | inverting the bit-reversal table by search gives the bit reversal |
| `Crt.LiftExact` | crypto/NFLlib_old.cpp:138-163 | the sum of lifting integers times residues of v is v modulo the product of coprime moduli |
| `Crt.ComputeLifting` | crypto/NFLlib_old.cpp:138-163 | each lifting integer is 1 modulo its own modulus and 0 modulo the others |
| `NflCoprime.PairCoprime` | crypto/NFLParams.cpp:27-43 | any two of the 17 moduli are coprime, by a certificate for each pair |
| `NflLib.ModuliCoprime` | crypto/NFLParams.cpp:27-43 | so the first n are pairwise coprime, for every n up to 17 |
| `NflLib.NflLib.SetNewParameters` | crypto/NFLlib_old.cpp:204-228 | succeeds exactly for multiples of 60 bits, and then every table is right, for the first moduli and their recorded roots |
| `NflTables.TwistAndTransform` | crypto/NFLlib_old.hpp:603-611 | any 64-bit coefficients become words below 2p that represent their polynomial at the roots of X^N + 1 |
| `NflTables.InverseAndUntwist` | crypto/NFLlib_old.hpp:619-629 | what any words become, and that it is the reduced coefficients of the polynomial they represent if the inverse transform does not wrap |
| `NflTables.SteadyRecovers` | crypto/NFLlib_old.hpp:619-629 | if no butterfly wraps, the result is the one polynomial represented, whichever it is |
| `NflTables.InterpolatedRepresents` | crypto/NFLlib_old.hpp:599-630 | any words represent a polynomial, so together exactly one modulo p |
| `NflLib.NflLib.NttAndPowPhi` | crypto/NFLlib_old.hpp:601-612 | the same for every modulus, segment by segment; word Rev(k) is the value at the recorded root to the power (8192/N)(2k+1) |
| `NflLib.NflLib.InvNttAndPowInvPhi` | crypto/NFLlib_old.hpp:617-630 | the same for every modulus, segment by segment, for any words |
| `NflLib.NflLib.RoundTrip` | crypto/NFLlib_old.hpp:601-630 | transforming and transforming back in place leaves each 64-bit coefficient mod p, for every modulus |
| `Negacyclic.EvalProduct` | crypto/NFLlib_old.hpp:599-612 | where X^N = -1, the schoolbook product modulo X^N + 1 takes the product of the values |
| `NflLib.NflLib.MulModPolyNTT` | crypto/NFLlib_old.hpp:367-379 | word by word products of all segments |
| `Flat.MulModPolyShoup` | crypto/NFLlib_old.hpp:385-397 | the same words from Shoup multiplications, for any 64-bit first operand |
| `Flat.ShoupPoly` | crypto/NFLlib_old.hpp:640-654 | every word gets the quotient for its own modulus |
| `NflLib.NflLib.NegacyclicProduct` | crypto/NFLlib_old.hpp:364-379 | transform, multiply, transform back is the schoolbook product modulo X^N + 1 and p, for any 64-bit coefficients |
| `Products.NegacyclicProductShoup` | crypto/NFLlib_old.hpp:385-397 | the same with Shoup multiplication by quotients of the reduced second transform |
| `NflLib.NflLib.Poly2Mpz` | crypto/NFLlib_old.cpp:379-407 | each coefficient is below the product of the moduli and is v mod that product whenever the words are residues of v |
| `Sampling.Sampled` | crypto/NFLlib_old.cpp:300-314 | any word is brought below the bound: its remainder modulo the least power of two not below the bound, minus the bound if needed |
| `Sampling.SetBoundedRandomPoly` | crypto/NFLlib_old.cpp:293-319 | every modulus gets the same bounded integer |
| `Sampling.SetUniformPoly` | crypto/NFLlib_old.cpp:330-354 | every word is drawn in this way from its own random word and for its own modulus |
| `ByteStrings.ReadBits` | crypto/NFLlib_old.cpp:648-649 | a shifted and masked 64-bit read at a byte pointer is a range of bits of the buffer |
| `Serializer.OrWord` | crypto/NFLlib_old.cpp:547 | or-ing a shifted value above the bits written adds it at its place in the buffer's integer |
| `Serializer.SerializeData64` | crypto/NFLlib_old.cpp:534-556 | a zeroed buffer ends as exactly the sum of chunk i times 2^(iB); every write is inside, and the loops finish |
| `Serializer.SerializeData32` | crypto/NFLlib_old.cpp:568-609 | the same for blocks of 32 bits with a shorter last block per coefficient |
| `Serializer.FinishesIff` | crypto/NFLlib_old.cpp:543-555 | the outer loop finishes if and only if every chunk fits above the bits before it in its byte |
| `Serializer.WidthsThatProgress` | crypto/NFLlib_old.cpp:531-533 | for every number of chunks that is so exactly for widths up to 58, 60 and 64 |
| `Fields.FieldNext` | crypto/NFLlib_old.cpp:672-683 | subchunks are adjacent |
| `BsLoop.CountSubchunks` | crypto/NFLlib_old.cpp:662-711 | the count is the number of limbs that end in the buffer, and the rest is less than the next limb |
| `BsLoop.MovePointer` | crypto/NFLlib_old.cpp:746-765 | both pointer moves keep the bit position and make the next limb fit a read inside the buffer, even when the counter wraps |
| `BsLoop.LimbLoop` | crypto/NFLlib_old.cpp:734-766 | every limb that ends in the buffer is written, reads stay inside, and the loop terminates |
| `BsLoop.Border` | crypto/NFLlib_old.cpp:774-792 | the limb at the end of a buffer joins its two parts, or is padded with zeros |
| `BsLoop.BsLoop` | crypto/NFLlib_old.cpp:660-797 | all limbs that start in the buffer, and where the next buffer continues |
| `BsLoop.FittingIff` | crypto/NFLlib_old.cpp:772-779 | the condition on a buffer is exact: where its first limb does not end in it, the border read goes outside, because the shift wraps around |
| `BsLoop.LongWalkable` | crypto/NFLlib_old.cpp:834-857 | buffers of one word, or long enough for a limb after a border limb, always meet it |
| `BsLoop.SingleWalkable` | pir/replyGenerator/PIRReplyGeneratorNFL_internal.cpp:100-138 | so does a single buffer of at least one word |
| `BsLoop.BitSplitter` | crypto/NFLlib_old.cpp:834-857 | the whole array holds the limbs of the concatenated buffers, zero after their end |
| `CrtData.LimbsOfChunk` | crypto/NFLlib_old.cpp:868-904 | the limbs of a chunk add up to its range of B bits |
| `CrtData.CrtWordCong` | crypto/NFLlib_old.cpp:887-896 | the unreduced sum of reduced products has the residue of the chunk |
| `CrtData.PlaceOf` | crypto/NFLlib_old.cpp:887-903 | residue cm of coefficient i is at (i/N)*N*nb + cm*N + i%N |
| `CrtData.PlaceUnique` | crypto/NFLlib_old.cpp:887-903 | no other coefficient or modulus shares that place |
| `CrtData.LongIntegersToCrt` | crypto/NFLlib_old.cpp:870-904 | every place gets its sum, none of up to eight terms overflows, and the rest stays zero |
| `Deserialize.BsFinish` | crypto/NFLlib_old.cpp:800-827 | all three branches leave a residue of chunk i at the same place, and without lifting the limb itself |
| `Deserialize.LiftedChunks` | crypto/NFLlib_old.cpp:379-407 | lifting those residues gives back every chunk below the product of the moduli |
| `Deserialize.DeserializeData` | crypto/NFLlib_old.cpp:497-523 | polynomial q has the chunks qN and following as coefficients, transformed and below 2p |
| `Repacking.SplitThenSerialize` | crypto/NFLlib_old.cpp:534-556 | splitting and serializing up to 56 bits per chunk reproduces the bits |
| `Repacking.SplitThenSerializeWide` | crypto/NFLlib_old.cpp:568-609 | regrouped into 32-bit blocks, wider chunks do too |
| `Repacking.UnpackPacked` | crypto/NFLlib_old.cpp:526-556 | each field of what was packed is the value that went in |
| `Repacking.BlocksPack` | crypto/NFLlib_old.cpp:567-609 | both serializers write the same integer for the same coefficients |
| `LweWords.AmplifiedExact` | crypto/NFLLWE.cpp:324-345 | the word before the transform is amplifier times noise plus message |
| `LweWords.MaskedExact` | crypto/NFLLWE.cpp:360-380 | the ciphertext word is b + a*s, from a lazy transform word, with or without the reduction of the Shoup build |
| `LweWords.PhaseExact` | crypto/NFLLWE.cpp:408-417 | the first step of decryption is b - a*s, below 2p whenever b is |
| `LweWords.MulAndAdd` | crypto/NFLLWE.cpp:195-224 | both halves of a ciphertext take one lazy fused step in every word |
| `LweWords.MulAndAddPolyNTT` | crypto/NFLlib_old.hpp:401-412 | one completely reduced fused step in every word |
| `LweSpec.DecodeExact` | crypto/NFLLWE.cpp:482-492 | replacing p by a multiple of 2^A decodes every value of magnitude below p/2, negative ones too |
| `LweSpec.AccumulateHides` | crypto/NFLLWE.cpp:182-224 | accumulating data times query adds the product of the hidden polynomials |
| `NflLwe.NflLwe.SetNewParameters` | crypto/NFLLWE.cpp:82-127 | every key word is drawn from its random word below its modulus, with its quotients |
| `NflLwe.NflLwe.RecomputeNoiseAmplifiers` | crypto/NFLLWE.cpp:650-664 | as coded, every amplifier is zero |
| `NflLwe.NflLwe.IntendedNoiseAmplifiers` | crypto/NFLLWE.cpp:324-345 | the amplifiers that encryption is written for: 2^A modulo each modulus |
| `NflLwe.NflLwe.SetAndGetAbsBits` | crypto/NFLLWE.cpp:676-688 | the largest integer a, negative if nothing fits, with 2^(2a)*n*Berr*N at most 2^(s-1); a negative one counts as zero bits |
| `NflLwe.NflLwe.Enc` | crypto/NFLLWE.cpp:295-391 | in both builds every word of a is drawn from its own random word, and the ciphertext hides amplifier times noise plus message, one integer polynomial for all moduli; the Shoup build reduces it |
| `NflLwe.NflLwe.EncryptUint` | crypto/NFLLWE.cpp:500-517 | a query element hides the constant polynomial, under a mask drawn in the same way |
| `NflLwe.NflLwe.Dec` | crypto/NFLLWE.cpp:394-494 | for any words of the ciphertext: whatever decodable polynomial is hidden, its coefficients modulo 2^A come out, for one or several moduli, if b - a*s and its inverse transform do not leave 64 bits; and what comes out in every other case |
| `Retrieval.EncryptThenDecrypt` | crypto/NFLLWE.cpp:295-494 | decryption returns every message below 2^A when noise and message stay below half the modulus |
| `Selection.AbsorbsAll` | crypto/NFLLWE.cpp:676-688 | the noise of n products and the message stay below half the product of the moduli, also for one modulus just under 2^61 |
| `Selection.CombinationDecodes` | crypto/NFLLWE.cpp:394-494 | replies decode to the linear combination of the messages with the data |
| `Selection.SelectionDecodes` | crypto/NFLLWE.cpp:676-688 | a query for k decodes to element k |
| `Replies.GenerateReply` | pir/replyGenerator/PIRReplyGeneratorNFL_internal.cpp:571-606 | the reply is the lazy accumulation of all elements |
| `Replies.ReplyWord` | pir/replyGenerator/PIRReplyGeneratorNFL_internal.cpp:571-606 | each of its words is a chain of fused steps |
| `Replies.ReplyExactIff` | pir/replyGenerator/PIRReplyGeneratorNFL_internal.cpp:571-606 | for fewer elements than any modulus, all words are right if and only if nothing carries |
| `Replies.ReplyHides` | pir/replyGenerator/PIRReplyGeneratorNFL_internal.cpp:571-606 | if nothing carries, it hides the sum of data times queries |
| `Replies.ReducedHides` | crypto/NFLLWE.cpp:408-417 | bringing the words of b below their moduli does not change what is hidden |
| `Replies.ShortReply` | crypto/NFLlib_old.hpp:241-248 | up to 25 elements never carry, and up to 5 leave words that dec accepts |
| `Replies.GeneratePlainReply` | pir/replyGenerator/PIRReplyGeneratorNFL_internal.cpp:571-606 | the branch of the other build, with complete reductions |
| `Replies.PlainReplyHides` | crypto/NFLLWE.cpp:271-275 | hides the sum of data times queries for any number of elements |
| `Retrieval.MakeQuery` | pir/queryGen/PIRQueryGenerator_internal.cpp:37-58 | encryptions of one at k and of zero elsewhere, element i with the noise and the mask drawn from its own rows of random words, with quotients in the Shoup build |
| `Retrieval.Respond` | pir/replyGenerator/PIRReplyGeneratorNFL_internal.cpp:571-606 | the reply as the source sends it, or on request with b brought below 2p; it hides a polynomial that decodes to element k, for any number of elements if nothing carries, always up to 25, and always with complete reductions |
| `Retrieval.ReadableWhen` | crypto/NFLLWE.cpp:394-425 | decryption loses nothing to the word size on replies to five elements as they are, on reduced ones, and on those of the other build |
| `Retrieval.Exchange` | crypto/NFLLWE.cpp:182-224 | the same from encryption of the query on, with the random words of each element |
| `EndToEnd.Decrypt` | crypto/NFLLWE.cpp:572-608 | the bytes are the packed coefficients under the condition of `NflLwe.NflLwe.Dec`, and the buffer of eight bytes more suffices when 64 divides the degree |
| `EndToEnd.ImportFiles` | pir/replyGenerator/PIRReplyGeneratorNFL_internal.cpp:100-138 | every file becomes transformed polynomials of its chunks |
| `EndToEnd.RetrieveBlock` | crypto/NFLLWE.cpp:572-608 | the bytes of one decrypted reply are one block of the bits of file k, if nothing leaves 64 bits on either side |
| `EndToEnd.FileBack` | crypto/NFLLWE.cpp:572-608 | blocks of whole bytes, joined, are the bytes of the file followed by zeros |
| `EndToEnd.RetrieveFile` | pir/replyGenerator/PIRReplyGeneratorNFL_internal.cpp:571-606 | with one query, the joined replies are file k and zeros after it, under the same condition for any number of files, and always up to 5 as the source is written, up to 25 with b reduced, and for any number in the other build |
| `EndToEnd.PrivateRetrieval` | crypto/NFLLWE.cpp:82-127 | the same from raw parameters: degree, number of moduli, security level, files and random words, with the amplifier as coded and as intended; key, query, roots and absorption size are those that the source makes of them |
| `EndToEnd.EnoughBytes` | crypto/NFLlib_old.cpp:834-857 | the buffers it allows: any number of one word or of at least 14 bytes, and single ones of at least one word |
| `Overflow.WordsMisread` | crypto/NFLlib_old.hpp:617-630 | 32 words just above 2p: the polynomial they represent, and another one that the inverse transform returns |
| `Overflow.SixElementsMisread` | crypto/NFLLWE.cpp:394-494 | six elements and queries in range, no step of whose accumulation carries, and whose reply hides a decodable polynomial with an odd first coefficient where every result of dec has an even one |
| `Overflow.Misread` | crypto/NFLLWE.cpp:394-494 | the same, accumulated and decrypted by the methods above with any key |
| `Binomials.BinomFalling` | crypto/PaillierAdapter.cpp:336-343 | k! times a binomial is the falling product |
| `Binomials.BinomCong` | crypto/PaillierAdapter.cpp:336-343 | binomials of congruent numbers are congruent where k! is invertible |
| `Binomials.BinomialTheorem` | crypto/PaillierAdapter.cpp:309-325 | (1+n)^i modulo n^(j+1) is the sum of its first j + 1 binomial terms |
| `PaillierSpec.OnePower` | crypto/PaillierAdapter.cpp:245 | x = 1 mod n implies x^(n^s) = 1 mod n^(s+1) |
| `PaillierSpec.QuotientOfOne` | crypto/PaillierAdapter.cpp:328-333 | the division by n is exact and gives the shifted sum |
| `Primes.Fermat` | crypto/PaillierAdapter.cpp:429-432 | a^(p-1) = 1 modulo a prime |
| `PaillierKeys.PubKey.GetNj` | crypto/PaillierKeys.cpp:144-159 | returns n^s, capped at 7, although presence is judged by the low limb |
| `PaillierKeys.PubKey.CompleteKey` | crypto/PaillierKeys.cpp:120-138 | fills the powers and sets the generator to n + 1 |
| `PaillierKeys.PubKey.constructor` | crypto/PaillierKeys.cpp:56-62 | a fresh key holds ones |
| `PaillierKeys.Replay` | crypto/PaillierKeys.cpp:105-159 | in every sequence of calls, every lookup returns its power, and completing the key once sets the generator for good |
| `Paillier.Enc` | crypto/PaillierAdapter.cpp:230-257 | the ciphertext is (1+n)^m * r^(n^s) modulo n^(s+1), for any random number |
| `Paillier.Unmask` | crypto/PaillierAdapter.cpp:304-305 | the private power of a ciphertext is (1+n)^(m*d) modulo n^(s+1) |
| `Paillier.FirstRound` | crypto/PaillierAdapter.cpp:315-322 | the start value is the exponent modulo n, though reduced modulo n^2 |
| `Paillier.ExtractRound` | crypto/PaillierAdapter.cpp:326-345 | one round turns the exponent modulo n^(j-1) into the exponent modulo n^j |
| `Paillier.DecExponent` | crypto/PaillierAdapter.cpp:292-350 | for any ciphertext whose private power is (1+n)^i, the result times the exponent is i modulo n^s |
| `Paillier.Dec` | crypto/PaillierAdapter.cpp:292-350 | the plaintext modulo n^s |
| `Paillier.AddForms` | crypto/PaillierAdapter.cpp:613-617 | e_add is reduced, adds the plaintexts and multiplies the masks |
| `Paillier.ScaleForms` | crypto/PaillierAdapter.cpp:627-630 | e_mul_const is reduced, multiplies the plaintext and raises the mask |
| `Paillier.AddEncrypts` | crypto/PaillierAdapter.cpp:613-617 | e_add encrypts the sum |
| `Paillier.ScaleEncrypts` | crypto/PaillierAdapter.cpp:627-630 | e_mul_const encrypts the multiple |
| `Paillier.Homomorphic` | crypto/PaillierAdapter.cpp:605-630 | any expression over ciphertexts encrypts the same expression over plaintexts |
| `Paillier.DecryptExpression` | crypto/PaillierAdapter.cpp:292-350 | decrypting it gives the expression of the plaintexts modulo n^s |
| `Lifting.LiftDigits` | crypto/PaillierAdapter.cpp:245 | x = 1 + u*n modulo n^2 implies x^(n^j) = 1 + u*n^(j+1) modulo n^(j+2), so that n^s-th powers keep one digit |
| `PaillierKeygen.LcmLeast` | crypto/PaillierAdapter.cpp:429-432 | the private exponent divides every common multiple of p - 1 and q - 1 |
| `PaillierKeygen.PrimesMakeKey` | crypto/PaillierAdapter.cpp:415-433 | two different primes of the same size, in either order, give a modulus and exponent with all that decryption needs |
| `PaillierKeygen.UnmaskIff` | crypto/PaillierAdapter.cpp:304-305 | for any primes of the same size, the mask of one ciphertext vanishes if and only if r^d = 1 modulo n |
| `PaillierKeygen.KeyIff` | crypto/PaillierAdapter.cpp:415-433 | for primes of the same size and every level, the private power removes the mask of every ciphertext with an invertible random number if and only if the primes differ |
| `PaillierKeygen.DivisionExactIff` | crypto/PaillierAdapter.cpp:304-318 | for any primes of the same size, the first division of dec is exact if and only if the random number is invertible modulo n |
| `PaillierKeygen.Keygen` | crypto/PaillierAdapter.cpp:405-437 | the key object with its powers filled in, and the least common multiple as private exponent, which removes all masks at every level exactly for different primes |
| `PaillierKeygen.DecryptsIff` | crypto/PaillierAdapter.cpp:230-350 | with any primes of the same size, encrypting and decrypting returns the message modulo n^s if and only if r^d = 1 modulo n: always for different primes, not for equal ones at r = 1 + p |
| `PaillierKeygen.EncryptThenDecrypt` | crypto/PaillierAdapter.cpp:230-350 | encrypting inputs, evaluating any expression on them and decrypting gives its value modulo n^s, for invertible random numbers |
| `SharedQueue.StepInv` | pir/shared_queue.hpp:93-132 | every step of every thread keeps the invariant: capacity conserved, length = stored + items in flight, history, mutex |
| `SharedQueue.RunInv` | pir/shared_queue.hpp:93-132 | it holds in every state of every interleaving |
| `SharedQueue.StepHistory` | pir/shared_queue.hpp:93-132 | a push appends its argument, a removal takes the head, and no other step of any thread changes the queue or the history |
| `SharedQueue.RunHistory` | pir/shared_queue.hpp:93-132 | in every state the history is that of the calls, read off the program counters alone |
| `SharedQueue.RunPush` | pir/shared_queue.hpp:93-100 | the step in which a push takes effect appends its own argument |
| `SharedQueue.RunCall` | pir/shared_queue.hpp:93-132 | from call to return a thread works on the operation and argument it was called with |
| `SharedQueue.RunSafe` | pir/shared_queue.hpp:93-132 | capacity respected, the queue holds the arguments of the pushes that were not yet removed, in order, one thread inside, never an empty read |
| `SharedQueue.RunPopFront` | pir/shared_queue.hpp:114-123 | the value of a pop_front is the item its own step removes: the k-th removal returns the argument of the k-th push |
| `SharedQueue.RunFront` | pir/shared_queue.hpp:103-111 | the value of a front is the argument of the oldest push not yet removed |
| `SharedQueue.ResultStays` | pir/shared_queue.hpp:93-132 | whatever other threads do, a call returns the value it read |
| `SharedQueue.BlockedIff` | pir/shared_queue.hpp:93-132 | a thread in a call is stuck exactly at an empty semaphore or a taken mutex |
| `SharedQueue.NoMutualBlocking` | pir/shared_queue.hpp:93-132 | if nobody can move, all wait on a full queue or all on an empty one |
| `Optimizer.GetDimSize` | apps/optim/PIROptimizer.cpp:338-367 | room for every element, sizes that decrease by at most one in all, and one increment fewer falls short |
| `Optimizer.LevelAgreesIff` | apps/client/PIRClient.cpp:401 | one level counts alike for every number of ciphertexts if and only if rounding the sizes to bytes keeps their ratio |
| `Optimizer.FirstLevelAgreesIff` | apps/client/PIRClient.cpp:395 | the first level counts alike for every element if and only if the absorption size is whole bytes |
| `Optimizer.CountsAgree` | apps/optim/PIROptimizer.cpp:453-460 | all levels together count alike when each does |
| `Optimizer.DownloadCount` | apps/client/PIRClient.cpp:395-401 | the loop computes the client's count, and the count times the ciphertext size is the optimizer's element size when the levels agree |
| `Optimizer.PaillierCountsAgreeIff` | crypto/PaillierPublicParameters.cpp:59-101 | with the sizes of the Damgård-Jurik scheme, for every aggregation, first level and depth that the table of powers holds: all elements count alike if and only if the key is whole bytes |
| `Optimizer.WholeKeyAgrees` | crypto/PaillierPublicParameters.cpp:59-101 | whole bytes suffice for every first level and depth |
| `Optimizer.PartialBytes` | crypto/PaillierPublicParameters.cpp:59-101 | a key of 1020 bits and an element of 253 bytes: three ciphertexts expected, two sent |
| `Optimizer.LweCountsAgree` | crypto/NFLLWEPublicParameters.cpp:138-160 | with the sizes of the ring-LWE scheme they always count alike |

## Left out

- Sockets, sessions, application threads, command line, views, logging and catalogs: input and output.
- The FV scheme (crypto/NFLFV.cpp, crypto/FV2048_124.cpp): wrappers over a library that is not part of this model.
- Security estimation and cost estimates: floating-point heuristics.
- Random generation: random words are arguments; no statement about their distribution.
- `addmodPoly`, `submodPoly`, `add`, `sub` and `mul` on ciphertexts: the same word loops as those modelled, with easier words.
- The overloads of `encrypt` for byte strings: not on the retrieval path.
- Recursion over several dimensions in the reply generator: only the accumulation of one level is modelled; several files per element (alpha) are one file of the model.
- Allocation, alignment, freeing and OpenMP: arrays are fresh objects, and polynomials that the source keeps in one block are separate arrays.
- Double arithmetic: logarithms, roots and rounded quotients are the exact integers they stand for; 32-bit overflow of products in the dimension search is not modelled.
- `NflLwe.NflLwe.Dec`: that no butterfly wraps is sufficient; a wrap can be harmless, since what is lost may be a multiple of 2^A.
- `Overflow.SixElementsMisread`: the words are in the ranges that transforms and encryption produce, but are not encryptions of small noise or data of few bits.
- `NflLwe.NflLwe.SetAndGetAbsBits`: requires at least one element; the source takes the logarithm of zero otherwise.
- `NflLwe.NflLwe.EncryptUint`: the reduction of an oversized argument is the integer one, without the overflow of a 32-bit shift.
- `Retrieval.EncryptThenDecrypt`: the Shoup build; without its reduction a fresh ciphertext can leave the range of decryption.
- `Serializer.SerializeData64`: requires the width condition of `Serializer.FinishesIff`, without which the source never returns.
- `BsLoop.BsLoop`: requires whole bytes and the condition of `BsLoop.FittingIff`, without which the source reads outside its buffer.
- `CrtData.LongIntegersToCrt`: requires at most eight limbs per chunk, beyond which the unreduced sums can overflow.
- `EndToEnd.PrivateRetrieval`: up to 14 moduli, which keeps chunks within eight limbs; the parameter search (crypto/NFLLWE.cpp:639) never asks for more than four.
- `PaillierKeygen.EncryptThenDecrypt`: requires different primes and invertible random numbers; `PaillierKeygen.DecryptsIff` and `PaillierKeygen.DivisionExactIff` say what happens otherwise.
- `Optimizer.PaillierCountsAgreeIff`: first level and depth not both above 3; keys of the source start at level 1 and the table of powers ends at 7 (crypto/PaillierAdapter.cpp:494-498).
- `PaillierKeygen.Keygen`: the primes are arguments; the search for primes is not modelled.
- `PaillierKeys.Replay`: one key per object; replacing the modulus of a used key leaves old powers behind in the source.
- `Optimizer.DownloadCount`: sizes of at least one byte, below which the source divides by zero.
