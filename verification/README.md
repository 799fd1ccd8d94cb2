# Private information retrieval from hints: a verified model

The repository answers private database queries with precomputed hints. A client streams an encrypted
database once and keeps `M = 30 * PartSize` hints, each an encrypted sum of one entry from half of the
partitions plus one extra entry, and `M / 2` pairs of backup hints. A query picks a hint that covers the wanted
entry, sends a masked parity and one offset per partition, receives one of two candidate answers, decodes it,
and rebuilds the used hint from a backup. Below that lies a kernel of word-level modular arithmetic.

This project models the client, the server's answer and the kernel, and proves:

* **The protocol is correct on every run.** One invariant ties every slot of the hint table to the database
  (`Hints.TableOk`). Offline establishes it, every query keeps it, and under an error budget every answer is the
  entry asked for, whatever the indices, flips, masks, noise and pseudorandom function. The client object
  (arrays, counters, loops) is proved equal, step by step, to the state machine these theorems are about, and
  `Session.RunProgram` states the result for both programs, from the server encrypting its database, over packed
  batches, to the client's last query.
* **The kernel is exact on its full input range**: Barrett and Shoup reduction, extended Euclid with the exact
  condition of its one signed overflow, Miller-Rabin never rejecting a prime (with Fermat's little theorem proved on the way), correction
  factors, multiword sums and products.
* **The batch codec loses nothing**, for any number of partitions, and accepts exactly the payloads laid out as the
  format says.
* **What the functions behind these statements mean** is stated on its own: products by their coefficients, blocks by
  their digits, coverage by the entries summed, dummy offsets by their place in the dummy stream.

## How the model is laid out

| files | what they hold |
|---|---|
| `ModArith`, `Words`, `Barrett`, `UintSmallMod`, `NumberTheory`, `Fermat`, `MillerRabin`, `CorrectionFactors`, `TwoAdic`, `Multiword`, `MultiwordProduct` | the arithmetic kernel; words are integers below 2^64 with wrap-around written out |
| `Sampling` | random residues, signed modular addition, parameter checks |
| `Ring`, `Encoding` | ciphertexts as pairs over Z_q[X]/(X^n+1), their phase, and what a noisy coefficient decodes to |
| `Cutoff`, `Prf`, `Bits`, `Hints`, `Query`, `Refresh`, `Answering` | median cutoffs, pseudorandom blocks, indicator bits, the hint table and its invariant, the query, the refresh, the answer |
| `Protocol`, `Runs`, `Budgets`, `Offline`, `Reachable` | the state machine `Step` and `Run`, what holds over runs, when the error budget is met, what Offline leaves behind, tables on which the program leaves its defined behaviour |
| `Setup`, `Server`, `Client`, `Session` | what is assumed of encryption, scaling and serialisation, the server and client objects with their loops (the client's module is `ClientObject`), and the two programs |
| `Options`, `Codec`, `Wire` | optional values; the packed wire format, and what it is byte by byte |

A ciphertext is modelled by its two polynomials. Homomorphic addition, monomial shift, adding a plaintext and
decrypting without scaling are given their mathematical meaning. A coefficient x *carries* m with error e when
p * x = q * m + e modulo p * q, so errors are counted in units of 1/p. `Hints.World` collects what is fixed
before the first query: parameters, the pseudorandom function, the database, its encryption, the key, the
server's scaling, and three error bounds. `Budgets.NoiselessWorldValid` shows these assumptions can be met for
every database and function, and `Budgets.ProtocolBudget` that the parameters the program insists on leave room
for the errors.

The online path is that of `src/client_main.cpp`. Where its code leaves the behaviour its names promise, the model
keeps the code and states exactly when it is right, with an input on which it is not:

* The test for "no hint" compares the slot with the number of parities, `2 * M`, which the value `M + 1` never
  reaches. This one guard is the intended one in `Protocol.Step` and in the client object: that of
  `src/client.cpp:414`. `Runs.MainStep` and `Runs.MainRun` are the loop as written; `Runs.MainStepIff` and
  `Runs.MainRunExact` say exactly where the two part, `Runs.MainRunCorrect` that every answer given before is right,
  and `Reachable.MainGuardMisses` shows a table Offline leaves on which they do.
* The loop that skips invalid backups has no bound. A query that would run past the written cutoffs has an outcome
  of its own; `Runs.SkipStaysInsideIff` says when it does not, `Reachable.StarvedStep` shows that it can.
* The bound test on a ciphertext's length adds 64-bit words; `Codec.InBoundsIff` and `Codec.WrappedPayload`.
* Extended Euclid overflows a signed word on some large values, in a coefficient nobody reads, and balancing adds
  magnitudes in signed words: `NumberTheory.ExtendedGcd` and `CorrectionFactors.BalanceFactors` report an overflow
  exactly when there is one, `NumberTheory.LargeInputsOverflow` and `CorrectionFactors.LargeFactorsOverflow` show one.
* `UintSmallMod.ExponentiateReducedIff`, `MultiwordProduct.OneWordProductIff`, `MultiwordProduct.InPlaceProductIff`,
  `MultiwordProduct.MultipliedIff`, `Multiword.NegateUintIff`, `Multiword.AddedOverIff` and
  `Multiword.SubtractedOverIff` do the same for the arithmetic.

## Model

| member | source | states |
|---|---|---|
| Session.RunProgram | src/server_main.cpp:148-160 | both programs together: the server encrypts its database, every query travels as a packed batch, and whatever an answer returns is the database's own entry at that index |
| Session.RunClient | src/client_main.cpp:225-552 | from a new client through Offline and the cache of zeros to the last query, every answer is the entry asked for; a run is cut short only by an exception, the failed assertion, or the skip loop running out of valid backups; a run no longer than the cache never exhausts it |
| Protocol.RunCorrect | src/client_main.cpp:340-552 | for any run: every answer is the queried entry, the invariant of the whole table holds at the end, and the run stops only at an exhausted resource |
| Protocol.StepKeeps | src/client_main.cpp:340-552 | every query, whatever its outcome, keeps the invariant over all slots and unused backups |
| Protocol.StepAnswers | src/client_main.cpp:374-505 | one query's answer is the queried entry for both flips, both indicators, extra or regular entry |
| Protocol.StepOutcome | src/client_main.cpp:359-545 | no hint, zeros exhausted, no valid backup left, failed assertion or answered: each exactly when coverage, the cache and the next valid backup say so, never by the random choices |
| Protocol.FindHintExact | src/client.cpp:57-82 | the least valid covering slot, or M + 1 exactly when none covers the index |
| Protocol.RefreshKeepsTable | src/client_main.cpp:513-545 | refreshing with the right value, or running out of backups, keeps the table's invariant |
| Hints.FindHint | src/client.cpp:57-82 | the result covers the query (in the sense of Hints.CoversIffSummed), no earlier slot does, and otherwise it is M + 1 |
| Hints.CoversIffSummed | src/client.cpp:61-80 | a valid slot covers exactly the entries its parity sums, each once: if one entry of the database changes, the sum changes by as much when the slot covers it, and not at all otherwise |
| Prf.SelectBlock | src/include/utils.h:113-119 | the select values of hints 4b to 4b + 3 are the base-2^32 digits of one block, lowest first |
| Prf.IndexBlock | src/include/utils.h:121-127 | the indices of hints 8b to 8b + 7 are the base-2^16 digits of one block |
| Prf.DummyBlock | src/client.cpp:49-54 | so are eight dummy indices, with the block number modulo 2^32 |
| Answering.DecodesQueriedEntry | src/client_main.cpp:374-505 | the whole chain of one query: build, mask, answer of the selected group, unmask, round, gives the database entry |
| Answering.ReplyDecodes | src/server.cpp:111-130 | decoding a reply to a masked parity gives the parity's plaintext less the group's sum, modulo p |
| Answering.AnswerCoefficients | src/server.cpp:66-130 | a candidate answer in terms of the coefficients of the query and the key |
| Answering.MaskCancels | src/client_main.cpp:413-415 | the mask cancels modulo q, whatever it is |
| Answering.MaskUnique | src/client_main.cpp:413-415 | whatever the coefficient, exactly one mask below q turns it into a given value |
| Answering.MaskedUniform | src/client_main.cpp:401-415 | with a mask drawn by rejection sampling every masked coefficient comes from the same number of accepted random words |
| Answering.CombinedEncodes | src/server.cpp:119-130 | adding Enc(0), subtracting a scaled sum and adding noise adds up the error bounds |
| Answering.MaskedPhase | src/client_main.cpp:408-415 | the phase of the masked query at the coefficient the answer is read from |
| Query.RealGroupSum | src/client_main.cpp:374-399 | the real group adds up the hint's covered set without the queried entry |
| Query.QueryBalanced | src/client_main.cpp:374-399 | each group has exactly PartNum/2 partitions, every offset is inside its partition, the queried partition is in the dummy group |
| Query.HalfSelected | src/utils.cpp:199-213 | a nonzero cutoff selects exactly half of an even number of partitions |
| Query.TermsExchanged | src/client_main.cpp:376-387 | dropping the queried term and placing the extra one changes the sum by the queried entry |
| Query.DummyOffsets | src/client_main.cpp:379-397 | dummy offset k is dummy index c + n modulo PartSize, n the number of dummy partitions before k by the bits sent |
| Query.DummiesAreHalf | src/client_main.cpp:374-399 | a query from a valid slot draws exactly PartNum/2 dummy indices |
| Query.DummyOffsetsAgree | src/client_main.cpp:374-399 | two queries with the same bits, hidden group and counter send the same dummy offsets, whatever their hints |
| Query.SelectedAreSmaller | src/include/utils.h:113-119 | a selected partition has a smaller select value than one that is not |
| Refresh.ReplenishKeepsTable | src/client_main.cpp:521-545 | the refreshed slot is a valid hint again and every other slot and later backup stays valid |
| Refresh.ReplenishFrame | src/client_main.cpp:521-541 | only one slot changes, also through the shared indicator byte, and no backup does |
| Refresh.SideBecomesHint | src/client_main.cpp:527-541 | the backup side that excludes the queried partition, plus the decoded entry, is a valid hint |
| Refresh.AddedValueHolds | src/client_main.cpp:536-541 | adding the plaintext adds it to the sum and at most one bound to the error |
| Encoding.DeltaNearest | src/client_main.cpp:536-541 | what add_plain adds is the integer nearest to q * value / p |
| Refresh.NextValid | src/client_main.cpp:513-519 | the first backup with a nonzero cutoff, all skipped ones being zero, or the end of the written cutoffs when there is none |
| Bits.SetBitExact | src/client_main.cpp:530-531 | writing one indicator bit reads back and changes no other bit of the byte |
| Bits.BitMasks | src/client_main.cpp:530-531 | indicator bit k has weight 2^k in its byte |
| Runs.RunDisciplined | src/client_main.cpp:513-545 | over any run backups and encryptions of zero are consumed in strictly increasing order, and the backup area never changes |
| Runs.StepUses | src/client_main.cpp:543-545 | an answer takes the next valid backup and the next zero, advances both counters, and changes one slot |
| Runs.StepDummies | src/client_main.cpp:374-399 | a query with a hint draws PartNum/2 dummy indices however it ends, one without draws none |
| Runs.RunDummies | src/client_main.cpp:340-552 | after any run the dummy counter has advanced by PartNum/2 for every query with a hint |
| Runs.NoiseNeverGrows | src/client_main.cpp:534-541 | after any run every valid parity carries its sum within PartNum/2 + 2 encryption bounds |
| Runs.RunRepeats | src/client_main.cpp:522-531 | repeating a covered index never meets "no hint", however long the run |
| Runs.RepeatedIndexAnswered | src/client_main.cpp:513-545 | a repeated covered index is answered every time exactly when the zeros and valid backups last, and then always correctly |
| Runs.RunGetsThrough | src/client_main.cpp:513-545 | with enough zeros and valid backups no request stops the run, whether or not it has a hint |
| Runs.RunAnsweredIff | src/client_main.cpp:513-545 | a run of n covered queries is answered throughout exactly when n zeros are left and the n-th valid backup comes before the last backup |
| Runs.EnoughForIff | src/client_main.cpp:513-545 | n answers need exactly n unused zeros and n valid backups before the last position |
| Runs.SkipStaysInsideIff | src/client_main.cpp:515-519 | the loop that skips invalid backups stops at a cutoff Offline has written exactly when a valid backup is left |
| Runs.ZerosSuffice | src/client_main.cpp:274-292 | a run no longer than the cache of zeros never finds it exhausted |
| Runs.WidthsSuffice | src/include/client.h:24-28 | what a valid slot holds fits the 16- and 32-bit arrays |
| Runs.MainGuardExact | src/client_main.cpp:360 | the comparison with the number of parities is right exactly when some slot covers the index |
| Runs.MainStepIff | src/client_main.cpp:359-362 | an iteration of the main loop as written is a step exactly when some slot covers the index, and else goes past the hint arrays |
| Runs.MainRunExact | src/client_main.cpp:340-552 | the loop as written does what the run does up to the first query without a hint |
| Runs.MainRunCorrect | src/client_main.cpp:340-552 | every answer of the loop as written is the entry asked for |
| Reachable.MainGuardMisses | src/client_main.cpp:360 | after Offline on a database of one partition nothing is covered and the comparison does not skip the query |
| Reachable.SinglePartitionFair | src/client.cpp:173-178 | Offline gets through on such a database |
| Reachable.StarvedTable | src/client.cpp:147-163 | a pseudorandom function for which Offline leaves a covered index and no valid backup |
| Reachable.StarvedFair | src/client.cpp:173-178 | Offline gets through with that function |
| Reachable.StarvedStep | src/client_main.cpp:515-519 | its first query sends the skip loop past the written cutoffs |
| Budgets.ProtocolBudget | src/utils.cpp:104-127 | 54-bit q, 20-bit p, up to 2^15 partitions, encryption errors to 2^17, noise to 2^26: every answer decodes |
| Budgets.FreshEncryptionCarries | src/client.cpp:138 | a fresh encryption with coefficient error at most E carries its plaintext within p * E + p |
| Budgets.ScaledCarries | src/server.cpp:115-117 | a scaled sum within d of b * q / p carries b within p * d |
| Budgets.NoiseBounded | src/server.cpp:128-130 | the noise assumption is exactly a bound on the integer sample |
| Budgets.NoiselessWorldValid | src/server.cpp:27-57 | every database and pseudorandom function has a world meeting all assumptions |
| Offline.OfflineEstablishes | src/client.cpp:129-232 | what Offline leaves behind is a table satisfying the invariant |
| Offline.SideParityHolds | src/client.cpp:221-228 | after k partitions a backup side holds the sum of its entries so far, one error bound each |
| Offline.ActiveParityHolds | src/client.cpp:206-219 | after k partitions an active hint holds its selected entries and, once passed, its extra one |
| Offline.AddEntryHolds | src/client.cpp:211-212 | shifting by PartSize - r - 1 brings entry r to the last coefficient without a sign change |
| Offline.SidesAreHalves | src/client.cpp:223-228 | each backup pair splits the partitions into two equal halves |
| Offline.StreamedTurn | src/client.cpp:189-229 | one turn of the inner loop moves exactly one hint past the partition |
| Offline.FairWhenAllNamed | src/client.cpp:173-178 | if the dummy indices name every partition, every retry loop ends |
| Offline.ExtrasDrawnInOrder | src/client.cpp:167-182 | slot i holds hint i; of the dummy indices drawn for it the last but one names the first unselected partition and the last the offset there |
| ClientObject.OneSVClient.constructor | src/client.cpp:12-95 | allocated arrays of the right sizes, counters at zero |
| ClientObject.OneSVClient.NextDummyIdx | src/client.cpp:49-54 | the buffered index equals the stream's, one block per eight |
| ClientObject.OneSVClient.FindHint | src/client.cpp:57-82 | the scan equals the specification and reports the slot's indicator |
| ClientObject.OneSVClient.BuildQuery | src/client_main.cpp:374-399 | the arrays sent equal the specified selectors and offsets; every partition of the dummy group gets the dummy stream's next index, counted from the bits sent, and the counter advances by the size of that group |
| ClientObject.OneSVClient.GetNextEncZero | src/client.cpp:115-127 | hands out each cached encryption once, and fails exactly when all are used |
| ClientObject.OneSVClient.PrecomputeEncZeros | src/client.cpp:97-113 | the loop fills the cache with count encryptions that each carry zero where answers are read, and turns a valid table into a client ready for queries |
| ClientObject.OneSVClient.ReceiveAnswer | src/client_main.cpp:428-470 | the query goes out as a packed batch, and the selected branch is the answer of the hint's own group |
| ClientObject.OneSVClient.ReplenishSlot | src/client_main.cpp:521-544 | the arrays become exactly the refreshed table |
| ClientObject.OneSVClient.RefreshSlot | src/client_main.cpp:513-545 | skip invalid backups, then refresh with the first valid one; the result says which, or that none is left |
| ClientObject.OneSVClient.Online | src/client_main.cpp:340-552 | one iteration takes the object from its state to the state and outcome of one step |
| ClientObject.OneSVClient.RunOnline | src/client_main.cpp:340-552 | the loop equals the run of the state machine |
| ClientObject.OneSVClient.FillSelectVals | src/client.cpp:150-160 | one block per partition gives the select values of four consecutive hints |
| ClientObject.OneSVClient.ComputeCutoffs | src/client.cpp:147-163 | every cutoff is the median cutoff of that hint's own select values, and nothing else changes |
| ClientObject.OneSVClient.DrawExtras | src/client.cpp:167-182 | ids in order; each extra entry is the first unselected partition the dummy stream offers, with the next index as offset |
| ClientObject.OneSVClient.StreamPartition | src/client.cpp:189-229 | blocks reused over four and eight hints give each hint its own select value and index |
| ClientObject.OneSVClient.StreamParities | src/client.cpp:186-230 | the nested loops leave every parity as its per-hint definition says |
| ClientObject.OneSVClient.Offline | src/client.cpp:129-232 | the whole offline phase equals its per-hint definition and establishes the invariant |
| ClientObject.DecodeAnswer | src/client_main.cpp:487-505 | unmasking on 64-bit words and rounding equals the specified decoding |
| Server.OneSVServer.OnlineQuery | src/server.cpp:63-135 | each candidate answer is c0 at the last coefficient, plus the negacyclic product of c1 and the key there, less the scaled sum of its group, plus the one noise sample, modulo q |
| Server.OneSVServer.GroupSums | src/server.cpp:90-110 | the loop over the flat database computes both group sums modulo p |
| Server.OneSVServer.PreprocessDatabase | src/server.cpp:27-57 | ciphertext k encrypts partition k's slice, or the call fails exactly when a partition exceeds the slots |
| Server.OneSVServer.AnswerPayload | src/server_main.cpp:265-300 | a received batch of one query is unpacked, loaded and answered as if it had been handed over directly |
| Server.PreprocessedWorld | src/server.cpp:27-57 | what preprocessing leaves is the encrypted database of a world that meets all assumptions |
| Server.WantedIsEntry | src/client_main.cpp:355-356 | partition and offset of an index name that index of the flat database |
| Server.InitDatabase | src/utils.cpp:170-180 | every entry is a plaintext residue |
| Server.FlatIndex | src/server.cpp:97-99 | the flat index stays in range and hits the entry of its own partition |
| Cutoff.FindCutoff | src/utils.cpp:182-214 | the in-place algorithm returns the unique median, or zero exactly when a tail is too heavy or no unique median exists |
| Cutoff.Compact | src/utils.cpp:183-198 | both tail counts, and the middle values compacted in order |
| Cutoff.TakeMedian | src/utils.cpp:206-213 | the selected value, or zero when it occurs twice |
| Cutoff.NthElement | src/utils.cpp:207 | the contract of nth_element: a permutation with the chosen rank in place |
| Cutoff.CutoffHalves | src/utils.cpp:182-214 | a nonzero cutoff has exactly half the values strictly below it |
| Cutoff.CutoffIff | src/utils.cpp:182-214 | a hint gets cutoff c exactly when c occurs once, half the values are below it, and less than half lie on either side of the range kept |
| Cutoff.MedianUnique | src/utils.cpp:182-214 | at most one value is a median |
| Ring.PhaseAdd | src/client.cpp:212 | the phase of a sum is the sum of the phases |
| Ring.MulCoefficient | src/server.cpp:66-71 | coefficient t of a * s is the sum of a[t - i] * s[i] over i <= t, less that of a[n + t - i] * s[i] over i > t, modulo q |
| Ring.PhaseCoefficient | src/server.cpp:66-71 | coefficient t of the phase is c0[t] plus that of c1 * s |
| Ring.PhaseShift | src/client.cpp:211 | the phase of a shifted ciphertext is the shifted phase, in the negacyclic ring |
| Ring.PhaseOfShiftedEntry | src/client.cpp:211 | entry r arrives at coefficient PartSize - 1 with its sign |
| Ring.PhaseAddToCoefficient | src/client_main.cpp:413-415 | adding to one coefficient of c0 adds to that coefficient of the phase |
| Encoding.DecodeIff | src/client_main.cpp:497-501 | scale-and-round returns the plaintext exactly when the centred error is below q / 2 |
| Encoding.WithinSum | src/client_main.cpp:408 | carried plaintexts and error bounds add |
| Encoding.DeltaEncodes | src/client_main.cpp:536-541 | a rounded multiple of q / p with an error carries its plaintext within a stated bound |
| Sampling.SampleBelow | src/utils.cpp:46-60 | the first word not below the threshold, reduced; an exception exactly for bound zero |
| Sampling.SamplingUniform | src/utils.cpp:51-59 | every residue has exactly (2^64 - threshold) / bound accepted words |
| Sampling.Threshold | src/utils.cpp:53 | the wrapped expression is 2^64 mod the bound |
| Sampling.AddSignedMod | src/utils.cpp:81-102 | exact for every signed 64-bit delta, INT64_MIN included |
| Sampling.ValidateProtocolParameters | src/utils.cpp:104-127 | accepted exactly for a 54-bit q and a 20-bit p announced as such |
| Sampling.BitLength | src/utils.cpp:18-27 | the position of the highest set bit |
| Sampling.SelectPolyModulusDegree | src/utils.cpp:129-143 | the least allowed degree of which 2^(logSize / 2) rows hold 2^logSize entries; an error exactly for logSize over 30 |
| Sampling.PartitionsFill | src/utils.cpp:134-135 | 2^(logSize / 2) partitions make up the database, each 2^(logSize / 2) entries or twice that |
| Codec.SendBatchQueries | src/network.cpp:216-258 | the payload is the count followed by every query's packed bits, words, length and bytes |
| Codec.PackBits | src/network.cpp:233-240 | the reused buffer holds exactly this query's bits, padding clear |
| Codec.ReceiveBatchQueries | src/network.cpp:261-304 | accepted exactly when the specified decoding accepts, with its queries, and overrun exactly when a length field makes the 64-bit bound test wrap |
| Codec.ReceiveQuery | src/network.cpp:279-301 | a query is read exactly when the bytes hold one; the wrapped test is reported exactly when it wraps; else the bytes are too short |
| Codec.InBoundsIff | src/network.cpp:295 | the program's 64-bit test agrees with the true bound exactly when the sum stays below 2^64 |
| Codec.WrappedPayload | src/network.cpp:295 | seventeen bytes whose length field of 2^64 - 17 passes the test although they hold no query |
| Codec.WrappedIsRejected | src/network.cpp:295 | the specified decoding rejects every payload on which the test wraps |
| Codec.SentNeverWraps | src/network.cpp:216-258 | no payload the sender makes is one of them |
| Codec.ReadBytes | src/network.cpp:206-213 | the next bytes, or failure with the offset unmoved |
| Codec.BatchRoundTrip | src/network.cpp:216-304 | parsing a packed batch returns every query and ends at the payload's end, for any number of partitions |
| Wire.AcceptedIff | src/network.cpp:261-304 | a payload is accepted as a batch exactly when its bytes are the count and then each query's bits, offsets, length and ciphertext at their places, ending with the payload |
| Wire.SentLayout | src/network.cpp:216-258 | the sender's payload is laid out so |
| Wire.EncodedDigits | src/network.cpp:216-258 | byte i of an encoded number x is x / 256^i % 256 |
| Codec.QueryRoundTrip | src/network.cpp:232-301 | one query followed by anything is read back and its length found |
| Codec.UnpackPacked | src/network.cpp:233-287 | unpacking undoes packing, also when 8 does not divide the number of partitions |
| Codec.PackUnpackedIff | src/network.cpp:233-287 | packing undoes unpacking exactly when the padding bits are zero |
| Words.AddUint64Carry | encryption/utils/basics.h:202-206 | sum and carry recombine to the exact sum |
| Words.SubUint64Borrow | encryption/utils/basics.h:276-280 | difference and borrow recombine to the exact difference |
| Words.MultiplyWide | encryption/utils/basics.h:585-589 | the two words recombine to the exact product |
| Barrett.Reduce | encryption/modulus.h:22-41 | exact for every 64-bit input |
| Barrett.Reduce128 | encryption/modulus.h:44-78 | the carry chain and one subtraction are exact for every 128-bit input |
| Barrett.CarryChain | encryption/modulus.h:56-67 | the partial products and carries add up to floor(input * ratio / 2^128) |
| Barrett.HighRatio | encryption/modulus.h:25-30 | the ratio's high word is floor(2^64 / m) |
| Barrett.MultiplyMod | encryption/modulus.h:87-92 | the product of any two words, reduced |
| UintSmallMod.AddMod | encryption/utils/uint_small_mod.h:54-61 | the residue of the sum |
| UintSmallMod.SubMod | encryption/utils/uint_small_mod.h:64-72 | the residue of the difference, through the wrapped borrow |
| UintSmallMod.NegateMod | encryption/utils/uint_small_mod.h:29-35 | the residue of the negation |
| UintSmallMod.MultiplyAddMod | encryption/utils/uint_small_mod.h:189-196 | the lazy 128-bit accumulator does not overflow and the result is exact |
| UintSmallMod.MakeShoupOperand | encryption/utils/uint_small_mod.h:92-114 | the kept low word is the whole quotient |
| UintSmallMod.ShoupLazy | encryption/utils/uint_small_mod.h:142-148 | congruent and below twice the modulus, for every 64-bit x |
| UintSmallMod.ShoupMultiply | encryption/utils/uint_small_mod.h:130-139 | exact for every 64-bit x |
| UintSmallMod.ShoupMultiplyAdd | encryption/utils/uint_small_mod.h:203-214 | exact for every x and addend |
| UintSmallMod.Exponentiate | encryption/utils/uint_small_mod.h:221-236 | square-and-multiply gives the reduced power, except that exponent one returns its operand |
| UintSmallMod.ExponentiateReducedIff | encryption/utils/uint_small_mod.h:222-223 | the result is the reduced power exactly unless the exponent is one and the operand unreduced |
| UintSmallMod.ExponentiateUnreduced | encryption/utils/uint_small_mod.h:223 | five to the power one modulo three comes back as five |
| UintSmallMod.ModuloUint | encryption/utils/uint_small_mod.h:166-182 | the remainder of a number of any word count |
| UintSmallMod.ModuloUintInPlace | encryption/utils/uint_small_mod.h:151-163 | remainder in the low word, zeros above it |
| UintSmallMod.DotProductMod | encryption/utils/uint_small_mod.h:251-261 | the accumulator keeps the sum modulo 2^128 |
| UintSmallMod.DotProductExact | encryption/utils/uint_small_mod.h:251-261 | exact for up to 64 terms below 2^61 |
| NumberTheory.ComputeGcd | encryption/utils/number_theory.h:14-21 | the greatest common divisor |
| NumberTheory.GcdIsGreatest | encryption/utils/number_theory.h:14-21 | it divides both and every common divisor divides it |
| NumberTheory.ExtendedGcd | encryption/utils/number_theory.h:29-46 | for any first input: Bezout coefficients within the second, and a signed overflow exactly when the last coefficient, of magnitude a / gcd, has no signed word |
| NumberTheory.LargeInputsOverflow | encryption/utils/number_theory.h:35-42 | it overflows on 2^64 - 1 modulo two and on 2^63 modulo seven, not on 2^63 modulo three |
| NumberTheory.TryInvert | encryption/utils/number_theory.h:53-68 | for any value: no inverse exactly when the gcd is not one, an overflow exactly when extended Euclid has one, else the inverse in range |
| Fermat.LittleTheorem | encryption/utils/uint_small_mod.h:286-287 | a^(p-1) = 1 modulo a prime p |
| Fermat.SquareRootsOfOne | encryption/utils/uint_small_mod.h:294-299 | one has only the square roots 1 and -1 modulo a prime |
| MillerRabin.Witness | encryption/utils/uint_small_mod.h:289-300 | passes exactly when a^d is one, or a^(d * 2^i) is -1 for some i from 0 to max(1, r - 1) |
| MillerRabin.PrimeAccepted | encryption/utils/uint_small_mod.h:289-300 | no base convicts a prime |
| MillerRabin.CompositeConvicted | encryption/utils/uint_small_mod.h:289-300 | 323 = 17 * 19 passes trial division and is convicted by the first base |
| MillerRabin.TrackEndsEarly | encryption/utils/uint_small_mod.h:293-298 | for a prime the squaring loop never needs its last allowed round |
| MillerRabin.IsPrimeTest | encryption/utils/uint_small_mod.h:264-302 | small values and multiples of primes up to 13 are decided exactly; any other value is called prime exactly when each of the forty bases accepts it, for its one decomposition d * 2^r with d odd; so a prime is never rejected; exact below 289 |
| MillerRabin.OddPartUnique | encryption/utils/uint_small_mod.h:283-285 | there is only one such decomposition |
| CorrectionFactors.BalanceFactors | encryption/evaluator_utils.h:254-305 | for any two words, reduced or not: fails exactly when factor1 has no inverse; reports an overflow exactly when the inversion or the first sum of magnitudes has one; else reduced e1, e2 with e1 * factor1 = e2 * factor2 = prod, namely the first pair, or the earliest of the coprime pairs of Euclid's algorithm with the least sum if that is below the factors' own; nothing else overflows |
| CorrectionFactors.SignedSumAbs | encryption/evaluator_utils.h:261-265 | the signed words add up to the magnitudes of the centred representatives, through the wrapped difference and its conversion |
| CorrectionFactors.ReducedSumFits | encryption/evaluator_utils.h:294-297 | for reduced factors the sum is at most t |
| CorrectionFactors.SumOverflowsIff | encryption/evaluator_utils.h:261-265 | for factors below 2^63 the sum leaves the signed words exactly when factor1 + factor2 >= 2^63 + 2t, and then both are unreduced |
| CorrectionFactors.LargeFactorsOverflow | encryption/evaluator_utils.h:275-276 | two factors of 2^63 - 1 modulo three are inverted and then overflow the sum |
| CorrectionFactors.TracksStep | encryption/evaluator_utils.h:287-292 | each Euclid step keeps both remainders congruent to their multiple of the ratio |
| CorrectionFactors.PairBalances | encryption/evaluator_utils.h:297-304 | any pair the loop reaches balances the factors |
| Multiword.AddUintCarry | encryption/utils/basics.h:227-240 | result and carry recombine to the sum, with short and aliased operands |
| Multiword.SubUintBorrow | encryption/utils/basics.h:289-302 | result and borrow recombine to the difference, with short and aliased operands |
| Multiword.CompareUint | encryption/utils/basics.h:682-691 | the sign of the difference of two numbers of any lengths |
| Multiword.AddUintMod | encryption/utils/basics.h:719-724 | the residue of the sum of two residues of any word counts, when the modulus fits the result; over the modulus array itself, zero |
| Multiword.AddedOverIff | encryption/utils/basics.h:719-724 | over the modulus array it is right exactly for two zeros or operands that add up to the modulus |
| Multiword.SubUintMod | encryption/utils/basics.h:732-736 | the residue of the difference of two residues of any word counts, when the modulus fits the result; over the modulus array itself, twice the wrapped difference after a borrow |
| Multiword.SubtractedOverIff | encryption/utils/basics.h:732-736 | after such a borrow it is right exactly when the operands differ by what the modulus leaves of the range |
| Multiword.NegateUint | encryption/utils/basics.h:358-371 | what the restarted loop leaves, in place or not: the complement of what it reads, and the negation only for a zero low word |
| Multiword.NegateUintIff | encryption/utils/basics.h:358-371 | in place or not, it negates exactly the numbers whose low word is zero |
| Multiword.NegateOneWrong | encryption/utils/basics.h:358-371 | the single word one is turned into 2^64 - 2, in place into 0 |
| MultiwordProduct.MultiplyUintUint64 | encryption/utils/basics.h:592-619 | the product modulo 2^(64 * words); in place on two words or more it clears its own operand |
| MultiwordProduct.InPlaceProductIff | encryption/utils/basics.h:617-619 | in place it is right exactly for one word, a zero factor, or factors with as many trailing zeros as the result has bits |
| MultiwordProduct.MultiplyUint | encryption/utils/basics.h:622-650 | for any operands and result: the schoolbook product modulo 2^(64 * words), the square of a low word for a single result word, zero when it clears an operand it then reads |
| MultiwordProduct.MultipliedIff | encryption/utils/basics.h:622-650 | from two result words on it is the product exactly when no cleared operand is read again or the product vanishes by its trailing zeros |
| MultiwordProduct.MultiplyRow | encryption/utils/basics.h:634-649 | one row adds one shifted multiple, carries included; on a cleared operand it adds nothing |
| MultiwordProduct.OneWordProductIff | encryption/utils/basics.h:624 | the single-word result is the product exactly when the low words agree, the first is zero, or it and their difference have 64 trailing zeros between them |
| MultiwordProduct.OneWordProductWrong | encryption/utils/basics.h:624 | two times three into one word gives four |
| MultiwordProduct.SignificantCount | encryption/utils/basics.h:96-100 | the number of words up to the highest nonzero one |
| MultiwordProduct.MultiplyMany | encryption/utils/basics.h:739-750 | the exact product of all operands; over its own operands, zero |

## Left out

- The pseudorandom function is an arbitrary function of three words to blocks; AES, key generation and the packing of the three words into its input are not modelled.
- Lattice encryption, decryption, encoding and scale-and-round are given by their mathematical meaning; the bodies of the homomorphic library (transforms, tables, memory pool) are not part of this model, nor is `Modulus::set_value`, so the Barrett ratio is an invariant of the modulus.
- The double-precision scaling by q / p is an integer function within a stated bound, and the Gaussian sampler a number within a stated bound.
- `& (PartSize - 1)` is written as the remainder by `PartSize`, which is a power of two in the program.
- Sockets, the length prefix around a payload, the ciphertext's byte format (a pair of functions that undo each other), oblivious transfer (modelled as receiving the selected answer), threads, timing, statistics and argument parsing.
- `OneSVClient::Online` in src/client.cpp still unmasks modulo p while the server answers modulo q; its hint search and refresh are those modelled here.
- Session.RunClient: follows the intended test for "no hint"; the loop as written is `Runs.MainRun`.
- Protocol.StepOutcome: the same intended test; `Runs.MainStepIff` is about the one at line 360.
- ClientObject.OneSVClient.Online: a query without a hint is skipped, as the test of src/client.cpp:414 does; the main loop's own test lets it go on and read past the hint arrays, which has no defined result (`Runs.MainStepIff`).
- ClientObject.OneSVClient.RunOnline: as for Online, with `Runs.MainRunExact`; and a run ends where the skip loop would read cutoffs Offline never writes, because what it finds there is not defined.
- ClientObject.OneSVClient.RefreshSlot: stops where the program's skip loop reads on past the written cutoffs, and says so in its result.
- Refresh.NextValid: the same end of the written cutoffs.
- Offline's retry loop and rejection sampling end only with probability one: the first assumes a fair dummy stream, the second reports a finite supply of words as still rejecting.
- The 64-bit counter of dummy indices is unbounded here; the block number passed on is cut to 32 bits as in the program.
- ClientObject.OneSVClient.Offline: requires a fair dummy stream, because otherwise the program's loop does not end.
- Codec.ReceiveQuery: after a wrapped bound test the program loads the ciphertext from a stream written with a negative count, whose contents are not defined, and moves its offset back; the model reports the wrap and the earlier offset and stops there. Payloads are no longer than the largest vector.
- Codec.ReceiveBatchQueries: stops at such a query.
- NumberTheory.ExtendedGcd: the second input is below 2^63, as every modulus it is called with is; the coefficients after an overflow are not defined.
- NumberTheory.TryInvert: the modulus is at least two and below 2^63, for the same reason.
- CorrectionFactors.BalanceFactors: the pair is the least among those the loop goes through, not among all that balance, because the program's starting sum is that of the input factors; says nothing about the values after an overflow, which are not defined.
- MultiwordProduct.MultiplyMany: the result has a word for each operand, because the loop copies that many into it.
- Bit shifts and division of multiword numbers, which the modelled code does not call.
- The variant with a simulated large database, debug entries and the partition-keyed pseudorandom function.
