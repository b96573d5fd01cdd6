# PaXoS private set intersection, modelled and proved in Dafny

This project models the core of the PaXoS PSI implementation: the oblivious dictionary, the OT
extension that transfers it, the protocol that puts both together, and the xxHash code behind the
dictionary's hash tables. All statements are for every input, every reachable state or every run.

`dafny verify dfyconfig.toml` checks the whole project.

## What is modelled

* **The oblivious dictionary** (`PeelingGraph`, `Unpeeling`, `CoreSystem`, `Decoding`,
  `ObliviousDictionaries`). A class with the fields of the original: it inserts keys into two
  bucket tables, peels keys that are alone in a bucket (two sweeps and a back-tracking chain),
  solves a column-compressed linear system for the remaining 2-core, and chooses the other
  variables in reverse peeling order. `HashedLayout` instantiates the buckets with the real hash.
* **The OT extension** (`OtBlocks`, `OtParties`, `OtExtension`, `OtBatches`, `OtCheck`). Two
  classes that work on rows of 128-bit blocks, a state machine on whole rows with a first-in-first-out
  wire that their methods are tied to, the batch loops of both parties under every schedule, and
  the consistency check.
* **The protocol** (`Serialisation`, `Psi`, `PsiRun`). Masking and byte forms, the exact match
  criterion, and one run over the objects of all parts: `PsiRun.Run`.
* **xxHash** (`Words`, `Streaming`, `Tail`, `XxHash64`, `XxHash32`, `Xxh3`, `Xxh3Hash`, `Fold128`). Streaming
  against one-shot hashing, the finalizers, injectivity in keys, seeds, stripes and tails, the stripe schedule of XXH3,
  and its portable wide multiplication.

## How things are represented

* A bit string (field element, matrix row, code word, list of selected positions) is the set of
  the positions of its one bits (`Gf2.Bits`): XOR is symmetric difference, AND is intersection. Only
  the additive group of the field is used by the code.
* Machine words are natural numbers; wrap-around, shifts, rotations and XOR are written out in
  `Words`.
* Foreign code is a parameter: the library solver is any function from a system to an answer. Where
  a result needs that it solves what can be solved, this is a hypothesis of that result. AES, the
  generators' block stream, the reduction of field elements, the random elements of the unpeeling
  and the fixed-key encryption are arbitrary functions.
* A bucket of a hash table is the set of the keys in the table with that bucket number. Keys are
  distinct and are set once per dictionary, as the receiver does. `sign` is never cleared by the
  code; that only variables of the 2-core are signed is true of a new dictionary and kept by every run.
* The code is a generator matrix over GF(2); that encoding is linear is proved (`Gf2.SelectLinear`).
* The receiver is modelled in both builds: the debug build checks how its methods are used. The debug
  build stops at the first row it refuses; in `PsiRun` this is found out before the first row is encoded.
  The sender's bounds are checked as in the debug build.
* The XXH64 digest decides by a 64-bit length counter whether a stripe was consumed. What it computes past
  2^64 bytes, where no one-shot call exists, is `Streaming.CountedHash`.

## Where the code does not do what it is for

* **Zero as a marker.** Unpeeling takes a variable for free if it is zero and unsigned, but a chosen
  variable can be zero. Then a later step chooses it again and breaks a key that was right.
  `Unpeeling.ZeroIsNotAFreeMarker` gives an instance. `Unpeeling.HoldsThroughoutIff` says exactly when
  the dictionary is right after every step, by the guard of the filling branch, evaluated before the
  step. `Unpeeling.RightIff` says exactly when the finished dictionary is right, by the same guards and
  the values filled in (two overwritten variables of one key can come out alike).
* **Encoding a row once more.** `zeroEncode` marks its row without testing the mark, so it also changes
  rows that are encoded or sent already. `OtExtension.RezeroedAfterSending` gives an instance;
  `OtExtension.SentRowsStay` and `OtExtension.StepInv` say exactly when this does no harm.
* **Stale tail in XXH3 streaming.** The digest completes a short last stripe from the end of the
  internal buffer, which the direct path of `update` does not refresh. `Xxh3.StaleTail` and
  `Xxh3Hash.StaleAccumulators` give 257 bytes in one update; `Xxh3.Streamed` says, from the pieces alone,
  exactly when streaming follows the one-shot schedule.
* **Masking a whole byte.** When the field size is a multiple of eight, `zeroBits` is eight and the
  last byte of every value becomes zero. `Serialisation.MaskedValuesAre` says exactly which values come
  out, `Serialisation.LostAt72` gives two values that become one.
* **Zero as a marker, again.** The debug build takes a row whose first T0 block is zero for
  uninitialised, but an expanded row can start with a zero block. `PsiRun.Usable` is the exact
  condition under which the protocol comes to the end.
* **A check that cannot fail.** The sender computes the comparison of the consistency check, but
  the statement that would reject is commented out (libPSI/PRTY2/PrtyMOtSender.cpp:866-871):
  `OtCheck.Compare` rejects nothing, and `OtCheck.WrongSumsExist` gives sums it should reject.

## Model

| member | source | states |
|---|---|---|
| `PeelingGraph.PeelAccounts` | frontend/ObliviousDictionary.cpp:155-217 | a peeling removes every key of its order once: peeled keys and rest partition the key set, so the counter never exceeds the number of keys |
| `PeelingGraph.StuckAvoidsRemovable` | frontend/ObliviousDictionary.cpp:156-164 | a key alone in a bucket belongs to no key subset without singleton buckets |
| `PeelingGraph.StuckSurvivesPeeling` | frontend/ObliviousDictionary.cpp:148-217 | every key subset without singleton buckets survives any peeling |
| `PeelingGraph.PeelingEndsInCore` | frontend/ObliviousDictionary.cpp:148-217 | what any peeling leaves when no bucket holds exactly one key is the largest such subset, the 2-core |
| `PeelingGraph.PeelingIsConfluent` | frontend/ObliviousDictionary.cpp:148-217 | two exhaustive peelings in whatever sweep order leave the same keys and peel equally many |
| `ObliviousDictionaries.ObliviousDictionary.constructor` | frontend/ObliviousDictionary.cpp:90-135 | a new dictionary has no signed variable |
| `ObliviousDictionaries.ObliviousDictionary.SetKeysAndVals` | frontend/ObliviousDictionary.h:64-77 | replaces keys and value bytes |
| `ObliviousDictionaries.InsertedAll` | frontend/ObliviousDictionary.cpp:50-87 | with distinct keys, the value map sends every key to the value given with it and holds nothing else |
| `ObliviousDictionaries.InsertedFirst` | frontend/ObliviousDictionary.cpp:67-68 | whatever the keys, the first value given for a key is the one in the map |
| `ObliviousDictionaries.ObliviousDictionary.Init` | frontend/ObliviousDictionary.cpp:50-87 | the value map is the insertion of all field elements read from the bytes; tables, counter and variables are reset |
| `ObliviousDictionaries.ObliviousDictionary.FillTables` | frontend/ObliviousDictionary.cpp:137-146 | both tables hold exactly all keys in addition to what they held |
| `ObliviousDictionaries.ObliviousDictionary.Peel` | frontend/ObliviousDictionary.cpp:158-164 | recording and deleting a removable key keeps the peeling invariant, and changes one bucket of either table |
| `ObliviousDictionaries.ObliviousDictionary.FirstSweep` | frontend/ObliviousDictionary.cpp:155-166 | one pass leaves no singleton bucket in the first table |
| `ObliviousDictionaries.ObliviousDictionary.FollowChain` | frontend/ObliviousDictionary.cpp:182-215 | the back-tracking chain terminates because the remaining keys decrease, and leaves no singleton in the first table nor in second buckets up to the sweep's position |
| `ObliviousDictionaries.ObliviousDictionary.ChainStep` | frontend/ObliviousDictionary.cpp:186-213 | one round of the chain removes keys and leaves at most the bucket it goes back to as a singleton |
| `ObliviousDictionaries.ObliviousDictionary.SecondSweep` | frontend/ObliviousDictionary.cpp:174-217 | the second sweep with its chains leaves no singleton bucket in either table |
| `ObliviousDictionaries.ObliviousDictionary.PeelAll` | frontend/ObliviousDictionary.cpp:148-229 | peeling leaves exactly the 2-core, the recorded order is a valid peeling, and the counter stays within the number of keys |
| `CoreSystem.EquationRow` | frontend/ObliviousDictionary.cpp:301-315 | the row built bit by bit has ones exactly at the two bucket columns and the columns of the extra bits |
| `CoreSystem.AddRow` | frontend/ObliviousDictionary.cpp:280-318 | appending a key's equation keeps both column numberings injective and within the rows so far, and all earlier rows meaningful |
| `CoreSystem.AllBuilt` | frontend/ObliviousDictionary.cpp:240-322 | the finished system has one row for each core key, hence as many as keys minus peeled keys |
| `ObliviousDictionaries.ObliviousDictionary.BuildSystem` | frontend/ObliviousDictionary.cpp:231-322 | the rows are exactly the equations of the keys left in the tables, their number is hashSize minus peelingCounter, and exactly their variables get signed |
| `CoreSystem.PlaceKey` | frontend/ObliviousDictionary.cpp:351-357 | copying a key's two entries keeps those of all keys already copied, shared buckets included |
| `CoreSystem.PlaceExtra` | frontend/ObliviousDictionary.cpp:380-382 | the extra variables are the last gamma entries of the answer, and bucket variables stay |
| `ObliviousDictionaries.ObliviousDictionary.CopyBack` | frontend/ObliviousDictionary.cpp:349-382 | the answer stands at the places of all core keys, and variables of no core key are not touched |
| `CoreSystem.CompressionKeepsMeaning` | frontend/ObliviousDictionary.cpp:284-382 | a core key's full-width sum over the copied-back variables is its compressed row times the answer |
| `CoreSystem.SolvesIff` | frontend/gf2e_mat_solve.cpp:19-62 | a copied-back answer solves the compressed system if and only if all core keys decode to their values |
| `CoreSystem.ColumnOfBucket` | frontend/ObliviousDictionary.cpp:284-296 | no two buckets share a column, so a column has one full-width variable |
| `CoreSystem.CompressionIsComplete` | frontend/ObliviousDictionary.cpp:284-382 | a full-width solution of the core's equations gives a solution of the compressed system |
| `CoreSystem.Answers` | frontend/gf2e_mat_solve.cpp:19-62 | with a solver that solves what can be solved, the interface returns a solution where there is one, also for the empty system, which it leaves alone |
| `CoreSystem.SolvedIffSolvable` | frontend/ObliviousDictionary.cpp:231-390 | with such a solver, the compressed system of the core is solved if and only if some variables satisfy the core's equations |
| `ObliviousDictionaries.ObliviousDictionary.GenerateExternalToolValues` | frontend/ObliviousDictionary.cpp:231-390 | the system given to the solver is that of the core's equations, row by row; its answer is what is copied back; nothing else is written and exactly the core's variables are signed |
| `Unpeeling.StepFrame` | frontend/ObliviousDictionary.cpp:420-440 | an unpeeling step writes nothing but free endpoints of its key |
| `Unpeeling.StepSolves` | frontend/ObliviousDictionary.cpp:404-441 | a step with a free endpoint makes its key decode to its value |
| `Unpeeling.FilledIff` | frontend/ObliviousDictionary.cpp:420-434 | with both endpoints free, which of them a step fills, and with what, is decided by the random element and the missing sum alone |
| `Unpeeling.ChangesIffClobbered` | frontend/ObliviousDictionary.cpp:420-434 | a step changes a variable of another key if and only if the guard, evaluated before the step, holds |
| `Unpeeling.OwnEndpointAt` | frontend/ObliviousDictionary.cpp:174-217 | every peeled key has an endpoint that no core key and no later peeled key has |
| `Unpeeling.OwnIsFree` | frontend/ObliviousDictionary.cpp:404-441 | at its own step, every peeled key has a free endpoint that no key unpeeled before it has |
| `Unpeeling.UnpeeledFrame` | frontend/ObliviousDictionary.cpp:395-449 | unpeeling leaves the core's variables, the extra variables and variables of no key as they are |
| `Unpeeling.UnpeeledFits` | frontend/ObliviousDictionary.cpp:395-449 | with values and random elements of the field, unpeeling yields elements of the field |
| `Unpeeling.NonzeroStays` | frontend/ObliviousDictionary.cpp:420-440 | a variable that is signed, extra or nonzero after some step is never written afterwards |
| `Unpeeling.RefilledIff` | frontend/ObliviousDictionary.cpp:420-434 | a zero variable of an unpeeled key is nonzero in the end if and only if the guard of some later step fills it, and then it is what that step fills it with |
| `Unpeeling.StepKeepsIff` | frontend/ObliviousDictionary.cpp:404-441 | after a step all keys so far are right if and only if the guard for overwriting a zero variable of an earlier key does not hold before it |
| `Unpeeling.HoldsThroughoutIff` | frontend/ObliviousDictionary.cpp:395-449 | the keys so far are right after every step if and only if that guard holds before no step |
| `Unpeeling.PeeledKeyHoldsIff` | frontend/ObliviousDictionary.cpp:395-449 | a peeled key is right in the end if and only if no later step fills one of its variables, or later steps fill both, alike; guards and fill values are those before the steps |
| `Unpeeling.RightIff` | frontend/ObliviousDictionary.cpp:395-481 | the finished dictionary is right for all keys if and only if the core was solved and that holds of every peeled key |
| `Unpeeling.RightUnlessZeroLeft` | frontend/ObliviousDictionary.cpp:395-481 | every key decodes to its value unless some step left a zero in an unsigned variable of an unpeeled key |
| `Unpeeling.ZeroIsNotAFreeMarker` | frontend/ObliviousDictionary.cpp:420-440 | two keys sharing a bucket, values zero and a zero random element: the result is wrong |
| `ObliviousDictionaries.ObliviousDictionary.UnpeelKey` | frontend/ObliviousDictionary.cpp:404-441 | the three guarded assignments compute the specified step |
| `ObliviousDictionaries.ObliviousDictionary.Unpeel` | frontend/ObliviousDictionary.cpp:395-449 | the loop from the last peeled key to the first computes the specified unpeeling |
| `ObliviousDictionaries.Conclude` | frontend/ObliviousDictionary.cpp:137-449 | from a valid peeling and a core system answered by the solver follow the exact conditions for a right dictionary |
| `ObliviousDictionaries.VariablesFit` | frontend/ObliviousDictionary.cpp:231-449 | with a solver and random elements that stay in the field, all variables are elements of the field |
| `ObliviousDictionaries.SignsKept` | frontend/ObliviousDictionary.cpp:303-304 | over repeated runs with the same keys, only variables of the 2-core are ever signed |
| `ObliviousDictionaries.ObliviousDictionary.CreateDictionary` | frontend/ProtocolParty.cpp:260-304 | the whole construction: the core's system is what the solver gets and its answer what is copied back; all keys decode to their values if and only if it solved the system and no peeled key is touched; a solver that solves what can be solved does so exactly if the core's equations can be satisfied |
| `ObliviousDictionaries.ObliviousDictionary.CheckOutput` | frontend/ObliviousDictionary.cpp:451-481 | the check succeeds if and only if every key decodes to its value |
| `Decoding.Dec` | frontend/ObliviousDictionary.cpp:25-43 | lists both buckets and, in order, the extra bits that are set |
| `Decoding.SumOfListed` | frontend/ObliviousDictionary.cpp:457-470 | adding up the listed rows is the vector-matrix product of the key's positions with the rows |
| `Unpeeling.DecodeParts` | frontend/ObliviousDictionary.cpp:25-43 | a key's selected sum is left plus right plus extra variables, also when positions could coincide |
| `HashedLayout.HashedIsValid` | frontend/ObliviousDictionary.cpp:45-48 | buckets and extra bits taken from any three hashes form a layout all dictionary results apply to |
| `HashedLayout.HashedIs` | frontend/ObliviousDictionary.cpp:45-48 | the buckets of a key differ from its first and second hash by multiples of the table size and are below it; the number whose one bits are the extra bits is the third hash divided by 2^(64 - gamma), rounded down |
| `HashedLayout.SeedsAre` | frontend/ObliviousDictionary.cpp:7-12 | the three hashes are 64-bit words under three seeds, and no two of them are alike for any key |
| `HashedLayout.HashedDictionary` | frontend/ObliviousDictionary.cpp:90-135 | a dictionary whose buckets and extra bits are tied to the real hashes key by key, with the field given, set up and constructed, with all that is proved of the construction |
| `HashedLayout.HashesDiffer` | frontend/Hasher.h:30-34 | before reduction to buckets, distinct keys have distinct hashes under every seed |
| `Serialisation.MaskedValueFits` | frontend/ProtocolParty.cpp:15-17 | masked values fit into the field; with a field size divisible by eight even into eight bits less |
| `Serialisation.MaskedValuesAre` | frontend/ProtocolParty.cpp:82-96 | masking yields exactly all elements of the field, or, if the field size is a multiple of eight, exactly those whose upper eight bits are zero |
| `Serialisation.TopBitSurvivesIff` | frontend/ProtocolParty.cpp:15-17 | some value keeps the highest bit of the field if and only if the field size is no multiple of eight |
| `Serialisation.LostAt72` | frontend/ProtocolParty.cpp:322-325 | field size 72: two values that are different elements of the field become one |
| `Serialisation.MaskAll` | frontend/ProtocolParty.cpp:82-96 | masking in place masks every value and nothing else |
| `Serialisation.GetVariables` | frontend/ObliviousDictionary.h:97-107 | chunk i of the output is the byte form of variable i |
| `Gf2.BytesRoundTrip` | frontend/ObliviousDictionary.h:97-107 | a field element that fits survives the way to bytes and back |
| `Gf2.BitsRoundTrip` | frontend/ObliviousDictionary.cpp:67-72 | value bytes survive the way to a field element and back |
| `Serialisation.ByteOfSelect` | frontend/ProtocolParty.cpp:518-526 | a byte of a selected sum is the selected sum of the bytes |
| `Serialisation.CheckVariables` | frontend/ProtocolParty.cpp:499-541 | an error is reported if and only if some key's decoded bytes differ from its value bytes |
| `Serialisation.BytesAgree` | frontend/ProtocolParty.cpp:528-533 | value bytes are those of a bit string that has nothing beyond them if and only if it is theirs |
| `PsiRun.CheckBytes` | frontend/ProtocolParty.cpp:499-541 | serialising a dictionary and checking its bytes: every key decodes to its value if and only if no error is reported and what the keys decode to fits into the bytes, which it does when all variables are elements of the field |
| `PsiRun.CreateAndCheck` | frontend/ProtocolParty.cpp:499-541 | construct and check, with foreign code that stays in the field: no error is reported if and only if every key decodes to its value |
| `OtBlocks.Columns` | libPSI/PRTY2/PrtyMOtReceiver.cpp:126-138 | eight blocks of each of 128 generators, which advance by eight while the others stay |
| `OtBlocks.CopyChunk` | libPSI/PRTY2/PrtyMOtReceiver.cpp:149-172 | exactly the rows of the chunk are written, each in one block column, with the transposed blocks |
| `OtBlocks.ChunkCell` | libOTe/libOTe_Tests/OT_Tests.cpp:146-178 | block j of row k of a transposed chunk holds row 128j+k of the streams |
| `OtBlocks.Expand` | libPSI/PRTY2/PrtyMOtSender.cpp:105-182 | for every row count, bit c of row r is bit r of generator c's stream, the last partial super-block included, and all generators advance alike |
| `OtBlocks.ExpansionBit` | libPSI/PRTY2/PrtyMOtReceiver.cpp:126-172 | column c of an expanded matrix, bit by bit, in AES calls |
| `OtBlocks.ReadOnce` | libOTe/cryptoTools/cryptoTools/Crypto/PRNG.cpp:31-64 | over any sequence of draws and expansions of a seeded generator, what is drawn or expanded next lies at a counter that was neither drawn nor expanded before |
| `OtBlocks.NthDraw` | libOTe/cryptoTools/cryptoTools/Crypto/PRNG.cpp:31-64 | draw n of a seeded generator is the block at counter n, across refills of the buffer |
| `OtParties.PrtyMOtReceiver.SetBaseOts` | libPSI/PRTY2/PrtyMOtReceiver.cpp:39-53 | seeds both generators of every column, or rejects a wrong count and changes nothing; what is then expanded is in `PsiRun.SetUp` |
| `OtParties.PrtyMOtReceiver.Init` | libPSI/PRTY2/PrtyMOtReceiver.cpp:54-179 | both matrices are the expansions of the first and second generators, their rows are the least multiple of 128 that holds all OTs and the extra rows of the check, flags and index are reset |
| `OtParties.PrtyMOtReceiver.OtCorrection` | libPSI/PRTY2/PrtyMOtReceiver.cpp:245-307 | in the stride-4 and the general branch: the row becomes t1 + C(w) + t0 and other rows stay; the debug build refuses an unconfigured input size, a row whose first T0 block is zero, and an encoded row, and changes nothing then |
| `OtParties.PrtyMOtReceiver.ZeroEncode` | libPSI/PRTY2/PrtyMOtReceiver.cpp:351-383 | the row becomes t0 + t1 and its word zero; the debug build refuses a row whose first T0 block is zero |
| `OtParties.PrtyMOtReceiver.SendCorrection` | libPSI/PRTY2/PrtyMOtReceiver.cpp:448-467 | hands over the next rows and advances the index; the debug build refuses if one is not encoded |
| `OtParties.PrtyMOtReceiver.Split` | libPSI/PRTY2/PrtyMOtReceiver.cpp:182-206 | the child is seeded with the next block of every generator |
| `OtParties.PrtyMOtSender.SetBaseOts` | libPSI/PRTY2/PrtyMOtSender.cpp:43-67 | seeds the generators and packs the choice bits, or rejects wrong counts |
| `OtParties.PrtyMOtSender.Init` | libPSI/PRTY2/PrtyMOtSender.cpp:96-183 | the matrix is the expansion of the generators, before setBaseOts too, with the least multiple of 128 rows that holds all OTs and the extra rows, and the index is reset; with base OTs set the sender is ready |
| `OtParties.PrtyMOtSender.RecvCorrection` | libPSI/PRTY2/PrtyMOtSender.cpp:504-522 | stores the rows asked for behind the earlier ones and advances the index, or refuses them if they do not fit or the message has another size |
| `OtParties.PrtyMOtSender.OtCorrection` | libPSI/PRTY2/PrtyMOtSender.cpp:186-234 | in both branches: adds the masked correction to the row and leaves the others |
| `OtParties.PrtyMOtSender.Split` | libPSI/PRTY2/PrtyMOtSender.cpp:69-90 | the child has the same choice bits and is seeded with the next block of every generator |
| `OtParties.CorrectionRow` | libPSI/PRTY2/PrtyMOtReceiver.cpp:270-306 | unrolled and looping block form both are the XOR of the three rows |
| `OtParties.CorrectedBlocks` | libPSI/PRTY2/PrtyMOtSender.cpp:207-233 | unrolled and looping block form both are the row plus the masked correction |
| `OtParties.LockstepThroughout` | libPSI/PRTY2/PrtyMOtSender.cpp:43-90 | over every sequence of matching setBaseOts (each with choice bits of its own), init and split calls, in every instance that has base OTs every sender generator is in the state of the receiver generator that the instance's choice bit selects |
| `OtParties.ChildKeepsChoice` | libPSI/PRTY2/PrtyMOtSender.cpp:69-90 | an instance that was split off keeps its choice bits when its parent gets base OTs with others |
| `OtParties.CallAll` | libPSI/PRTY2/PrtyMOtReceiver.cpp:182-206 | the same for any sequence of these calls on objects of both classes, with base OTs or without, and all objects split off from them |
| `OtParties.CallAllOnNew` | libPSI/PRTY2/PrtyMOtReceiver.cpp:39-53 | the same for objects that are made first, so that setBaseOts may be the first call |
| `OtParties.CallsAreUses` | libPSI/PRTY2/PrtyMOtReceiver.cpp:182-206 | a split draws one block of every generator, which seeds the child's, and an expansion fetches blocks for at least its rows |
| `OtParties.AllLivedThroughout` | libPSI/PRTY2/PrtyMOtReceiver.cpp:126-138 | over every sequence of calls, every generator of every instance is one that was seeded and used so, so that it reads no block twice |
| `OtParties.SenderHasChosenColumns` | libPSI/PRTY2/PrtyMOtSender.cpp:105-182 | generators in lockstep expand so that the sender has column c of T1 where its choice bit is set and of T0 elsewhere |
| `OtParties.InitBoth` | libPSI/PRTY2/PrtyMOtReceiver.cpp:75-177 | initialising both parties from lockstep generators gives an initial state of the machine, with rows for all OTs and the extra rows of the check, and keeps the lockstep |
| `OtParties.RoundedUp` | libPSI/PRTY2/PrtyMOtReceiver.cpp:75 | a multiple of 128, at least the OTs and the statistical parameter together, and by less than 128 more |
| `OtExtension.ZeroEncodeIsEncode` | libPSI/PRTY2/PrtyMOtReceiver.cpp:351-383 | for a row not yet encoded, encoding zero the short way is encoding the zero word |
| `OtExtension.StepInv` | libPSI/PRTY2/PrtyMOtReceiver.cpp:245-307 | a step of either party keeps the invariant for all rows if and only if it is no zeroEncode of an encoded row, or a harmless one |
| `OtExtension.StepKeeps` | libPSI/PRTY2/PrtyMOtReceiver.cpp:351-383 | every step keeps the invariant for all rows but one that zeroEncode encodes once more |
| `OtExtension.RezeroedAfterSending` | libPSI/PRTY2/PrtyMOtReceiver.cpp:351-383 | for any one-row set-up of this shape, the row encoded, sent, zero-encoded, received and corrected: the sent row is changed, and the OT relation fails |
| `OtExtension.RezeroedInstance` | libPSI/PRTY2/PrtyMOtReceiver.cpp:351-383 | such a set-up |
| `OtExtension.CorrectedRows` | libPSI/PRTY2/PrtyMOtSender.cpp:186-234 | after any interleaving and batching, a row that was not encoded twice and was corrected once (an odd number of times) is T0 plus the masked code word of its input |
| `OtExtension.SentRowsStay` | libPSI/PRTY2/PrtyMOtReceiver.cpp:448-467 | over every run, a sent row stays as it was sent if and only if no zeroEncode hits it or its T0 row is zero |
| `OtExtension.IndicesTrack` | libPSI/PRTY2/PrtyMOtSender.cpp:504-522 | received rows plus rows on the wire are the rows sent, and a batch that arrives fits |
| `OtBatches.ReceiverStepInv` | frontend/ProtocolParty.cpp:419-427 | the receiver's loop is never refused and keeps the invariant of both loops |
| `OtBatches.SenderStepInv` | frontend/ProtocolParty.cpp:615-623 | with a message there, the sender's loop gets the size it asks for, is never refused and keeps the invariant |
| `OtBatches.NoDeadlock` | frontend/ProtocolParty.cpp:419-427 | until both loops are done, one of them can step |
| `OtBatches.EveryStepCounts` | frontend/ProtocolParty.cpp:615-623 | every step of either loop leaves exactly one step less, and none are left exactly when both loops are done |
| `OtBatches.SchedulesEnd` | frontend/ProtocolParty.cpp:615-623 | both loops are done after a schedule if and only if it has as many effective steps as there were to make; it never has more |
| `OtBatches.StepsAtStart` | frontend/ProtocolParty.cpp:615-623 | at the start there are two steps for every row and three for every batch |
| `OtBatches.BatchesRoundUp` | frontend/ProtocolParty.cpp:419-427 | the batches are the rows divided by the batch size, rounded up |
| `OtBatches.FairSchedulesEnd` | frontend/ProtocolParty.cpp:419-427 | every schedule of enough rounds in which both parties get a turn ends with both loops done |
| `OtBatches.AllRowsCorrected` | frontend/ProtocolParty.cpp:615-623 | whatever the schedule and batch size, when both loops are done every row satisfies the OT relation for its input |
| `OtCheck.RowChallenge` | libPSI/PRTY2/PrtyMOtReceiver.cpp:599-617 | the slice of the expanded challenge a row consumes is its challenge bit in every sum, across chunks |
| `OtCheck.CoinIs` | libPSI/PRTY2/PrtyMOtReceiver.cpp:593-608 | the challenge bit of a row in a sum is a bit of the AES stream |
| `OtCheck.CoinsAreDistinct` | libPSI/PRTY2/PrtyMOtReceiver.cpp:593-608 | different rows and different sums read different bits of that stream, also in different chunks |
| `OtCheck.SumIsSelection` | libPSI/PRTY2/PrtyMOtReceiver.cpp:623-663 | a random sum is the sum of exactly the rows whose challenge bit is set |
| `OtCheck.AddInPairs` | libPSI/PRTY2/PrtyMOtReceiver.cpp:623-663 | the four blocks of a row are added to the blocks of all sums, two sums (eight blocks) at a time |
| `OtCheck.SumsAdded` | libPSI/PRTY2/PrtyMOtReceiver.cpp:623-663 | adding blocks that way is one step of every random sum of whole rows |
| `OtCheck.AddInEights` | libPSI/PRTY2/PrtyMOtReceiver.cpp:665-696 | the same eight sums at a time, for the words |
| `OtCheck.ReceiverSums` | libPSI/PRTY2/PrtyMOtReceiver.cpp:493-696 | chunks of 128 rows and a partial last one, block by block, give the random sums of rows and words |
| `OtCheck.SenderSums` | libPSI/PRTY2/PrtyMOtSender.cpp:567-775 | the same for the sender's rows of four blocks, corrected on the fly |
| `OtCheck.QRow` | libPSI/PRTY2/PrtyMOtSender.cpp:703-713 | the four blocks of a sender row with its masked correction |
| `OtCheck.SumsAgree` | libPSI/PRTY2/PrtyMOtSender.cpp:849-874 | rows in the OT relation have random sums in the OT relation, by linearity of the code |
| `OtCheck.HonestCheckPasses` | libPSI/PRTY2/PrtyMOtSender.cpp:849-874 | for honest parties with uncorrected rows, tSum + qSum = C(wSum) and s in every sum and for every challenge |
| `OtCheck.Compare` | libPSI/PRTY2/PrtyMOtSender.cpp:849-874 | the comparison is equal in all sums if and only if the check's relation holds, and nothing is rejected either way |
| `OtCheck.WrongSumsExist` | libPSI/PRTY2/PrtyMOtSender.cpp:860-872 | against all sums of the sender there are answers that fail the comparison, which are not rejected |
| `OtCheck.HonestCheck` | libPSI/PRTY2/PrtyMOtSender.cpp:548-879 | both sides of the check after any honest exchange: the sums are the random sums of either party's rows and of the words, the relation holds in all of them, and the comparison succeeds |
| `Gf2.SelectLinear` | frontend/ProtocolParty.cpp:655-657 | encoding with a generator matrix is linear |
| `Psi.SenderSum` | frontend/ProtocolParty.cpp:643-653 | for any key, the sender's sum is the receiver's plus the masked code word of what the dictionary decodes to |
| `Psi.SenderRowIs` | frontend/ProtocolParty.cpp:643-667 | the sender's masked row for any key and value is the receiver's row plus the masked code word of decode + value |
| `Psi.MatchIff` | frontend/ProtocolParty.cpp:643-667 | the parties' rows for a key, member or not, are equal if and only if C(decode + value) vanishes under the choice bits |
| `Psi.ReceiverXors` | frontend/ProtocolParty.cpp:430-472 | the set holds the encrypted row of every key, and nothing else new |
| `Psi.SenderXors` | frontend/ProtocolParty.cpp:627-683 | entry i is the encrypted, masked row of key i |
| `Psi.CountMatches` | frontend/ProtocolParty.cpp:474-495 | the count is the size of the set of the indices whose entry is in the set |
| `Psi.FoundAreMatches` | frontend/ProtocolParty.cpp:474-495 | what is found is exactly this: the receiver's row for the item, off by the masked code word of decode + value, is encrypted as a row of one of the receiver's keys |
| `Psi.CommonItemsFound` | frontend/ProtocolParty.cpp:474-495 | if the dictionary decodes correctly, every index at which the sender has an item of the receiver with the same value is found |
| `Psi.PsiIsComplete` | frontend/ProtocolParty.cpp:430-495 | the same end to end, for every schedule of the batches and every choice vector |
| `PsiRun.ReceiverRunOOS` | frontend/ProtocolParty.cpp:419-427 | the receiver's loop over the objects follows the machine; the messages are its batches |
| `PsiRun.SenderRunOOS` | frontend/ProtocolParty.cpp:615-623 | the sender's loop over the objects follows the machine as far as messages are there: it is done, or has handled all of them and waits; with the receiver done it is done |
| `PsiRun.SetUp` | frontend/ProtocolParty.cpp:398-417 | base OTs and initialisation of both parties give an initial state with the right number of rows, every bit of T0, T1 and of the sender's matrix being that of AES in counter mode, from counter 256 on, under the base OT seeds |
| `PsiRun.Transfer` | frontend/ProtocolParty.cpp:615-623 | both loops, interleaved by any schedule as far as it goes and played to the end: every row of the objects' matrices satisfies the OT relation for the dictionary's words; refused exactly if the debug build takes a row for uninitialised |
| `PsiRun.TransferUnder` | frontend/ProtocolParty.cpp:419-427 | both loops on the objects, interleaved by any schedule, follow the machine step by step; when both are done every row satisfies the OT relation |
| `PsiRun.DecodesFromBytes` | frontend/ProtocolParty.cpp:413-424 | decoding the words read from the dictionary's bytes gives what the dictionary decodes to |
| `PsiRun.Intersect` | frontend/ProtocolParty.cpp:430-495 | the count is the number of indices that match, and at least the number of indices of common items if the dictionary decodes correctly |
| `PsiRun.IntersectBytes` | frontend/ProtocolParty.cpp:430-495 | the same for values given in bytes |
| `PsiRun.Online` | frontend/ProtocolParty.cpp:306-495 | serialise, transfer, intersect: the number of indices that match, exactly, and at least the number of indices of common items if every key decodes to its value; refused exactly if the debug build takes a row for uninitialised |
| `PsiRun.Run` | frontend/ProtocolParty.cpp:260-304 | the whole protocol on the objects under any schedule, from key and value bytes to the count: the clauses and exact conditions of the construction; how many rows there are; bit c of row r of T0 as bit r % 128 of AES at counter 256 + r / 128 under the base OT seed of column c; exactly when it comes to the end; the OT relation; the number of indices that match, exactly, and at least that of the common items if all keys decode |
| `PsiRun.NewDictionary` | frontend/ProtocolParty.cpp:82-96 | a new dictionary for keys and raw value bytes holds the masked bytes, which are below the field size |
| `PsiRun.RunFromRaw` | frontend/ProtocolParty.cpp:60-96 | the protocol from the raw bytes of both parties, which are masked first |
| `Streaming.Absorb` | frontend/xxHash/xxhash.c:982-1041 | one update keeps: whole stripes in the accumulator, the rest in the buffer |
| `Streaming.HoldsExactly` | frontend/xxHash/xxhash.c:982-1041 | what the state holds is determined by the data: memsize is the length modulo the stripe width |
| `Streaming.OneShot` | frontend/xxHash/xxhash.c:887-928 | the one-shot loop computes the specified hash |
| `Streaming.CountingState.Update` | frontend/xxHash/xxhash.c:982-1041 | the state describes the data seen so far and the new input |
| `Streaming.CountingState.Digest` | frontend/xxHash/xxhash.c:1043-1065 | the digest of all data, also past the wrap-around of the counter, where it may take a long input for a short one |
| `Streaming.CountedIsHash` | frontend/xxHash/xxhash.c:1043-1065 | that is the one-shot hash if the counter has not wrapped around or has counted a stripe since |
| `Streaming.FoldInjective` | frontend/xxHash/xxhash.c:901-913 | stripes that keep single accumulators apart keep them apart over any number of stripes |
| `Streaming.FlagIsExact` | frontend/xxHash/xxhash.c:509-530 | the flag recomputed from a wrapping counter is set exactly when the true length reaches a stripe |
| `Streaming.FlaggedState.Update` | frontend/xxHash/xxhash.c:509-571 | as above, with the sticky flag exact for every total length |
| `Streaming.FlaggedState.Digest` | frontend/xxHash/xxhash.c:573-589 | the digest is the one-shot hash of all data, however long |
| `Streaming.CountedStreaming` | frontend/xxHash/xxhash.c:969-1065 | any split into updates of the counting state gives its digest of the whole, and the one-shot hash under that condition, for every kernel |
| `Streaming.FlaggedStreaming` | frontend/xxHash/xxhash.c:495-589 | any split into updates of the flagged state gives the one-shot hash, for every kernel and length |
| `Tail.Switch64IsRerolled` | frontend/xxHash/xxhash.c:762-885 | for every tail, the fall-through switch takes the steps of the rerolled loops (XXH64) |
| `Tail.Switch32IsRerolled` | frontend/xxHash/xxhash.c:344-414 | the same for XXH32 |
| `XxHash64.FinalizeRerolled` | frontend/xxHash/xxhash.c:762-885 | the rerolled finalizer computes what the unrolled one does |
| `XxHash32.FinalizeRerolled` | frontend/xxHash/xxhash.c:344-414 | the same for XXH32 |
| `XxHash64.Streamed` | frontend/xxHash/xxhash.c:969-1065 | XXH64 in any pieces is the one-shot XXH64 under 2^64 bytes, and past that wherever the wrapped length is at least 32 |
| `XxHash32.Streamed` | frontend/xxHash/xxhash.c:495-589 | XXH32 in any pieces and of any length, past 2^32 too, is the one-shot XXH32 |
| `XxHash64.AvalancheUndone` | frontend/xxHash/xxhash.c:749-757 | the avalanche has an inverse |
| `XxHash64.RoundUndone` | frontend/xxHash/xxhash.c:733-739 | a round from zero has an inverse |
| `XxHash64.Process8Undone` | frontend/xxHash/xxhash.c:776-781 | the step that takes in eight bytes has an inverse |
| `XxHash64.HashKeyIsInjective` | frontend/Hasher.h:30-34 | for every seed, distinct 64-bit keys have distinct hashes |
| `XxHash64.SeedIsInjective` | frontend/xxHash/xxhash.c:921-928 | for every input of less than 32 bytes, distinct seeds give distinct hashes |
| `XxHash64.KeySeedIsInjective` | frontend/Hasher.h:30-34 | every key has distinct hashes under distinct seeds |
| `XxHash64.StepKeepsBytes` | frontend/xxHash/xxhash.c:762-781 | no step of the tail forgets anything of the bytes it takes in |
| `XxHash64.StartKeepsSeed` | frontend/xxHash/xxhash.c:903-906 | each of the four accumulators alone tells the seed at the start |
| `XxHash64.ConsumeIsInjective` | frontend/xxHash/xxhash.c:908-913 | distinct stripes leave distinct accumulators |
| `XxHash64.ConsumeForgetsNothing` | frontend/xxHash/xxhash.c:908-913 | no stripe makes distinct accumulators alike |
| `XxHash64.MergeUndone` | frontend/xxHash/xxhash.c:915-919 | undoing the four merging rounds leaves the sum of the four rotated accumulators |
| `XxHash32.AvalancheUndone` | frontend/xxHash/xxhash.c:331-339 | the avalanche of XXH32 has an inverse |
| `XxHash32.SeedIsInjective` | frontend/xxHash/xxhash.c:446-453 | for every input of less than 16 bytes, distinct seeds give distinct hashes |
| `XxHash32.StepKeepsBytes` | frontend/xxHash/xxhash.c:344-357 | no step of the tail forgets anything of the bytes it takes in |
| `XxHash32.StartKeepsSeed` | frontend/xxHash/xxhash.c:431-434 | each of the four accumulators alone tells the seed at the start |
| `XxHash32.ConsumeIsInjective` | frontend/xxHash/xxhash.c:436-442 | distinct stripes leave distinct accumulators |
| `XxHash32.ConsumeForgetsNothing` | frontend/xxHash/xxhash.c:436-442 | no stripe makes distinct accumulators alike |
| `XxHash32.MergeIs` | frontend/xxHash/xxhash.c:444-445 | the merged hash is the sum of the four rotated accumulators modulo 2^32 |
| `Words.RotlIsScaling` | frontend/xxHash/xxhash.c:215-219 | a left rotation by r is multiplication by 2^r modulo 2^bits - 1 |
| `Xxh3.AccumulateStripes` | frontend/xxHash/xxh3.h:669-686 | stripe after stripe against an advancing secret offset |
| `Xxh3.ConsumeStripes` | frontend/xxHash/xxh3.h:1007-1025 | stripes that go on within or across one block boundary follow the schedule, scramble included, if and only if they end before the next block does |
| `Xxh3.HashLongLoop` | frontend/xxHash/xxh3.h:696-727 | the one-shot loop follows the schedule for every length and secret size |
| `Xxh3.ScheduleLength` | frontend/xxHash/xxh3.h:696-727 | the events of n stripes are n, and one scramble for each whole block of (secret size - 64) / 8 stripes |
| `Xxh3.StripeEvent` | frontend/xxHash/xxh3.h:669-686 | where in the schedule a stripe is accumulated, and against which offset of the secret |
| `Xxh3.BlockEvent` | frontend/xxHash/xxh3.h:696-714 | where in the schedule the scramble of a block stands |
| `Xxh3.LongScheduleEnds` | frontend/xxHash/xxh3.h:696-727 | the length of the whole schedule, and its last event if a partial stripe is left |
| `Xxh3.XXH3State.Update` | frontend/xxHash/xxh3.h:1027-1083 | accumulators hold the schedule of the consumed stripes and the buffer the rest; what the whole buffer holds, and whether its end is current |
| `Xxh3.XXH3State.Digest` | frontend/xxHash/xxh3.h:1085-1114 | the digest's events over 240 bytes, and that they are the one-shot schedule if and only if no short last stripe is left or the end of the buffer is what it is taken for |
| `Xxh3.Streamed` | frontend/xxHash/xxh3.h:1027-1114 | the events of streaming any pieces, and that they are the one-shot schedule if and only if the pieces leave nothing or at least a stripe in the buffer, or the end of the buffer they leave matches |
| `Xxh3.StaleTail` | frontend/xxHash/xxh3.h:1064-1106 | one update of 257 ones, under any secret: streaming and one-shot accumulate different last stripes |
| `Xxh3.ThroughMore` | frontend/xxHash/xxh3.h:669-686 | for every kernel, accumulators that have been through some events go on from where they are |
| `Xxh3.Replay` | frontend/xxHash/xxh3.h:669-686 | applying events one after the other, for every kernel |
| `Xxh3Hash.ApplyEvent` | frontend/xxHash/xxh3.h:514-663 | the scalar accumulation and scramble keep eight 64-bit accumulators |
| `Xxh3Hash.KeyCounts` | frontend/xxHash/xxh3.h:521-528 | what the key alone adds to an accumulator, and that a word that is its own key adds itself only |
| `Xxh3Hash.ScrambleUndone` | frontend/xxHash/xxh3.h:650-663 | the scramble of an accumulator has an inverse under its key |
| `Xxh3Hash.EventsInjective` | frontend/xxHash/xxh3.h:514-663 | accumulators that differ stay different through any events |
| `Xxh3Hash.AvalancheUndone` | frontend/xxHash/xxh3.h:309-315 | the avalanche of XXH3 has an inverse |
| `Xxh3Hash.Mix` | frontend/xxHash/xxh3.h:729-736 | mixing two accumulators with the portable product is the low half of the full product of the keyed words, XORed with the high half |
| `Xxh3Hash.MergeAccs` | frontend/xxHash/xxh3.h:738-749 | the length times the multiplier and the four mixed pairs, against the secret at 11, 27, 43 and 59, are summed up modulo 2^64 and avalanched |
| `Xxh3Hash.Hashes` | frontend/xxHash/xxh3.h:751-765 | the hashes of streaming and of one-shot hashing over 240 bytes, equal under the condition of the schedules |
| `Xxh3Hash.StaleAccumulators` | frontend/xxHash/xxh3.h:1064-1106 | one update of 257 ones under a secret of zeros: the accumulators of streaming and of one-shot hashing differ |
| `Fold128.CarriesAreExact` | frontend/xxHash/xxh3.h:285-303 | the two carries recovered from wrap-around account for exactly what was lost |
| `Fold128.MulFold64` | frontend/xxHash/xxh3.h:183-306 | the portable product has the exact high and low halves, without overflow, and folds as the 128-bit product, to their XOR |

## Left out

- The library solver, field multiplication and the polynomial set-up: foreign code; the answer is arbitrary, and that it solves the system is a hypothesis.
- Secrecy, collision and failure probabilities: no statement about probability is made.
- `LinearCode`'s table-based encoding and code tables: the code is its generator matrix.
- `sse_transpose128x1024`: taken by the contract its unit test states.
- The general-codeword branches of `check`, and word sums of more than one block: the check is modelled for rows of four blocks and one-block words.
- `encode`, `encode_prty` and the final hashing of OT rows in the OT classes: not used by the protocol.
- Sockets, sessions, channels' buffering, timers, console output, arguments and the choice of code by field size.
- Changing the key set of a dictionary between runs.
- XXH3 for inputs up to 240 bytes, and the secret made from a seed: the secret is a parameter.
- SIMD variants, big-endian reads, misaligned pointers and null inputs of xxHash.
- Calls on a sender that its receiver refused: OtParties.Called makes a call on both sides or on none.
- Update in place of the rows of blocks: matrices are fields of sequence type that the methods reassign.
- OtParties.PrtyMOtReceiver.OtCorrection: code words of any length; the code has room for ten blocks and runs over its buffer beyond that.
- Xxh3.XXH3State.Digest: accumulators are represented by what was done to them, in order; Xxh3Hash says what that does. No inputs up to 240 bytes.
- OtCheck.Compare: compares whole rows of four blocks at once.
- The values of the multipliers, rotation amounts and start values of the hashes: they stand in the definitions as in the source; what is proved of the steps (inverses, injectivity) does not single them out, and no known hash value is evaluated.
