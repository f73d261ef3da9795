# A verified model of the POW-EVM ledger and its proof of work

The project models the UTXO ledger of the chain as a state machine: genesis, start of block, the
author call, `spend`, and the end of block that pays the author. Its theorems are about every run of
that machine: how much money exists, which outputs can come and go and who allowed it, which
transactions disturb each other. A second part models the difficulty test, the seal, the verifier and
the nonce search.

How the files follow the program:

- `Scale.dfy`, `Transactions.dfy`: the SCALE layout (Appendix A.2.2 of the Polkadot Protocol
  Specification) of the transaction structs, the signed message, the bytes hashed for output keys.
- `Ledger.dfy`: when a transaction is valid, which error a rejected one gets, what executing it does.
  `Rules.dfy` compares this with the documented rules and with the cases of the pallet's test module.
- `UtxoPallet.dfy`: the pallet as a class with the source's loops and storage updates, each method
  proved against `Ledger`. `Chain` also holds the block height and an `AuthorSlot` (`BlockAuthor.dfy`);
  its ghost history makes every `Valid` object the end of a run.
- `Runs.dfy`: steps, runs, the keys a run creates, and the invariant.
- `SpendValue.dfy`, `MoneySupply.dfy`: conservation in one spend and over runs.
- `Independence.dfy`, `Batches.dfy`: commuting spends, pool tags, and whole batches in any order.
- `History.dfy`: provenance, authorisation, fees.
- `Issuance.dfy`, `Pow.dfy`, `Miner.dfy`: halving, difficulty and seals, the mining thread.

Hypotheses, all explicit. BLAKE2-256, SHA3-256 and sr25519 verification are parameters (`Crypto`,
`sha3`) of which nothing is assumed. `CollisionFree` says that no two preimages which this very run
turned into keys hash alike. `OncePerOutput` says that no executed transaction names one output in two
inputs; it follows if a key accepts at most one sigscript for a message (`UniqueSigscriptsSuffice`).
The order in which the block executive calls the pallet (a block is opened, then calls, then closed) is
the `inBlock` flag. In `Next` a call that fails, or that the executive would not make, changes nothing,
so every sequence of steps is a run.

Where the code and its own comments differ, the model follows the code:

- "Each input is used exactly once" is enforced on pairs of outpoint and sigscript. One output may be
  named by two inputs with different sigscripts, and then counts twice. `SpendSupply` gives the exact
  amount, `OvercountMeans` says when it is nothing, `RepeatedOutpointDoubles` is a run where it is not.
- Fees pass through a 64-bit priority. `SpendConserves` gives the exact loss and its condition,
  `LargeFeeVanishes` is a run from genesis with a loss, and `ExactSupply` shows that none can happen
  while all money fits in 64 bits.
- The guard of the halving stops at 64 halvings, but the shifted constant has 32 bits. In a release
  build the shift distance is masked, so height 6,720,000 issues 50 again. `HalvesEveryInterval` and
  `NeverRisesBeforeRestart` say for exactly which blocks the documented halving holds.

## Model

| member | source | states |
|---|---|---|
| Scale.CompactLayout | runtime/src/utxo.rs:35-42 | the bytes of a `Vec` length: mode in the low two bits, length above it in one, two or four bytes, or in the four bytes after the first |
| Scale.LeByte | runtime/src/utxo.rs:61-201 | integers are little-endian: byte k is digit k in base 256 |
| Transactions.EncodeLayout | runtime/src/utxo.rs:35-67 | where every field of an encoded transaction is: counts, outpoint before sigscript in 96 bytes, value before public key in 48 |
| Transactions.RoundTrip | runtime/src/utxo.rs:35-67 | decoding an encoded transaction followed by any bytes returns that transaction and those bytes |
| Transactions.DecodeExact | runtime/src/utxo.rs:35-67 | the decoder accepts exactly the encoder's image: one byte string for each transaction |
| Transactions.PayloadCommitment | runtime/src/utxo.rs:292-299 | two transactions have the same signed message exactly when they agree on the outpoint sequence and on the outputs, whatever their sigscripts |
| Transactions.StripIdempotent | runtime/src/utxo.rs:292-299 | stripping twice is stripping once, so putting signatures in does not change what is signed |
| Transactions.PayloadReadsBack | runtime/src/utxo.rs:292-299 | the signed message decodes, with nothing left, to the same outpoints and outputs with 64 zero bytes in each sigscript |
| Transactions.OutputPreimageReadsBack | runtime/src/utxo.rs:201 | the bytes of an output key are a length, an encoded transaction of that length, and the index in eight bytes |
| Transactions.RewardPreimageReadsBack | runtime/src/utxo.rs:276-277 | the bytes of a reward key are the reward output and the height in eight bytes |
| Transactions.GenesisPreimageReadsBack | runtime/src/utxo.rs:82 | the bytes of a genesis key are the output, value first |
| Transactions.OutputPreimageInjective | runtime/src/utxo.rs:201 | the bytes hashed for an output key determine the transaction and the index |
| Transactions.RewardPreimageInjective | runtime/src/utxo.rs:276-277 | the bytes hashed for a reward key determine the reward output and the height |
| Transactions.GenesisPreimageInjective | runtime/src/utxo.rs:82 | the bytes hashed for a genesis key determine the output |
| Transactions.PreimageKindsDisjoint | runtime/src/utxo.rs:82-277 | genesis keys hash 48 bytes, reward keys 56, keys of transaction outputs at least 156: the three kinds never hash the same bytes |
| Scale.CountDetectsRepeats | runtime/src/utxo.rs:164-172 | comparing the number of map keys with the number of entries detects a repeated entry, and only that |
| Ledger.ValidOrRejected | runtime/src/utxo.rs:159-222 | a transaction is valid exactly when no error applies to it, where validity speaks of the whole transaction and no order of checks |
| Ledger.ErrorUnique | runtime/src/utxo.rs:159-222 | at most one error applies: the message of a rejection is determined |
| Ledger.MissingMeans | runtime/src/utxo.rs:305-313 | the missing outpoints are exactly those that inputs name and the store lacks; there are none exactly when every input is present |
| Ledger.MissingInOrder | runtime/src/utxo.rs:305-313 | the missing outpoints are those of the absent inputs, one for each and in input order |
| Ledger.SpendableOrOneError | runtime/src/utxo.rs:105-118 | a call of `spend` either goes through or has an error, and exactly one |
| Rules.DocumentedRules | runtime/src/utxo.rs:146-158 | a transaction is valid exactly if it keeps every rule of the documentation, with plain sums in place of running totals |
| Rules.EmptyTransaction | runtime/src/utxo.rs:502-520 | a transaction without inputs, or without outputs, gets that error |
| Rules.DoubleCountedInput | runtime/src/utxo.rs:523-554 | an input that occurs twice gets "each input must only be used once" |
| Rules.DoubleGeneratedOutput | runtime/src/utxo.rs:557-587 | an output that occurs twice gets "each output must be defined only once" |
| Rules.BadSignature | runtime/src/utxo.rs:590-611 | one signature that does not verify, at any input, gets "signature must be valid" |
| Rules.SunkOutput | runtime/src/utxo.rs:614-638 | an output of value 0, at any place, gets "output value must be nonzero" |
| Rules.TakenKey | runtime/src/utxo.rs:203 | an output whose key is in the store, at any place, gets "output already exists" |
| Rules.OverflowingOutputs | runtime/src/utxo.rs:641-671 | output values of 2^128 or more in all get "output value overflow" |
| Rules.OverSpending | runtime/src/utxo.rs:674-704 | more out than in gets "output value must not exceed input value" |
| Rules.OutOfThinAir | runtime/src/utxo.rs:479-499 | an otherwise valid transaction that names an output which does not exist gets "missing inputs" |
| UtxoPallet.Chain.constructor | runtime/src/utxo.rs:78-84 | the genesis object holds the genesis outputs, no reward, no author and height 0, and is the start of a run |
| UtxoPallet.Chain.GetSimpleTransaction | runtime/src/utxo.rs:292-299 | clearing the sigscripts of a copy one by one yields the signed message, which decodes to the transaction with every sigscript 64 zero bytes |
| UtxoPallet.Chain.GetMissingUtxos | runtime/src/utxo.rs:305-313 | returns, in input order, the outpoints that the store lacks: the same sequence as the required tags of validation |
| UtxoPallet.Chain.ValidateTransaction | runtime/src/utxo.rs:159-222 | accepts exactly the valid transactions, with the required tags, the provided tags and the truncated fee; a rejection carries the error of the first failing check |
| UtxoPallet.Chain.ValidateInputs | runtime/src/utxo.rs:184-196 | the input loop passes exactly when every present input is signed and no prefix total overflows, and returns the total and the missing outpoints |
| UtxoPallet.Chain.ValidateOutputs | runtime/src/utxo.rs:198-206 | the output loop passes exactly when all values are positive, all keys are fresh and no prefix total overflows, and returns the total and the keys |
| UtxoPallet.Chain.UpdateStorage | runtime/src/utxo.rs:226-249 | fails exactly on overflow of the reward total and then changes nothing (the index never overflows); otherwise the store is the one with inputs removed and outputs written |
| UtxoPallet.Chain.Execute | runtime/src/utxo.rs:105-118 | validation, the check for missing inputs and the update, as one operation with its exact success condition and unchanged state on failure |
| UtxoPallet.Chain.Spend | runtime/src/utxo.rs:105-118 | succeeds exactly on transactions that are valid, have every input and do not overflow the reward total; a failure leaves the state as it was and carries the determined error; the object stays the end of a run |
| UtxoPallet.Chain.InitializeBlock | runtime/src/block_author.rs:46-53 | opens the next height with no author set |
| UtxoPallet.Chain.SetAuthor | runtime/src/block_author.rs:39-44 | the first author call of a block sets the author, later ones are refused and change nothing |
| UtxoPallet.Chain.OnFinalize | runtime/src/utxo.rs:121-127 | without an author nothing is paid and the fees stay; with one the reward output is written and the reward total cleared |
| UtxoPallet.Chain.DisperseReward | runtime/src/utxo.rs:252-279 | writes one output of the reward total and the issuance under its key and clears the total |
| UtxoPallet.ChainIsSound | runtime/src/utxo.rs:97-249 | in every `Valid` object, as the constructor makes it and the four calls of a block keep it, spent outputs are absent and store plus reward total is genesis plus the issuance of authored blocks |
| BlockAuthor.AuthorSlot.SetAuthor | runtime/src/block_author.rs:39-44 | accepts exactly an inherent in a block whose author is not set; a refusal keeps the slot |
| BlockAuthor.AuthorSlot.OnInitialize | runtime/src/block_author.rs:46-53 | clears the slot |
| Runs.ApplyKeys | runtime/src/utxo.rs:236-246 | a spend removes exactly its outpoints, adds exactly the provided keys and changes no other entry |
| Runs.OriginOfOutput | runtime/src/utxo.rs:241-246 | if the bytes of an output key were ever hashed into a key, that very transaction was executed |
| Runs.OriginOfReward | runtime/src/utxo.rs:271-278 | if the bytes of a reward key were ever hashed into a key, that height paid exactly that output |
| Runs.HeightCountsBlocks | runtime/src/block_author.rs:46-53 | heights are consecutive, a block opens without an author and only its end closes it |
| Runs.OneRewardPerBlock | runtime/src/utxo.rs:121-127 | two payouts of a run are at different, increasing heights |
| Runs.Invariant | runtime/src/utxo.rs:97-279 | in every reachable state all keys of the store were created, and what an executed transaction spent was created and is gone |
| Runs.NeverCreatedTwice | runtime/src/utxo.rs:199-278 | the keys a step creates were never created before and differ from each other; the unchecked reward insert never overwrites |
| Runs.SpentForever | runtime/src/utxo.rs:236-238 | a spent output is in no later state |
| Runs.NoDoubleSpend | runtime/src/utxo.rs:105-118 | no two executed transactions of a run spend the same output |
| Runs.NoReplay | runtime/src/utxo.rs:105-118 | no transaction executes twice |
| SpendValue.SpendSupply | runtime/src/utxo.rs:159-249 | a spend changes the supply by exactly what repeated outpoints count twice less what the cast of the fee drops |
| SpendValue.OvercountMeans | runtime/src/utxo.rs:164-168 | nothing is counted twice exactly when no output of positive value is named by two inputs |
| SpendValue.SpendConserves | runtime/src/utxo.rs:209-231 | with each output named once the supply drops by 2^64 * floor(fee / 2^64), so it never grows, and is kept exactly when the fee is below 2^64 |
| SpendValue.DistinctInputsGiveDistinctOutpoints | runtime/src/utxo.rs:164-192 | if a key accepts one sigscript per message, the check on inputs makes outpoints distinct |
| SpendValue.RepeatedOutpointDoubles | runtime/src/utxo.rs:164-192 | if a key accepts two sigscripts for the message of one transaction, the run that spends a genesis output named under both executes in the first block and doubles the supply |
| SpendValue.SimpleSpendExecutes | runtime/src/utxo.rs:450-475 | from a genesis output its owner, with one signature, can send any positive part of it: the old output is gone, the new one is the store, the rest is the reward total |
| SpendValue.LargeFeeVanishes | runtime/src/utxo.rs:218-230 | a signed transaction with a fee of 2^64 executes in the first block after genesis and its whole fee leaves the supply |
| SpendValue.ValidCountsOnce | runtime/src/utxo.rs:159-222 | under unique sigscripts a valid transaction, even one with missing inputs, counts nothing twice and finds no more than the store holds |
| MoneySupply.SupplyIdentity | runtime/src/utxo.rs:105-279 | in every run, supply plus losses is genesis plus issuance of authored blocks plus what was counted twice |
| MoneySupply.IssuedBound | runtime/src/utxo.rs:252-256 | a run issues at most the schedule up to its height: each block at most once |
| MoneySupply.ExactSupply | runtime/src/utxo.rs:105-279 | while genesis and schedule fit in 64 bits, the supply is exactly genesis plus the issuance of the blocks that had an author, and no cast or addition ever lost a unit |
| MoneySupply.SupplyCap | runtime/src/utxo.rs:105-279 | the supply never exceeds genesis plus 20,370,000 below height 6,720,000, nor genesis plus twice that at any height |
| MoneySupply.NoOverflowReachable | runtime/src/utxo.rs:192-256 | in such states, for every transaction whatever its inputs, neither the input total nor the reward total overflows, nor does the reward paid at the end of the block; the fee of every valid transaction whose message has unique sigscripts fits the cast |
| MoneySupply.InputTotalFits | runtime/src/utxo.rs:185-196 | while the supply is below 2^64 no transaction, not even one that names an output many times, is rejected with "input value overflow" |
| MoneySupply.UniqueSigscriptsSuffice | runtime/src/utxo.rs:184-196 | unique sigscripts give the hypothesis of the supply theorems for every run |
| MoneySupply.GenesisSupply | runtime/src/utxo.rs:78-84 | a genesis list without repetition puts its whole value into the store |
| MoneySupply.ChainSpecCap | node/src/chain_spec.rs:202-212 | from the two genesis outputs of 100 there are never more than 20,370,200 units below height 6,720,000 |
| Independence.ValidityIsLocal | runtime/src/utxo.rs:159-222 | a valid transaction stays valid in any store that keeps its inputs and lacks its new keys |
| Independence.SpendsCommute | runtime/src/utxo.rs:105-249 | two valid spends with disjoint outpoints and disjoint provided keys both succeed in either order and reach the same state |
| Batches.BatchExecutes | runtime/src/utxo.rs:105-249 | if the transactions of a list are valid and ready now, pairwise independent, and the reward total has room for their fees, each of them executes in its turn |
| Batches.AnyOrder | runtime/src/utxo.rs:105-249 | so they do in every order of the list, and every order ends in the same state |
| Independence.SecondSpendRejected | runtime/src/utxo.rs:105-118 | of two spends that share an outpoint the second never executes; if it was ready before and creates other keys, its one error is "missing inputs" |
| Independence.TagsForetell | runtime/src/utxo.rs:205-221 | the provided tags are exactly the keys the spend adds, output k under tag k; the priority is what it adds to the reward total, and 0 when a required tag is missing |
| Independence.RequiredTagsAreAbsent | runtime/src/utxo.rs:180-216 | the required tags are the absent outpoints in input order |
| Independence.ParentMakesChildReady | runtime/src/utxo.rs:180-221 | after a parent's spend the child's required tags are empty exactly when all it required before are provided tags of the parent and the parent spent none of its inputs |
| History.Provenance | runtime/src/utxo.rs:78-278 | every unspent output is what a genesis entry, an executed transaction or a payout wrote under its key |
| History.ZeroValueOrigin | runtime/src/utxo.rs:200-278 | an output of value 0 comes from genesis or from a payout, never from a transaction |
| History.AuthorisedRemoval | runtime/src/utxo.rs:184-196 | between a state that has an output and a later one that lacks it, an executed transaction named it with a sigscript accepted under its own key over the stripped transaction |
| History.PaidAuthorIsFirst | runtime/src/block_author.rs:39-53 | the author of a block is the key of the first author call in that block |
| History.RewardTotalIsFees | runtime/src/utxo.rs:226-231 | the reward total is the sum of the cast fees since the last payout, across any number of blocks without an author |
| History.PayoutIsFeesAndIssuance | runtime/src/utxo.rs:252-279 | each payout is one output of the fees since the payout before and the issuance of its own height |
| History.AuthorsAreOwedFees | runtime/src/utxo.rs:121-279 | payouts and reward total together are all fees and all issuance so far |
| IssuanceSchedule.ClosedForm | runtime/src/issuance.rs:33-43 | the issuance of all heights below n is that of the whole eras plus the started part of the current one, for every 32-bit n |
| IssuanceSchedule.RateSumValue | runtime/src/issuance.rs:33-43 | the era rates add up to 0, 50, 75, 87, 93, 96 and then 97, and once more the same from era 32 on |
| IssuanceSchedule.CumulativeBound | runtime/src/issuance.rs:33-43 | at most 20,370,000 up to height 6,720,000, reached exactly from 1,260,000 on; at most twice that at any height, reached exactly from 7,980,000 on |
| IssuanceSchedule.NeverRisesBeforeRestart | runtime/src/issuance.rs:33-43 | issuance does not rise from a block to the next exactly when the next is not 6,720,000 |
| IssuanceSchedule.HalvesEveryInterval | runtime/src/issuance.rs:20-43 | issuance halves after 210,000 blocks exactly for blocks outside era 31 |
| Pow.HashDigits | node/sha3pow/src/lib.rs:27 | a hash is read as a big-endian number: its first byte is the most significant of 32 |
| Pow.ExactThreshold | node/sha3pow/src/lib.rs:26-31 | a hash is accepted exactly when its number is at most floor((2^256 - 1) / difficulty); difficulty 0 accepts all |
| Pow.AcceptanceDownwardClosed | node/sha3pow/src/lib.rs:26-31 | a lower hash and a lower difficulty never turn acceptance into refusal |
| Pow.WinningCount | node/sha3pow/src/lib.rs:26-31 | exactly ceil(2^256 / difficulty) hashes are accepted |
| Pow.SealLayout | node/sha3pow/src/lib.rs:35-40 | an encoded seal is difficulty, work, nonce in 32 bytes each |
| Pow.WorkHashesAttempt | node/sha3pow/src/lib.rs:44-61 | the work is the hash of the 96 bytes of difficulty, pre-hash and nonce, each in its place |
| Pow.DecodeSealExact | node/sha3pow/src/lib.rs:35-40 | a seal is read from bytes exactly when their first 96 are its encoding |
| Pow.VerifyExact | node/sha3pow/src/lib.rs:111-142 | the verifier accepts exactly bytes that start with the winning seal of some nonce for this pre-hash and difficulty |
| Pow.WinningSealVerifies | node/sha3pow/src/lib.rs:51-61 | the seal of a nonce verifies exactly when its work meets the difficulty |
| Miner.MiningThread.Mine | node/src/service.rs:445-468 | the loop's nonce and submissions after any finite sequence of metadata |
| Miner.SubmissionsVerify | node/src/service.rs:450-459 | each submission was added by one iteration, which had work, and the verifier accepts it at the pre-hash and difficulty of that iteration; earlier submissions stay |
| Miner.NeverMax | node/src/service.rs:461-464 | the nonce never is 2^256 - 1 |
| Miner.IdleKeepsSearch | node/src/service.rs:449-467 | an iteration without metadata changes neither nonce nor submissions |
| Miner.IdleDropsOut | node/src/service.rs:445-468 | leaving out all iterations without metadata leads to the same nonce and the same submissions |
| Miner.NonceCountsTries | node/src/service.rs:450-465 | for metadata that change at will, the nonce is the number of tries since the last win, modulo 2^256 - 1; only a win restarts it |
| Miner.FruitlessCycle | node/src/service.rs:450-465 | 2^256 - 1 iterations without a win try every nonce below 2^256 - 1 exactly once, submit nothing and end at the nonce they began with |
| Miner.SearchFollowsCycle | node/src/service.rs:450-465 | while no nonce wins, the k-th nonce tried is the k-th of the cycle |
| Miner.SearchFinds | node/src/service.rs:445-468 | if a nonce below 2^256 - 1 wins, the search submits within one cycle, first the winning nonce nearest after its start |
| Miner.LeastNonceFirst | node/src/service.rs:445-468 | from 0 the search submits the least winning nonce n after exactly n + 1 tries |
| Miner.FruitlessSearch | node/src/service.rs:445-468 | with no winning nonce below 2^256 - 1 nothing is ever submitted |

## Left out

- UtxoPallet.Chain.ValidateTransaction: the constants `longevity` and `propagate` of its result; the unreachable `reward underflow` error, since the subtraction follows the comparison.
- UtxoPallet.Chain.Spend: the transaction type holds only transactions whose encoding is shorter than 2^32 bytes, the most a 32-bit SCALE length can carry; the source's encoder has no result beyond that.
- UtxoPallet.Chain.DisperseReward: the addition wraps as in a release build; a build with overflow checks would panic instead. `NoOverflowReachable` says when neither happens.
- IssuanceSchedule.ClosedForm: shifts by 32 or more are masked as in a release build; a build with overflow checks would panic.
- Miner.MiningThread.Mine: the endless loop is modelled by its finite prefixes; `worker.metadata()` is an input, `worker.submit` is recorded and its answer ignored, as in the source; the one-second sleep is dropped.
- BLAKE2-256, SHA3-256 and sr25519: parameters, with the hypotheses stated where they are needed.
- Events, weights, origins of `spend`, storage layers and hashers: plumbing of the framework.
- The inherent's construction and decoding, `break_tie`, fetching the difficulty, and the pool wrapper that maps errors: single branches or library calls.
- The other pallets, the EVM side and the rest of the node: setters, library calls and wiring.
