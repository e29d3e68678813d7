# monadbft-go: verified models

Dafny models of the parts of monadbft-go whose correctness is hardest to see from the code, with proofs of
what they promise. `dafny verify dfyconfig.toml` checks everything. Nothing here executes the Go program.

**Raptor erasure code** (`Gf2`, `OrderedSet`, `BufferWeightMap`, `Matrix`, `RaptorCode`, `HalfWords`,
`CodeParameters`, `DecoderState`, `Elimination`, `Decoder`, `Completeness`, `Substitution`, `DecoderChecks`,
`Encoder`, `ManagedDecoder`). The decoder peels, inactivates, reactivates and eliminates over GF(2) while mirroring every
row addition on payload buffers. Each step is proved to leave the set of solutions of the equation system
unchanged, and each received symbol to intersect it with one equation. From this come soundness (a successful
decode returns exactly the zero-padded source), completeness (above the threshold a failed decode means that
the received symbols do not determine the source), termination, and the six structural checks of the debug
build. At any count a failed attempt leaves rows from which substitution, one symbol at a time, gets nothing more.
Until the first attempt at the threshold this also holds of the rows as they were received, so whatever they
yield by substitution is recovered. From then on it does not: an elimination keeps the solutions, but mixes rows,
and with more symbols known the mixed rows can yield less than the received ones until the threshold is met again. Every K from 1 to 8192 is proved to have a code, unique for sender and receiver; the search for Half
words ends because exactly C(H, w) of the H-bit Gray codes have w set bits.

**Voting safety across crashes** (`Safety`, `VotingRuns`, `VotingSafety`, `TimeoutGate`,
`RestartRounds`, `EndorseGate`, `VotingCore`, `VoteCollection`). A node is its volatile watermarks, its durable snapshot, its pending messages and what it
has published; it may crash between any two steps and restart from any forkpoint. Over every run all votes of
one round, direct or embedded in a timeout, name one block and no no-endorsement follows a vote of its round.
The corresponding statement about timeouts is false of the code: the commands issued while a node opens are
executed before any durable write, so a start-up timeout can be published and forgotten. It takes a later start
below that round, which needs a forkpoint, statesync target or block store that has gone back: reloading the
same files starts at the same round. If no start is below the highest start-up timeout, or that timeout has
reached the disk, the statement holds over every run; and once the timeout is out, a start that breaks this
condition can always be led to break the statement, whether it goes live while opening or after a sync.
The rule that a vote in a no-endorsed round must be for a proposal whose timeout certificate names the
no-endorsed tip is also false of the code over all runs: the watermarks remember one no-endorsement, so a start below
an older one forgets it. It holds over every run in which no start is below an older no-endorsement, and a start
that breaks this condition can always be led to break the rule. In terms of the disk alone, a start at most one
round below the recorded no-endorsement is safe, and no weaker comparison is.
The voting result is then used to show that any two certificates of one round name the same block.

**Pending block tree** (`BlockTree`, `PendingTree`, `CommitPath`). Out-of-order insertion, breadth-first
coherence updates, committable certificates and pruning. Everything committed over any run is one
parent-linked chain with sequence numbers rising by one, so the strict-order panic of the block policy is
unreachable. Pruning panics exactly on a coherent block whose path to the root is broken; a prune can leave such
blocks behind, and the commit that follows a coherence update never names one. What is committed is exactly the
grandparent of two certificates of adjacent rounds.

**Final-only execution policy** (`FinalOnlyPolicy`, `BlockBuffer`). Embedded heights never decrease, the pruned
or re-seeded window always reaches the height a block may embed, a proposer on a parent its node has accepted
always gets a result once that of genesis is recorded, and an honest proposal is not rejected.

**Speculative execution** (`Speculation`). For every interleaving of the speculative and the canonical worker
the recorded results are those of executing only the finalized chain.

**Block sync** (`Blocksync`) and **RLP** (`Rlp`). The bookkeeping of self-requests stays consistent under any
order of responses, cancellations and timeouts; the RLP codec is a bijection between items and accepted bytes.

Block ids and payload ids are collision-free, signatures verify only if made, block execution is a
deterministic function, and K, S, L' come from tables whose prime entries are prime: these are the assumptions
that appear as parameters or preconditions.

## Model

| member | source | states |
|---|---|---|
| ManagedRaptor.Transfer | raptor/roundtrip_test.go:165-209 | From the bytes of any message to bytes again, with encoder and decoder built independently: whatever symbols are sent, in any order and with repeats, a result is exactly the zero-padded message; without one, and with enough usable buffers at the last attempt, a different message would have sent the same symbols; without one, and with too few rows for the threshold, substitution does not reach the whole message. |
| ManagedRaptor.RoundTrip | raptor/roundtrip_test.go:126-163 | For any linked encoder and decoder and any symbol ids: success returns the padded source, and no other message explains what was sent; failure means every symbol was sent and, if the last attempt started at or above the threshold, another message explains them; below the threshold, that substitution does not reach the whole source. |
| ManagedRaptor.ManagedDecoder.TryDecode | raptor/manageddecoder.go:93-97 | True implies that the received symbols determine the source; false above the threshold implies that every explanation of them has a rival with a different source; so for received symbols that have an explanation the answer is exact. At any count every source symbol that follows from the current rows by repeated single-symbol substitution is recovered, and, before the first attempt at the threshold, every one that follows from the received rows. |
| ManagedRaptor.ManagedDecoder.InactivationThreshold | raptor/manageddecoder.go:88-91 | One and a half times the number of source symbols, rounded down. |
| ManagedRaptor.ManagedDecoder.ReconstructSourceData | raptor/manageddecoder.go:107-117 | Returns data exactly when decoding is done, and then the source symbols of every assignment that explains what was received. |
| ManagedRaptor.ManagedDecoder.ReceivedEncodedSymbol | raptor/manageddecoder.go:76-84 | The decoder's rows and payloads keep exactly the solutions of the constraints and of all received equations, the new one included, and agree with the received rows on every active symbol. |
| ManagedRaptor.NewManagedDecoder | raptor/manageddecoder.go:59-73 | Succeeds exactly for a supported K and a positive symbol length; the empty decoder represents the constraint rows alone, for the unique code of K. |
| ManagedRaptor.RivalAmbiguous | raptor/roundtrip_test.go:126-163 | Not determining the source means that a different message would have sent the same symbols, and the other way round. |
| ManagedRaptor.DoneDetermined | raptor/decoder_ops.go:336-355 | A decoder state that counts all sources as recovered admits one source only. |
| ManagedRaptor.StuckAmbiguous | raptor/decoder_ops.go:300-333 | A state with nothing left to peel, reactivate, eliminate or inactivate leaves a second source for every solution. |
| Completeness.StuckKernel | raptor/decoder_ops.go:215-333 | In such a state some non-empty set of symbols meets every row evenly: the system is underdetermined. |
| Completeness.StuckSecondSolution | raptor/decoder_ops.go:284-334 | Every solution of a stuck system has a different solution beside it, for every payload length but zero. |
| Completeness.SourcesDetermine | raptor/encoder.go:60-118 | The source symbols determine the LDPC and Half symbols, by the order of the constraint rows. |
| RaptorDecoder.Decoder.TryDecode | raptor/decoder_ops.go:284-334 | Ends, by a lexicographic measure that also covers rank-deficient eliminations; keeps the solution set and all invariants; not done, at any threshold, leaves no row with one active symbol and no inactivated row with one symbol; not done above the threshold means stuck; below it no symbol is inactivated; what is still active in a row is what was. |
| Substitution.DerivableRecovered | raptor/decoder_ops.go:284-334 | With nothing left to peel and nothing inactivated, every source symbol derivable by substitution from rows that agree on the active symbols is recovered. |
| Substitution.RowsClosed | raptor/decoder_ops.go:284-334 | With nothing left to peel or reactivate, every symbol derivable by substitution from the current rows already stands alone in one. |
| Substitution.MixingHides | raptor/decoder_ops.go:230-278 | A decoder state with every invariant, obtained from received rows by the additions of an elimination, with nothing left to peel or reactivate, in which a source symbol that follows from the received rows by substitution is not recovered. |
| RaptorDecoder.Decoder.TryPeel | raptor/decoder_ops.go:65-110 | Keeps the solution set; progress lowers the number of unused symbols; afterwards no filed buffer has one active symbol, unless decoding is done. |
| RaptorDecoder.Decoder.TryReactivateSymbols | raptor/decoder_ops.go:115-173 | Keeps the solution set; progress lowers the number of unused symbols; afterwards no inactivated buffer has one symbol, unless decoding is done. |
| RaptorDecoder.Decoder.TryInactivateOneSymbol | raptor/decoder_ops.go:177-192 | Leaves the rows alone; progress lowers the number of active symbols; without progress a non-empty heap still has a buffer of weight one. |
| RaptorDecoder.Decoder.TryInactiveGaussian | raptor/decoder_ops.go:215-278 | Keeps the solution set; progress exposes a single symbol or a new redundant buffer; no progress means fewer equations than unknowns. |
| RaptorDecoder.Decoder.XorRow | raptor/decoder_ops.go:46-61 | One row addition, with the buffer lists of all live symbols kept in step in both directions. |
| RaptorDecoder.Decoder.DecrementBufferWeight | raptor/decoder_ops.go:22-42 | The whole refiled state: the buffer moves between the two heaps or becomes redundant according to its new weight. |
| RaptorDecoder.Decoder.ReceivedEncodedSymbol | raptor/decoder_init.go:76-118 | The new system is equivalent to the old one with the LT row of the symbol and its payload added, and the new row agrees with that LT row on every active symbol. |
| RaptorDecoder.Decoder.PeelReduce | raptor/decoder_ops.go:86-98 | Adds a used row to a waiting one: solutions kept, one stale buffer fewer, no active symbol of any row changed. |
| RaptorDecoder.Decoder.constructor | raptor/decoder_init.go:17-70 | The S + H buffers hold exactly the constraint rows; all invariants hold; every append to an ordered set is above its members. |
| RaptorDecoder.Decoder.SourceSymbolToBufferId | raptor/decoder_ops.go:342-355 | Names a buffer exactly for the sources that stand alone in a used buffer. |
| RaptorDecoder.BufferSet.XorBuffers | raptor/manageddecoder.go:44-53 | XORs one payload into another byte by byte and leaves the others alone. |
| DecoderChecks.ChecksHold | raptor/decoder_check.go:43-187 | All six checks hold in every state satisfying the invariant that every operation keeps. |
| DecoderChecks.PairedCount | raptor/decoder_check.go:176-187 | Counting recovered sources by used buffer equals the counter kept by symbol. |
| DecoderState.PeelStepMid | raptor/decoder_ops.go:86-98 | Reducing one buffer in the middle of a peel keeps the invariant with one stale buffer fewer. |
| DecoderState.ReactStepMid | raptor/decoder_ops.go:137-163 | The same for dropping a reactivated symbol from one buffer. |
| Elimination.MirrorsStep | raptor/decoder_ops.go:196-270 | A row addition on the matrix mirrors the one performed on buffers and symbols. |
| Elimination.EliminationProgress | raptor/decoder_ops.go:230-278 | Reduced rows over at least one and at most as many unknowns include an empty row or a single symbol. |
| Matrix.EliminateFullPivot | raptor/matrix.go:201-227 | Replaying the recorded physical row operations on the original rows gives the final matrix; it is fully reduced; exactly rank rows are non-zero; success is full column rank and leaves rows of weight at most one. |
| Matrix.ClearColumn | raptor/matrix.go:121-156 | One more unit column, every addition recorded against physical rows. |
| Matrix.Reduction | raptor/matrix.go:121-156 | Unit columns and empty lower rows in virtual coordinates mean a reduced form with that many non-zero physical rows. |
| Matrix.RcSwapMatrix.FullPivot | raptor/matrix.go:201-227 | Finds a lightest non-zero row at or below the step and its first column; fails exactly if all those rows are zero. |
| Matrix.RcSwapMatrix.RowSubAssign | raptor/matrix.go:108-114 | A virtual row addition is the symmetric difference of two physical rows. |
| Gf2.RowAddition | raptor/manageddecoder.go:44-53 | Adding an equation to another leaves the solution set of the system unchanged. |
| Gf2.Kernel | raptor/matrix.go:121-156 | Fewer equations than unknowns always leave a non-empty set that meets every row evenly. |
| BufferWeightMaps.BufferWeightMap.PeekMin | raptor/bufferweightmap.go:16-22 | Returns a least entry of the map, exactly when it is not empty. |
| BufferWeightMaps.BufferWeightMap.Insert | raptor/bufferweightmap.go:64-85 | The map gains this entry and no other; heap order and inverse positions hold. |
| BufferWeightMaps.BufferWeightMap.Remove | raptor/bufferweightmap.go:87-116 | The map loses this entry and no other and its weight is returned. |
| BufferWeightMaps.BufferWeightMap.Update | raptor/bufferweightmap.go:118-131 | The map changes at this key only. |
| BufferWeightMaps.BufferWeightMap.PullUp | raptor/bufferweightmap.go:34-43 | Restores heap order broken above one position without changing the map. |
| BufferWeightMaps.BufferWeightMap.PushDown | raptor/bufferweightmap.go:45-60 | Restores heap order broken below one position without changing the map. |
| OrderedSets.SmallestIntegerSatisfying | raptor/binarysearch.go:7-23 | Returns a boundary of the condition; fails only for an empty range or a false last value. |
| OrderedSets.OrderedSet.PlacementIndex | raptor/orderedset.go:19-34 | Splits the sorted slice into the values below and the rest, by scan or by search. |
| OrderedSets.OrderedSet.Insert | raptor/orderedset.go:49-58 | Set union on a slice that stays sorted; reports whether the value is new. |
| OrderedSets.OrderedSet.Remove | raptor/orderedset.go:76-84 | Set difference on a slice that stays sorted; reports whether the value was there. |
| OrderedSets.OrderedSet.InsertOrRemove | raptor/orderedset.go:61-72 | Symmetric difference with one value. |
| RaptorCode.LtSequence | raptor/lt.go:38-60 | With L' prime the walk ends and yields exactly min(d, L) distinct indices below L, ascending: the LT row. |
| RaptorCode.LtRowExactly | raptor/lt.go:38-60 | The LT row holds exactly the indices below L that are among the first min(d, L) such positions of the walk b, b + a, b + 2a, ... modulo the prime. |
| RaptorCode.WalkSurjective | raptor/lt.go:48-55 | Modulo a prime the walk of any stride visits every residue. |
| RaptorCode.LdpcDistinct | raptor/ldpc.go:6-13 | With S odd the three rows of a source symbol are distinct and in range. |
| RaptorCode.LdpcTripleAt | raptor/ldpc.go:6-13 | The rows of a source symbol, by the quotient and remainder of its index: the remainder, and one and two strides further on, the stride counted from the quotient. |
| RaptorCode.SortedTriple | raptor/ldpc.go:16-33 | The three exchanges sort the rows and keep them. |
| HalfWords.TallyIsChoose | raptor/half.go:12-21 | Exactly C(n, w) of the n-bit Gray codes have w set bits, by reflection. |
| HalfWords.GrayWords | raptor/half.go:9-31 | The search ends and yields the first words of the wanted weight in Gray order, from 64-bit words. |
| HalfWords.HalfWordsShape | raptor/half.go:23-30 | The words have exactly w of their h bits set and no two are equal. |
| CodeParameters.NewCodeParameters | raptor/parameters.go:94-131 | Succeeds exactly for K in 1..8192 and gives the parameters fixed by least X, least prime S, least H and least prime L'; they meet everything encoder and decoder need. |
| CodeParameters.CodeUnique | raptor/parameters.go:94-131 | Two derivations for the same K agree in every parameter, word and triple. |
| CodeParameters.CodeValid | raptor/parameters.go:94-131 | Derived parameters have S odd, L' prime and at least L, Half words within H bits and distinct, strides below L'. |
| CodeParameters.ChooseLoop | raptor/parameters.go:68-77 | The 32-bit loops compute the binomial coefficient: every division is exact. |
| CodeParameters.CentralFits | raptor/parameters.go:68-92 | For H in 5..16 neither the 32-bit product nor the 16-bit result overflows. |
| CodeParameters.SmallestPrimeGreaterOrEqual | raptor/parameters.go:51-59 | The table lookup gives the least of all primes, and fails exactly above the table. |
| CodeParameters.DetermineX | raptor/parameters.go:41-49 | The least X of at least 4 with X (X - 1) >= 2 K, and it always exists. |
| CodeParameters.DetermineNumHalfSymbols | raptor/parameters.go:82-92 | The least H whose central binomial reaches K + S, if 16 is enough. |
| CodeParameters.Trip | raptor/lt.go:11-35 | For the state Y fixed by J(K) and the id, degree, stride and start are drawn with offsets 0, 1 and 2, in this order, from the two tables of random words; strides are between 1 and the prime less one, starts below the prime, degrees positive. |
| CodeParameters.DegDistribution | raptor/degree.go:9-28 | How many of the 2^20 draws give each of the seven degrees, which accounts for all of them: the distribution of section 5.4.4.2 of RFC 5053. |
| CodeParameters.StatesDistinct | raptor/lt.go:11-24 | Distinct symbol ids have distinct generator states exactly if J(K) does not make the stride vanish modulo the prime 65521. |
| CodeParameters.StatePrime | raptor/lt.go:17-18 | The modulus 65521 of the generator states is prime. |
| RaptorEncoder.NewEncoder | raptor/encoder.go:27-127 | Fails exactly for a zero symbol length or too many symbols; otherwise the intermediate symbols are the padded source and satisfy every constraint row. |
| RaptorEncoder.EncodedConstrained | raptor/encoder.go:60-118 | Source, LDPC and Half symbols together make every constraint row sum to zero. |
| RaptorEncoder.Encoder.EncodeSymbol | raptor/encoder.go:141-159 | XORs into the destination the sum of the LT row of the symbol. |
| RaptorEncoder.Split | raptor/encoder.go:32-47 | Full symbols, the padded partial one and a zero symbol for an empty source, laid end to end, are the source and zeros. |
| RaptorEncoder.XorEq | raptor/xoreq.go:19-29 | XORs all sources into the destination in place. |
| VotingSafety.NoDoubleSigning | node/node.go:453-512 | Over every run with crashes at any stage and restarts from any forkpoint: one block per round in all published votes, no no-endorsement after a vote of its round, no guard panics. |
| VotingSafety.NextSafe | node/node.go:484-498 | The invariant relating live and durable watermarks to what is published is kept by every step. |
| VotingSafety.ActSafe | consensusstate/state.go:1030-1098 | Every handler, with the panics of its guards included, keeps published votes covered by the watermarks. |
| VotingSafety.StartSafe | monadstate/state.go:606-616 | A start that passes the go-live gate is covered by what was durable. |
| VotingSafety.BootCovered | node/node.go:334-336 | The timeout published while a node opens agrees with the durable watermarks although nothing was written. |
| VotingSafety.GateExact | monadstate/state.go:606-616 | The go-live gate is closed exactly when the start-up timeout would panic. |
| VotingSafety.EmbeddedUncertified | consensus/safety.go:64-120 | Over every run the block a timeout votes for is above the highest certified round and was voted for. |
| TimeoutGate.TimeoutThenNoEndorse | node/node.go:200-336 | A run of the code that no-endorses a round it has already timed out: a start at round 6 is published and lost, and the next start is from an older forkpoint, at round 1. |
| TimeoutGate.NoEndorseAfterTimeoutHolds | consensus/safety.go:97-120 | If at every go-live the merged watermarks cover the published timeouts, no no-endorsement follows a timeout of its round. |
| TimeoutGate.RestartConditionExact | node/node.go:200-336 | For a restart while opening, from any safe node, that condition is exact: it holds if and only if every covered continuation keeps the property. |
| TimeoutGate.LateStartExact | monadstate/state.go:606-616 | It is exact as well for a node that goes live after a sync, whatever its first event brings. |
| RestartRounds.RememberedRunHolds | node/node.go:200-336 | Over every run in which no start is below the highest start-up timeout unless that timeout is on disk, no no-endorsement follows a timeout of its round. |
| RestartRounds.ForwardRunHolds | node/node.go:200-336 | In particular over every run whose forkpoints never go back. |
| RestartRounds.RestartRoundExact | node/node.go:200-336 | After any safe run whose highest start-up timeout went out, that comparison of rounds is exact for a restart while opening. |
| RestartRounds.LateRoundExact | monadstate/state.go:606-616 | And for a node that goes live after a sync. |
| RestartRounds.RunBounded | node/node.go:484-498 | Every published timeout is a start-up timeout or at or below the durable vote watermark. |
| EndorseGate.EndorsedHolds | consensus/safety.go:75-110 | Over every run whose starts recall older no-endorsements: a vote, direct or in a timeout, published after a no-endorsement of its round is for a proposal the node decided on whose timeout certificate names the no-endorsed tip. |
| EndorseGate.RecallExact | node/node.go:200-336 | For a restart while opening, from any safe node, that condition is exact: it holds if and only if every continuation keeps the rule. |
| EndorseGate.LateRecallExact | monadstate/state.go:606-616 | It is exact as well for a node that goes live after a sync. |
| EndorseGate.NearRunHolds | node/node.go:200-336 | The rule holds over every run whose starts are at most one round below the no-endorsement on disk. |
| EndorseGate.NearIsTight | node/node.go:200-336 | For every start round and every no-endorsement further ahead some safe run leaves just that on disk, and a restart there can be led to vote against an older no-endorsement. |
| EndorseGate.VotedExactly | consensusstate/state.go:1062-1098 | From every live node a run reaches, a proposal is voted for if and only if its round is above the vote watermark and, where no-endorsed, its timeout certificate names that tip; the vote is emitted or scheduled; otherwise nothing changes. |
| EndorseGate.VotePublished | consensusstate/state.go:1062-1098 | Every run that reaches a quiet live node which may vote for a proposal continues to one that has published that vote. |
| EndorseGate.HeldBackVote | consensusstate/state.go:694-701 | A vote that was held back is what the next vote timer publishes. |
| SafetyWatermarks.MergeLeastUpperBound | consensus/safety.go:222-248 | Merging is the least upper bound of two sets of watermarks; the no-endorsed tip goes with the higher no-endorsement, and the high tip is the higher of the two that is still above the certified round. |
| SafetyWatermarks.OperationsMonotone | consensus/safety.go:64-120 | Allowed operations only raise watermarks, and close what they did for the round. |
| SafetyWatermarks.Safety.Merge | consensus/safety.go:222-248 | The field updates compute the merge of both snapshots. |
| SafetyWatermarks.Safety.IsSafeToVote | consensus/safety.go:75-82 | The round is above every vote and, if it is the no-endorsed one, the timeout certificate names the no-endorsed tip. |
| SafetyWatermarks.Safety.Vote | consensus/safety.go:85-95 | Whole new state of a vote, high tip included. |
| SafetyWatermarks.Safety.Timeout | consensus/safety.go:113-120 | Whole new state of a timeout and whether it may carry a vote. |
| VotingCore.ConsensusVoting.TryToVote | consensusstate/state.go:1062-1098 | Refines the vote step of the runs: votes exactly when allowed, at once or scheduled on the pace timer, and otherwise changes nothing. |
| VotingCore.ConsensusVoting.LocalTimeoutRound | consensus/pacemaker.go:151-195 | Refines the timeout step of the runs; it carries the high tip exactly if the round is above the no-endorsed one or the tip is of this round. |
| VotingCore.ConsensusVoting.HandleRoundRecovery | consensusstate/state.go:510-571 | Refines the no-endorsement step of the runs; it no-endorses exactly a round above every vote and no-endorsement. |
| VotingCore.ConsensusVoting.HandleVoteTimer | consensusstate/state.go:694-701 | Refines the vote-timer step of the runs: sends exactly the vote that was held back, or remembers that it fired. |
| VotingCore.ConsensusVoting.constructor | monadstate/state.go:682-688 | Going live starts from the merge of fresh and restored watermarks. |
| VoteCollection.CertificatesAgree | consensus/vote_state.go:54-125 | With less than a third of the stake faulty, any two certificates of one round name the same block, whoever collected them and whatever crashes occurred. |
| VoteCollection.VoteState.ProcessVote | consensus/vote_state.go:54-125 | Returns a certificate if and only if the round is open, the author is not known bad, the bucket holds members only and its good signatures carry a supermajority; every signer sent this vote; exactly the bad signers of a bucket that reached a supermajority are dropped and remembered; all other buckets stay. |
| VoteCollection.Settle | consensus/vote_state.go:94-125 | The drop-and-retry loop ends, and succeeds exactly if the bucket holds members only and its good signatures carry a supermajority; what it drops and reports is stated. |
| VoteCollection.VoteState.StartNewRound | consensus/vote_state.go:137-144 | The deletion loop empties the bucket and the invalid voters of every round below the new one, leaves every other bucket as it was, and no older round stays pending. |
| VoteCollection.QuorumsIntersect | validator/validator.go:103-131 | Two supermajorities share a member outside any set holding less than a third. |
| VoteCollection.CalculateCurrentStake | validator/validator.go:86-100 | Sums the stake of the named members; repeats are an error. |
| VoteCollection.HasSuperMajorityVotes | validator/validator.go:103-131 | True exactly for distinct nodes with more than two thirds of the stake. |
| BlockTrees.CoherentPath | blocktree/blocktree.go:605-627 | In every reachable tree the path to a coherent connected block consists of coherent blocks, parent-linked, numbered on from the root. |
| BlockTrees.InsertedInv | blocktree/blocktree.go:441-466 | Inserting a block, in any order, keeps the tree invariant with its waiting children attached. |
| BlockTrees.PrunedInv | blocktree/blocktree.go:370-424 | Re-rooting and dropping what is certified below the new root keeps it: no dangling child remains. |
| BlockTrees.MarkedInv | blocktree/blocktree.go:485-525 | Marking a block on a coherent parent keeps it. |
| PendingTree.BlockTree.Prune | blocktree/blocktree.go:370-424 | Panics exactly if the block is incoherent or not connected to the root; otherwise returns the path to it, lowest first, all commits so far stay one chain and the indexes hold exactly what remains. |
| PendingTree.BlockTree.GetHighCommittableQc | blocktree/blocktree.go:528-560 | The sweep ends and returns the highest certificate carried by a connected block over a block whose own certificate is of the round just before and names a coherent block above the root; nothing exactly if there is none. |
| PendingTree.CarriedLinked | blocktree/blocktree.go:528-560 | What such a certificate commits is linked to the root. |
| PendingTree.BlockTree.TryUpdateCoherency | blocktree/blocktree.go:485-525 | Starts at the first incoherent block on the path, marks exactly the accepted blocks reached through accepted blocks, rejects every other reached block, and ends. |
| PendingTree.BlockTree.Add | blocktree/blocktree.go:427-437 | Inserts exactly a new block above the root. |
| PendingTree.BlockTree.Insert | blocktree/blocktree.go:441-466 | The new tree, with children lists and payload index exact. |
| PendingTree.BlockTree.Remove | blocktree/blocktree.go:468-482 | Takes one entry out and keeps the payload index exact. |
| PendingTree.BlockTree.GetBlocksOnPathFromRoot | blocktree/blocktree.go:605-627 | Returns the path exactly when the block is connected. |
| CommitPath.TryCommit | consensusstate/state.go:886-914 | The new root is the coherent block named by a certificate of the round just before, below a certified block, and moves only then; every committed block satisfies the strict-order check of the policy; panics exactly if that block is not connected to the root. |
| CommitPath.UpdateCoherency | consensusstate/state.go:950-968 | Never panics; commits only below two certificates of adjacent rounds, and nothing only if no connected block carries a committable certificate any more. |
| CommitPath.CommitBest | consensusstate/state.go:950-968 | Commits what the highest committable certificate names, if there is one; adjacent certificates are then above the new root. |
| CommitPath.DetachedCoherent | blocktree/blocktree.go:397-407 | A run of the tree from its constructor, through insertions, coherence updates and one prune, that leaves a coherent block not connected to the root. |
| CommitPath.CommittedIndex.UpdateCommittedBlock | blocktree/blocktree.go:282-295 | The window stays gap-free, forgets only numbers more than twice the delay below, and reaches the first block or twice the delay. |
| CommitPath.CommittedIndex.Reset | blocktree/blocktree.go:299-306 | Re-seeding with twice the delay of blocks, or all of them, or none at genesis, gives the same window. |
| CommitPath.CommittedIndex.DelayedBase | blocktree/blocktree.go:232-278 | The committed block a delayed result refers to is in the window, also after a restart. |
| Speculation.SpecLedger.RecordCommitted | bridge/ledger.go:714-747 | What is recorded at a finalized height is what executing only the finalized chain reports. |
| Speculation.SpecLedger.CommittedResult | bridge/specapp.go:305-341 | Serves a speculative result exactly if this very block was executed; otherwise leaves the store at the height below; keeps the refinement invariant. |
| Speculation.SpecLedger.RunSpec | bridge/specapp.go:182-231 | Executes only on the tip, its parent and the store tip; refuses without effect otherwise, in particular between replayed blocks; keeps the refinement invariant. |
| Speculation.SpecLedger.RewindLocked | bridge/specapp.go:365-398 | Rolls back to the recorded height, never genesis, and clears exactly the stale entries. |
| Speculation.SpecLedger.FinalizeDirect | bridge/ledger.go:685-711 | A missed block executes on exactly the canonical state below it. |
| Speculation.SpecLedger.ReplaySynced | bridge/ledger.go:761-775 | Executing the next synced block on a store without speculative blocks keeps the refinement invariant, with the index left behind; a speculative job in between is refused. |
| Speculation.SpecLedger.RecordSynced | bridge/ledger.go:776 | Records what sequential execution reports for the replayed block. |
| Speculation.SpecLedger.ResetToHeight | bridge/specapp.go:406-428 | Re-anchors the index at the synced height without touching the store; speculation may resume. |
| Speculation.SpecLedger.SpecResultId | bridge/specapp.go:269-285 | A served speculative result is what executing that block's own line reports. |
| Speculation.NextCanonical | bridge/specapp.go:305-341 | The entry at the next canonical height is that block exactly when its id is indexed, and then its outcome is canonical. |
| FinalOnly.EmbeddedMonotone | bridge/policy.go:107-158 | Embedded heights never decrease along the finalized chain and stay the delay behind. |
| FinalOnly.PathMonotone | bridge/policy.go:107-158 | The same along any coherent path above the root. |
| FinalOnly.FinalOnlyPolicy.WindowReaches | bridge/policy.go:85-105 | After any prunes every height from the parent's embedded one to the last commit resolves. |
| FinalOnly.FinalOnlyPolicy.NeverNeverAvailable | bridge/policy.go:94-187 | On a coherent path neither validator nor proposer ever reports a height as never available. |
| FinalOnly.FinalOnlyPolicy.LowerBoundIsParents | bridge/policy.go:77-82 | The lower bound is the parent's embedded height, also once the parent is the root. |
| FinalOnly.FinalOnlyPolicy.AcceptedFollows | bridge/policy.go:107-158 | An accepted block extends the coherent path and embeds an executed finalized result. |
| FinalOnly.FinalOnlyPolicy.VerdictExactly | bridge/policy.go:107-158 | Each verdict of the coherency check, if and only if: number, timestamp, results and fees, in this order. |
| FinalOnly.FinalOnlyPolicy.AcceptedPathOrdered | bridge/policy.go:107-158 | Along any path of accepted blocks numbers rise by one, timestamps strictly increase, fees are the configured ones and embedded heights follow the rule. |
| FinalOnly.FinalOnlyPolicy.ProposerSucceeds | bridge/policy.go:162-187 | A proposer on a coherent parent gets a result if and only if it has finalized and executed the parent's embedded height; which result is stated. |
| FinalOnly.AcceptedParentServes | bridge/policy.go:107-187 | No proposer deadlock: on a parent this node accepted at an earlier state, on the path or already the root, the proposer gets a result, except that the first embedding block needs the genesis result recorded. |
| FinalOnly.RootServes | bridge/policy.go:162-187 | The same at genesis and at a root whose embedded height the node has synced to. |
| FinalOnly.ProposalAccepted | bridge/policy.go:107-187 | What an honest proposer embeds passes the check of every validator with the same parent that has finalized and executed that height. |
| FinalOnly.FinalOnlyPolicy.UpdateCommittedBlock | bridge/policy.go:191-224 | The window after recording and pruning, exactly; it still reaches what blocks may embed. |
| FinalOnly.FinalOnlyPolicy.Reset | bridge/policy.go:201-207 | A window of the required length, or one reaching the first block, or none at genesis, gives the same guarantee. |
| FinalOnly.RequiredChainLen | monadstate/blockbuffer.go:119-135 | Long enough to reach the height the root embeds, at least twice the delay, and longer only to reach exactly that height. |
| BlockBuffers.BlockBuffer.HandleBlocksync | monadstate/blockbuffer.go:187-194 | Buffers every block at or below the root, so that requested blocks count. |
| BlockBuffers.BlockBuffer.NeedsBlocksync | monadstate/blockbuffer.go:245-273 | Asks for nothing exactly when enough is buffered below the root; what it asks for starts right below what is there and completes it. |
| BlockBuffers.BlockBuffer.RootParentChain | monadstate/blockbuffer.go:230-242 | The finalized blocks from the root down to the first gap, newest first. |
| BlockBuffers.BlockBuffer.Start | monadstate/state.go:618-641 | When nothing is missing, the blocks handed to the policy give a window that reaches what blocks may embed. |
| BlockBuffers.BlockBuffer.ExecutionTarget | monadstate/blockbuffer.go:104-115 | The database is synced to exactly the height the root embeds. |
| Blocksync.BlockSync.HandleHeadersResponse | blocksync/blocksync.go:484-544 | Any response keeps the counter, the request entries and the pending ranges consistent; the range stays outstanding exactly if the chain does not verify, other ranges are untouched, and no pending range is lost: each is still pending or was emitted. A peer is asked, and a timeout armed, exactly when the ledger misses what no peer was asked for. |
| Blocksync.BlockSync.HandlePayloadResponse | blocksync/blocksync.go:546-603 | A body closes its request and fills every range that misses it, each of which is then still pending or emitted; unsolicited bodies change nothing; a ledger miss, and nothing else, is addressed to a peer. |
| Blocksync.BlockSync.TryInitiatePayloadRequests | blocksync/blocksync.go:434-482 | Afterwards at most ten are in flight, below ten none waits, and every pending range misses a body. |
| Blocksync.BlockSync.HandleCompletedRanges | blocksync/blocksync.go:605-634 | Emits exactly the complete ranges, once each and nothing else, each the requested chain with the bodies its headers name. |
| Blocksync.BlockSync.HandleSelfRequest | blocksync/blocksync.go:196-209 | The range is outstanding afterwards; a change of requester drops everything else, and otherwise everything else stays. |
| Blocksync.BlockSync.HandleSelfCancelRequest | blocksync/blocksync.go:212-220 | Forgets the range for that requester, and nothing of another requester or range. |
| Blocksync.BlockSync.HandleTimeout | blocksync/blocksync.go:701-734 | Re-addresses the request without losing it and arms its timeout again; a request that is not outstanding changes nothing. |
| Blocksync.VerifyBlockHeaders | blocksync/blocksync.go:414-432 | Accepts exactly the parent-linked chains that end at the requested id, short ones only from genesis. |
| Rlp.RoundTrip | rlp/rlp.go:97-135 | Decoding an encoded item tree followed by anything returns the tree and leaves the rest. |
| Rlp.Canonical | rlp/rlp.go:159-254 | Any accepted input re-encodes to the bytes it was read from. |
| Rlp.UniqueEncoding | rlp/rlp.go:159-254 | Two accepted inputs with the same item and rest are equal. |
| Rlp.Format | rlp/rlp.go:97-135 | Every case of the encoding of appendix B of the Ethereum Yellow Paper. |
| Rlp.HeaderErrors | rlp/rlp.go:159-208 | Which input gets which error, if and only if. |
| Rlp.HeaderFinal | rlp/rlp.go:159-208 | More input changes no answer other than too little input. |
| Rlp.IntegerRoundTrip | rlp/rlp.go:257-328 | Integers below 2^64 and canonical payloads correspond one to one. |
| Rlp.UintReads | rlp/rlp.go:36-50 | An appended integer is read back with nothing else consumed. |
| Rlp.AppendUint64 | rlp/rlp.go:36-50 | Appends the encoding of the minimal big-endian digits. |
| Rlp.LeftPadUint64 | rlp/rlp.go:313-328 | Reads exactly payloads of at most eight bytes without a leading zero. |
| Rlp.Stream.TakeBytes | rlp/rlp.go:211-223 | Consumes exactly one canonical string, or nothing. |
| Rlp.Stream.TakeList | rlp/rlp.go:242-254 | Consumes exactly one canonical list and opens its payload, or nothing. |
| Rlp.Stream.TakeUint64 | rlp/rlp.go:257-263 | Consumes exactly one canonical integer on success; a string that is not one is consumed, anything else is not. |

## Left out

- The numeric tables of raptor/raptor_primes.go, raptor/raptor_tables.go and raptor/raptor_sysidx.go: a parameter; that the prime table holds exactly the primes up to 8419 is a precondition.
- ManagedRaptor.ManagedDecoder.TryDecode: after an attempt at the threshold has failed, what substitution reaches in the received rows is promised again only at the threshold, because eliminated rows can hide it (Substitution.MixingHides); exactly which systems lose something is not stated.
- CodeParameters.ChooseLoop: the search for H uses the binomial function it is proved equal to, because a search condition cannot call a loop.
- ManagedRaptor.RoundTrip: fewer than 65536 buffers and ids below 65521, as the decoder demands of its callers.
- Inside the decoder model the ordered sets are finite sets visited in ascending order; that the sorted slice implements them is proved in OrderedSets.
- Partial-pivot and plain elimination strategies of raptor/matrix.go, and the systematic intermediate encoder: the decoder does not use them.
- Proposal and recovery-request watermarks: they guard no vote, so they are merged but take part in no run.
- A coherent block that is not connected is not ruled out for a certificate received from elsewhere: that needs the quorum argument across nodes, so committing through one has the panic as an outcome.
- Speculation.SpecLedger.ReplaySynced: requires that no speculative block is on the store, since a sync is requested only before execution starts.
- Buffered proposals and re-rooting of the block buffer in sync mode.
- Runs assume that a validated proposal names no block of a later round than the current one.
- VoteCollection.VoteState.ProcessVote: an aggregate signature stands for all of its signatures being valid; equivocation counters are left out.
- Remote timeouts, timeout certificates and their ranking: collected like votes, without a second voting rule.
- Validator-set folding, crash reconciliation of the store and retention in bridge/ledger.go: they rest on SDK behaviour.
- Blocksync.BlockSync.HandleTimeout: the peer choice is a parameter; requests served for other peers are left out.
- Rlp.ParseHeader: declared lengths of 2^63 and more are errors; the machine arithmetic of the code near 2^64 is not modelled.
- 128-bit integers, field codecs of messages, sockets, timers, metrics and cryptography.
