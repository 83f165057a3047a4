# Incremental Merkle trees, replayed logs and the verification game

The repository is the Cartesi Machine emulator. A RISC-V machine's whole state is the leaves of a
Merkle tree, so one root hash stands for the state, a log of accesses with sibling hashes lets anyone
redo one micro-step from the root hash alone, and two players who disagree about the result of a
computation are told apart by bisecting down to a single such step. This project models that chain
and proves that each link is what the next one relies on, from the incremental trees to a referee that
verifies logs by replaying them. The chain ends in `MemoryMachine.SettleMachineDispute`,
`MemoryMachine.SettleRollingDispute` and `GameResult.RunGame`; where the code does not give a link what it
needs, the exact condition under which it does is proved instead.

| files | what they hold |
|---|---|
| `Merkle`, `Uint64` | the hash function as a parameter; the reference tree, the top-down recursion `Node`/`Root`; 64-bit arithmetic |
| `BinaryCounter`, `CounterView`, `TreeSpec` | the incremental tree as a binary counter of optional hashes (`Slots`), the view of a count and an array as slots, and the three operations as functions on slots |
| `BackMerkleTree`, `TreeHash` | the C++ class, updated in place, its pad hashes, its reconstruction and the program that hashes a file with it |
| `Proofs` | rolling a hash up a tree, slices and splices, and what an accepted proof binds |
| `Frontier`, `FrontierProofs`, `Epochs`, `DataRoot` | the Lua accumulator, its batch proofs, resuming an epoch from the last proof, the root of a byte string, and the agreement of the two implementations |
| `AccessLog`, `MemoryTree`, `AccessReplay`, `ReplaySoundness`, `StepVerifier` | the log's bracket bookkeeping, the memory and its tree, recording an operation, replaying it from a root hash, and what an accepted log proves |
| `Emulator` | the machine of both games: instructions, uarch steps, counters and the host calls that run it |
| `Bisection`, `VerificationGame`, `HaltingPlayer` | the referee's bisection, the two-level game, and the player that answers by forking machines and from a cache |
| `RollingMachine`, `RollingGame`, `RollingPlayer` | an epoch of inputs, the three-level game, and its player |
| `MemoryMachine` | the emulator as programs over its memory: disputes of both games settled by replaying logs |
| `GameResult` | from an expression to the game's initial hash, and from the accepted final hash to the result |
| `GameExample`, `RollingExample`, `RollingMemoryExample` | small machines that meet everything the games assume |
| `Base64` | the streaming encoder and decoder |

Two decisions run through all of it.

- Nothing is assumed about the hash function, anywhere. Where the usual statement would say "by collision
  resistance", the lemma returns the two colliding inputs instead (`Proofs.SliceBinds`,
  `ReplaySoundness.AcceptedLogIsTrue`), and so do the disputes: either the honest player wins or the
  clashing inputs are found.
- The imperative code is proved against functions on `Slots`, and those functions are proved against
  the reference tree. The C++ class and the Lua table share the functions, which is how the two
  implementations are compared.

Unsigned 64-bit arithmetic is written out with `Wrap64` at each addition and subtraction where the
source could wrap (`TreeSpec`, `BackMerkleTree`, `Bisection`). Lua's signed comparison is `Uint64.Signed`
and its signed shift `DataRoot.ShiftedOne`.
The shift and bit-test operators are `Merkle.Shr` and `Merkle.Bit`, tied to division by
`Merkle.ShrIsDivision`.

Places where the code does less than its comments or its callers suggest, and what is proved:

- The room check of `pad_back` adds two 64-bit counts. `TreeSpec.RoomCheckIsExact` says it rejects
  exactly what does not fit, except at one point (a full tree of 2^63 leaves and 2^63 more), where
  `BackMerkleTree.BackMerkleTree.PadBack` shows that the tree ends empty.
- The player of the verification game answers a round past its halt from a cache and leaves no fork
  behind, on the ground that such rounds always disagree. An opponent that contradicts its own final hash
  can agree with one. `HaltingPlayer.LoseTheFork` is that game: the player answers the first request of the
  bisection and cannot answer the second. `HaltingPlayer.PlayGame` shows that it plays a game to the end
  exactly when no cached round was agreed, and that a player which forks on those rounds too always does.
- The same player runs its machine with one call, which returns early at an automatic yield. On a
  computation that yields before it stops it claims the state of the first yield:
  `HaltingPlayer.HaltingPlayer.CommitFinalHash` says that the claim is true exactly when there is no such yield.
- The rolling player sends inputs through a host call that refuses a machine which does not wait on an
  accepted manual yield, while the operation it stands for is then a no-op. After an exception or a halt
  before the last input it cannot answer, though the epoch has a true result. `RollingPlayer.PlayGame` shows
  that it plays exactly when every input can be fed, and `RollingExample.FedUnlessOneThrows` gives the epochs.
- The replay does not compare the number of siblings on the log with the depth of the tree. A word access
  carries data that pins it to a leaf, but a write of a whole node (a TLB slot, the uarch reset, an input)
  need not. `ReplaySoundness.PathlessEntryIsAccepted` is an entry accepted against every root,
  `ReplaySoundness.PathlessLogIsAccepted` a whole log of an operation that writes a node and reads a word
  after it, as the uarch reset does, and `ReplaySoundness.NodeWriteIsTrueIff` says that an accepted write
  leads to the true root exactly when its entry has as many siblings as there are levels above the node.
  `MemoryMachine` states its results for the replay as it is and for one that checks the paths.
- `get_root_hash` in Lua shifts a signed integer, so it rejects every string at a root size of 2^63
  bytes and every non-empty one above, and it returns `nil` for an empty string it does not reject.
  `DataRoot.GetRootHash` states all cases. A referee that checks a result with it never accepts an empty one,
  although a machine can leave its output drive empty (`GameResult.EmptyResultIsRejected`), and a posted result
  larger than the drive ends it with an error. `GameResult.CapturedIsAcceptedIff` says when the result the
  player of the source posts is accepted.
- The base64 decoder accepts more than the encoder writes. `Base64.AcceptedTexts` says exactly which
  texts it accepts, and `Base64.ReencodesIffCanonical` exactly which of them are encodings.

## Model

| member | source | states |
|---|---|---|
| Merkle.ShrIsDivision | src/back-merkle-tree.cpp:95-102 | the shift used by the bit tests is division by the power of two, rounded down |
| Merkle.NodeBeyondLeaves | src/back-merkle-tree.hpp:97-109 | a node to the right of every leaf is the pristine node of its height |
| BinaryCounter.SlotIsBit | src/back-merkle-tree.hpp:86-89 | a level holds a hash exactly when its bit of the leaf count is set |
| BinaryCounter.PushCounts | src/back-merkle-tree.cpp:56-74 | a push adds one leaf, and only a counter with every level occupied grows |
| BinaryCounter.PadIsPushAll | src/back-merkle-tree.hpp:97-109 | from every state, padding with `n` copies in logarithmic work leaves the same hash at every level as pushing the copies one by one |
| BinaryCounter.PadWithChain | src/back-merkle-tree.hpp:97-109 | padding with an array of hashes does to the levels what padding with its first hash does, when the array is the chain `make_pad_hashes` makes |
| BinaryCounter.PushAllKeepsSlots | src/back-merkle-tree.hpp:84-95 | pushing leaves onto the counter of earlier leaves gives the counter of all of them in order |
| BinaryCounter.SlotIsNode | src/back-merkle-tree.hpp:86-89 | the hash at a set bit is the reference node of that height ending where the lower bits of the count begin |
| BinaryCounter.RootOfSlotsIsRoot | src/cartesi/hash-tree.lua:133-145 | climbing the counter with pristine nodes on the right gives the reference root of the padded leaves |
| CounterView.CarryIsPush | src/back-merkle-tree.cpp:61-73 | the carry loop's result, written at the first clear bit over stale array entries, is a push at its level |
| CounterView.OwedAfterCarry | src/back-merkle-tree.cpp:100-117 | merging one pad subtree by a carry leaves the padding still owed equal to the padding asked for |
| CounterView.PlaceBits | src/back-merkle-tree.cpp:125-134 | placing pad subtrees at the set bits of the remainder, below the lowest set bit of the count, is the counter of the sum |
| TreeSpec.RoomCheckIsExact | src/back-merkle-tree.cpp:84-86 | the 64-bit room check rejects exactly the counts that do not fit, except at the one wrap point |
| TreeSpec.RoomCheckWraps | src/back-merkle-tree.cpp:84-86 | the concrete call at which the check lets through twice the tree's size |
| TreeSpec.RunKeepsLeaves | src/back-merkle-tree.cpp:56-138 | over every run of the three operations, failed ones included, the counter stands for exactly the leaves appended since the last clear |
| TreeSpec.RunFromEmpty | src/back-merkle-tree.hpp:84-124 | after every run from an empty tree, each set bit of the count holds the reference node of its aligned block |
| TreeSpec.FullSlotIsRoot | src/back-merkle-tree.hpp:114-119 | when the tree is full its last level holds the Merkle root of all the leaves in order |
| TreeSpec.PadBackIsPushBacks | src/back-merkle-tree.hpp:97-109 | wherever there is room, `pad_back` succeeds and leaves what `n` calls of `push_back` leave |
| TreeSpec.PackDeterminesSlots | src/back-merkle-tree.hpp:162-175 | a leaf count and a context determine the whole state |
| TreeSpec.PopCountOfCarry | src/back-merkle-tree.hpp:94-95 | a carry over `i` levels turns `i` set bits of the count into one, which pays for its hashes |
| BackMerkleTree.BackMerkleTree.Carry | src/back-merkle-tree.cpp:61-73 | finds the first clear bit at or above `j`, hashes once per level passed, changes one array entry |
| BackMerkleTree.BackMerkleTree.PushBack | src/back-merkle-tree.cpp:56-74 | does to the levels what a push does or fails on a full tree; the hash calls are one plus the fall in set bits |
| BackMerkleTree.BackMerkleTree.MergeLevel | src/back-merkle-tree.cpp:100-122 | one round raises `j`, clears the bits below it, finds its clear bit inside the array and keeps what is owed; only at the wrap point is the carry lost |
| BackMerkleTree.BackMerkleTree.MergePads | src/back-merkle-tree.cpp:93-123 | the first loop ends with the remainder below 2^j and at most `log2_max_leaves` hash calls |
| BackMerkleTree.BackMerkleTree.PlacePads | src/back-merkle-tree.cpp:125-137 | the second loop places all of the remainder, so both final assertions hold |
| BackMerkleTree.BackMerkleTree.PadBack | src/back-merkle-tree.cpp:76-138 | whatever hashes the array holds, does to the levels what the specification's padding with them does, error cases in order and the wrap point included, with at most `log2_max_leaves` hash calls whatever the count |
| BackMerkleTree.BackMerkleTree.Clear | src/back-merkle-tree.hpp:122-124 | empties the tree by its count alone, whatever hashes stay in the array |
| BackMerkleTree.BackMerkleTree.GetRootHash | src/back-merkle-tree.hpp:114-119 | the hash of the last level of a full tree, an error on any other |
| BackMerkleTree.BackMerkleTree.GetContext | src/back-merkle-tree.hpp:162-175 | the hashes of the occupied levels, lowest first |
| BackMerkleTree.BackMerkleTree.Create | src/back-merkle-tree.hpp:44-74 | accepts exactly a size below 64, a count below the maximum and as many hashes as the count has set bits, with the error of the first check that fails, and then holds that context |
| TreeHash.ValidateLog2MaxLeavesSize | src/back-merkle-tree.cpp:34-54 | accepts exactly ordered sizes whose difference is below 64 |
| TreeHash.MakePadHashes | src/back-merkle-tree.cpp:140-151 | entry `k` is the root of 2^k equal leaves, and the length is what `pad_back` requires |
| TreeHash.MakePristinePadHashes | src/back-merkle-tree.cpp:153-171 | the pad hashes of a leaf that is itself a tree of zeroed words |
| TreeHash.Rebuild | src/json-util.cpp:2154-2173 | a tree is rebuilt from its count and context exactly when it is not full, with the same hash at every set bit |
| TreeHash.PushBackAll | src/back-merkle-tree.hpp:34-37 | `n` pushes succeed exactly when they fit, and from empty cost `n` minus the number of set bits of `n` |
| TreeHash.HashLeaves | src/hash-tree-hash.cpp:252-283 | pushing the leaves and padding the remainder gives the reference root of the leaves extended with pristine ones, or fails on too many |
| TreeHash.PushedThenPadded | src/hash-tree-hash.cpp:282-283 | pushes then one padding up to full put the padded root of the leaves in the last level |
| Proofs.RollHashUpTree | src/cartesi/hash-tree.lua:8-22 | computes the roll through exactly the siblings between target and root size, or fails when one is missing |
| Proofs.TrueProofRolls | src/hash-tree-proof.hpp:187-198 | a true node rolled through its true siblings gives its true ancestor |
| Proofs.TrueProofIsAccepted | src/cartesi/hash-tree.lua:26-28 | `verify_slice` accepts the true proof of every node |
| Proofs.FindCollision | src/cartesi/hash-tree.lua:26-28 | two different openings of one node to the same root contain two different pairs with one hash |
| Proofs.SliceBinds | src/cartesi/hash-tree.lua:26-28 | a slice accepted against the true root has the true node hash and siblings, or the collision is returned |
| Proofs.SpliceRolls | src/cartesi/hash-tree.lua:32-35 | a new node hash rolled through the old siblings is the root of the tree changed only there |
| Proofs.SpliceBinds | src/cartesi/hash-tree.lua:32-35 | a splice accepted against the true root returns the root of the tree changed only at that node, or the collision is returned |
| Frontier.Frontier.PushBack | src/cartesi/hash-tree.lua:118-127 | the Lua table after a push is the counter after a push, growing only when every level is present |
| Frontier.Frontier.LeafCount | src/cartesi/hash-tree.lua:89-96 | the number the levels encode |
| Frontier.Frontier.GetRootHash | src/cartesi/hash-tree.lua:133-145 | the counter climbed to its root with pristine nodes |
| Frontier.PushedRoot | src/cartesi/hash-tree.lua:118-145 | pushing leaves one by one and rooting gives the padded reference root of earlier and new leaves |
| FrontierProofs.ReadsNode | src/cartesi/hash-tree.lua:103-112 | every node the climb reads, whether from the frontier, the active region or the pristine one, is the true one; a `false` entry is never read |
| FrontierProofs.AddSiblings | src/cartesi/hash-tree.lua:155-202 | one level of the climb appends to each new output its true sibling at that level |
| FrontierProofs.Climb | src/cartesi/hash-tree.lua:155-202 | the parents of a level's active region are the active region one level up |
| FrontierProofs.NextProofs | src/cartesi/hash-tree.lua:155-202 | one proof per output, each the true one against the root of all leaves, each accepted by `verify_slice` |
| FrontierProofs.BelowLowestBit | src/cartesi/hash-tree.lua:238-251 | what subtracting one does to the path of the last leaf, below and above the lowest set bit of the count |
| FrontierProofs.FrontierOf | src/cartesi/hash-tree.lua:227-254 | the frontier recovered from the last leaf's proof is, level by level, the frontier of all the leaves |
| Epochs.ResumeEpoch | doc/README.md:8010-8037 | proving an epoch's outputs and recovering the frontier from the last proof is pushing them one by one |
| Epochs.ResumeEpochs | doc/README.md:8010-8037 | however outputs fall into epochs, empty ones included, resuming from proofs alone gives the one tree from genesis and its root |
| Epochs.ImplementationsAgree | doc/README.md:7958-7996 | the Lua levels equal the C++ levels, and the Lua root equals the C++ root after padding with the pristine leaf |
| Epochs.BothRoots | src/cartesi/hash-tree.lua:44-66 | the Lua root of a byte string equals the C++ tree's after pushing its word hashes and padding |
| DataRoot.GetRootHash | src/cartesi/hash-tree.lua:44-66 | the reference root of the word hashes for every size, with the rejected and the `nil` cases |
| DataRoot.HashWords | src/cartesi/hash-tree.lua:46-55 | the hashes of the 32-byte words, the last one zero-padded |
| DataRoot.ZeroExtension | src/cartesi/hash-tree.lua:37-43 | extending the data with any number of zero bytes does not change its root |
| AccessLog.AccessLog.PushBeginBracket | src/access-log.hpp:298-308 | keeps the capacity at least the brackets written plus the ends still to come |
| AccessLog.AccessLog.PushEndBracket | src/access-log.hpp:310-323 | the end of an open bracket never reallocates |
| AccessLog.AccessLog.PushAccess | src/access-log.hpp:330-335 | appends one access and keeps one note per access when annotations are on |
| AccessLog.AccessLog.Clear | src/access-log.hpp:288-293 | empties the log and its outstanding ends |
| AccessLog.CountOpen | src/access-log.hpp:271-285 | the count taken from existing vectors is the number of begins without an end, a stray end ignored |
| MemoryTree.BlockIsNode | src/i-hasher.hpp:193-217 | the recursive hash of a block of memory is the reference node over its words |
| MemoryTree.WriteRolls | src/hash-tree-proof.hpp:187-198 | the hash of new data, rolled through the old siblings of any node, is the root of the memory with that block written |
| AccessReplay.MakeProof | src/access-log.hpp:175-201 | makes the proof of the enclosing tree node, or refuses exactly absent siblings and data of the wrong size |
| AccessReplay.RolledAccess | src/access-log.hpp:175-201 | the proof of an access rolls a hash up from the node that holds its address |
| AccessReplay.ReadReplays | src/uarch-replay-state-access.hpp:279-291 | a recorded read is accepted against the memory's root and returns the tree word read |
| AccessReplay.WriteReplays | src/uarch-replay-state-access.hpp:259-273 | a recorded write of 8 bytes inside a tree word takes the memory's root to the root of the memory after the store |
| AccessReplay.NodeWriteReplays | src/uarch-replay-state-access.hpp:246-257 | a recorded write of a node of any height, with or without its data, takes the memory's root to the root after the write |
| AccessReplay.RecordedLogReplays | src/machine.cpp:2072-2128 | for every memory and every program of word reads, word writes, node writes and a final revert, the recorded log replays from the first root to the root the run ends at |
| ReplaySoundness.DepthBinds | src/uarch-replay-state-access.hpp:181-188 | data that rolls up to a root through another number of siblings than there are levels above it exhibits a clash |
| ReplaySoundness.OpenWord | src/uarch-replay-state-access.hpp:181-216 | a word accepted at an address, whatever the depth of its proof, is the memory's word with its true siblings, or the clash is returned |
| ReplaySoundness.WriteIsTrue | src/uarch-replay-state-access.hpp:259-273 | an accepted word write, whatever the entry holds, leads to the root after the store, or the clash is returned |
| ReplaySoundness.NodeWriteIsTrueIff | src/uarch-replay-state-access.hpp:246-257 | an accepted node write leads to the root after the write if and only if its entry has as many siblings as levels above the node, or the clash is returned |
| ReplaySoundness.ReadDataGivesFullPath | src/uarch-replay-state-access.hpp:230-240 | an accepted node write that carries the data it overwrites has a full path, or the clash is returned |
| ReplaySoundness.PathlessEntryIsAccepted | src/uarch-replay-state-access.hpp:246-257 | the entry without siblings whose read hash is the root is accepted against every root and leads to the written hash alone |
| ReplaySoundness.RollModulo | src/uarch-replay-state-access.hpp:181-188 | rolling a hash through a path uses only the low bits of the index, one for each sibling |
| ReplaySoundness.ReadWithinIsAccepted | src/uarch-replay-state-access.hpp:279-291 | after a write without siblings, a word read at any address opens against the written data alone |
| ReplaySoundness.PathlessLogIsAccepted | src/uarch-reset-state.cpp:32-45 | of an operation that writes a node and then reads a word, a whole log is accepted against every memory and ends at the hash of the written data, which is not the true root unless the operation reverts, or exhibits a clash |
| ReplaySoundness.AcceptedLogIsTrue | src/machine.cpp:2091-2145 | any accepted log whose node writes have full paths, whoever wrote it, ends at the root the program really leads to, revert included, or the clash is returned |
| ReplaySoundness.RecordedPathsAreFull | src/uarch-record-state-access.hpp:161-185 | recorded node writes have full paths |
| ReplaySoundness.WordLogsNeedNoCheck | src/uarch-replay-state-access.hpp:259-291 | of a program that writes words only, every accepted log passes the check on paths |
| StepVerifier.ReplayContext.CheckSiblings | src/uarch-replay-state-access.hpp:143-188 | accepts exactly the entries of the expected kind and range whose proof rolls to the current root |
| StepVerifier.ReplayContext.CheckReadData | src/uarch-replay-state-access.hpp:203-216 | accepts exactly data of the size of the node whose hash is the recorded one |
| StepVerifier.ReplayContext.CheckReadWord | src/uarch-replay-state-access.hpp:279-291 | uses up one entry, returns the tree word read and leaves the root alone, or rejects |
| StepVerifier.ReplayContext.RevertState | src/uarch-replay-state-access.hpp:337-357 | the hash read becomes the root, or the entry is rejected |
| StepVerifier.ReplayContext.CheckWriteWord | src/uarch-replay-state-access.hpp:259-273 | uses up one entry and moves the root to that of the written word, or rejects |
| StepVerifier.ReplayContext.CheckNodeWrite | src/uarch-replay-state-access.hpp:246-257 | uses up one entry and moves the root to that of the written node, or rejects |
| StepVerifier.VerifyOperation | src/machine.cpp:2091-2145 | replays the program on the log and accepts only when every entry was used and the root is the expected one, if any is |
| StepVerifier.RecordOperation | src/machine.cpp:2083-2121 | appends to the log exactly the recorded accesses and returns what the run ends with |
| StepVerifier.LogOperation | src/machine.cpp:2072-2128 | the log it returns has been verified, which never fails |
| Bisection.BisectLevel | doc/recipes/vgu.lua:318-333 | for every interval and every opponent, ends within the rounded-up logarithm of rounds with player 1's hash wrong after the transition exactly when player 2 is the truthful one, without wrap-around at the midpoint |
| Bisection.RoundKeeps | doc/recipes/vgu.lua:322-329 | one round keeps the interval agreed below and disputed above, whichever way the answers go |
| Bisection.CeilLog2IsLogarithm | doc/recipes/vgu.lua:318-333 | the bound on the rounds is the base-2 logarithm rounded up |
| Bisection.AgreedIsBelowTops | doc/recipes/vgu.lua:144-152 | under every sequence of branches the agreed position stays below the top at every level the bisections range over |
| Emulator.RunUntil | src/machine.cpp:2230-2241 | runs whole instructions to the target, the stop or an automatic yield, and never past the target |
| Emulator.RunUarch | src/uarch-interpret.cpp:27-46 | from any cycle not past the target, reaches the state that many steps lead to, the uarch's halt included |
| Emulator.StoppedStays | doc/README.md:8306-8313 | a stopped machine stays as it is under further instructions |
| VerificationGame.FixedPoint | doc/README.md:8306-8313 | running a halted machine further changes nothing, so a bisection over the full cycle range starts disputed |
| VerificationGame.WrongHashIsRejected | doc/recipes/verification-game.lua:178-191 | no log takes the referee from the true hash before a transition to a wrong hash after it, including the transition that chains a reset |
| VerificationGame.LogsVerify | doc/recipes/verification-game.lua:114-122 | the logs of the true state verify, with a reset log at the last uarch cycle only |
| VerificationGame.HonestPlayerIsHonest | doc/README.md:8211-8232 | the strategy of answering from the computation itself, with complete loggers, is what the referee's guarantee asks of one player |
| VerificationGame.SettleDispute | doc/recipes/verification-game.lua:209-228 | names the honest player, in either seat, against every adaptive and self-contradicting opponent, unless player 1 has posted logs that the verifiers accept for a wrong hash, which it then returns |
| VerificationGame.RunReferee | doc/recipes/verification-game.lua:268-277 | the accepted final hash is the true one, with or without a dispute, or the same fault |
| HaltingPlayer.BreaksEarlyOrStops | src/machine.cpp:2230-2241 | the first place a run returns at is the stop exactly when nothing yields automatically before it, and otherwise another state |
| HaltingPlayer.HaltingPlayer.RunFork | doc/recipes/verification-game.lua:98-104 | a fork run to an mcycle ends between where it was and the target, and at the target exactly when no automatic yield comes before |
| HaltingPlayer.HaltingPlayer.CommitFinalHash | doc/recipes/verification-game.lua:75-87 | the claimed hash is that of the state a single run returns in, which is the final state exactly when the computation does not yield automatically on the way |
| HaltingPlayer.HaltingPlayer.TakeBranch | doc/recipes/vgu.lua:144-152 | an agreed round promotes the tentative fork even when there is none, and is an error when the agreed one is already gone |
| HaltingPlayer.HaltingPlayer.CommitBisection | doc/recipes/verification-game.lua:93-105 | a lost fork leaves every round that needs one unanswered; on a computation that does not yield, every answer is the hash at the position asked about |
| HaltingPlayer.HaltingPlayer.CommitLog | doc/recipes/verification-game.lua:114-122 | posts the logs of the agreed position exactly when the fork is not lost |
| HaltingPlayer.PlayGame | doc/recipes/verification-game.lua:75-122 | for every sequence of requests, the player plays to the end if and only if no cached round was agreed or it keeps its fork; then it plays the honest strategy, or, when the computation yields on the way, has claimed another state than the final one |
| HaltingPlayer.AgreedFirstRound | doc/recipes/vgu.lua:318-333 | the first two requests of the mcycle bisection, when the first is agreed, are a cached round and one that is not, for every halt |
| HaltingPlayer.LoseTheFork | doc/recipes/verification-game.lua:93-105 | in that game the player answers the first request and the second not at all, whatever the computation |
| MemoryMachine.FaultClashes | src/machine.cpp:2091-2145 | step and reset logs accepted by replay for a wrong hash, whoever wrote them, exhibit a clash when their node writes have full paths or the paths are checked |
| MemoryMachine.SettleMachineDispute | doc/recipes/verification-game.lua:209-228 | the dispute with logs verified by replay, for any hash function: the honest player wins, or a clash is returned, or player 1 posts a path that is not full and was not checked |
| MemoryMachine.RecordIsComplete | src/machine.cpp:2072-2128 | recorded step and reset logs verify on every state of the computation, whatever the hash, with the check on paths and without |
| MemoryMachine.RecordingPlayerIsHonest | doc/recipes/verification-game.lua:114-122 | so the player that answers from the machine and records its logs is what the dispute asks of an honest one |
| MemoryMachine.RollingFaultClashes | src/machine.cpp:2039-2145 | the same of accepted logs in the rolling game, the inclusion of an input and the revert of a rejected one included |
| MemoryMachine.SettleRollingDispute | doc/recipes/rolling-verification-game.lua:366-392 | the rolling dispute with logs verified by replay: the honest player wins, or a clash is returned, or player 1 posts an unchecked path that is not full |
| MemoryMachine.RollingRecordIsComplete | src/machine.cpp:2020-2128 | recorded logs verify in the rolling game, whatever the hash, with the check on paths and without |
| MemoryMachine.RollingRecorderIsHonest | doc/recipes/rolling-verification-game.lua:241-257 | so the player that answers from the epoch and records its logs is honest |
| GameResult.DataRootIsDataHash | src/cartesi/hash-tree.lua:37-66 | `get_root_hash` of data that fits a node is the machine's own hash of that node holding the data and zeros after it |
| GameResult.DataBinds | src/i-hasher.hpp:193-217 | two blocks of one size with the same hash are equal or exhibit a clash |
| GameResult.InitialHashIsTrueIff | doc/recipes/verification-game.lua:285-291 | the hash the referee computes from the expression and the template's proof is the root of the template with the expression written in if and only if the rest of the drive is pristine, or there is a clash |
| GameResult.AcceptedResultIsTrue | doc/recipes/verification-game.lua:161-168 | a result accepted against the hash of a machine is what the machine holds in its output drive, zeros after it, or exhibits a clash |
| GameResult.ProvenResultIff | doc/recipes/verification-game.lua:161-168 | with the machine's own proof the results accepted are exactly the true ones that are not empty, or there is a clash |
| GameResult.CapturedIsAcceptedIff | doc/recipes/verification-game.lua:75-87 | what the player captures at its halt is accepted if and only if the drive holds a string that is not empty with only zeros after it, or there is a clash |
| GameResult.EmptyResultIsRejected | doc/recipes/verification-game.lua:161-168 | the result captured from a drive that starts with a zero byte is empty, and rejected |
| GameResult.WaitForResult | doc/recipes/verification-game.lua:251-261 | takes the first of the posts that is not rejected, and waits only if all of them were |
| GameResult.RunGame | doc/recipes/verification-game.lua:268-291 | from any expression and any opponent, the result the referee takes is the true one, it waits only while nobody has posted a true result with its proof, and fails only on a post larger than the drive; or a clash is returned, or player 1 posts an unchecked path that is not full |
| GameExample.RefereeIsReady | doc/recipes/verification-game.lua:268-291 | everything the whole game asks for holds at once, with a text to post |
| RollingMemoryExample.AssumptionsHoldTogether | doc/README.md:8567-8592 | everything the rolling dispute over memory asks for holds at once, for all inputs, on a machine whose guest accepts and rejects |
| RollingMachine.BoundaryIsFixed | doc/README.md:8567-8572 | every input boundary is a stopped machine with a pristine uarch that has not rejected |
| RollingMachine.VerdictsFeedTheEpoch | doc/README.md:8567-8572 | when the guest accepts or rejects every input, every boundary waits on an accepted yield and every input can be fed |
| RollingMachine.NothingAfterLastInput | doc/README.md:8574-8584 | every boundary past the last input repeats the last one |
| RollingMachine.RejectedStays | doc/README.md:8586-8592 | once an input is rejected, every later offset answers with the boundary before it |
| RollingMachine.ResetReachesNext | doc/README.md:8770-8776 | the hash a reset proves is that of the next instruction's start, the recorded revert hash standing for a rejected input |
| RollingGame.TransitionReachesNext | doc/recipes/rolling-verification-game.lua:327-355 | what a verified transition proves is the hash at the next position, in each of its forms |
| RollingGame.WrongHashIsRejected | doc/recipes/rolling-verification-game.lua:327-355 | no logs take the referee from the true hash to a wrong one, input inclusion and revert included |
| RollingGame.LogsVerify | doc/recipes/rolling-verification-game.lua:241-257 | the logs of the true state verify, in every form a transition takes |
| RollingGame.HonestPlayerIsHonest | doc/README.md:8498-8500 | the strategy of answering from the epoch itself, with complete loggers, is what the referee's guarantee asks of one player |
| RollingGame.SettleDispute | doc/recipes/rolling-verification-game.lua:366-392 | three bisections and one transition name the honest player, in either seat, against every opponent, unless player 1 has posted logs that the verifiers accept for a wrong hash |
| RollingPlayer.RunTo | doc/recipes/rolling-verification-game.lua:103-114 | runs through automatic yields to the target or the stop, whichever is first |
| RollingPlayer.EpochPlayer.TakeBranch | doc/recipes/vgu.lua:144-152 | the same promotion of forks, on entries |
| RollingPlayer.EpochPlayer.Advance | doc/recipes/rolling-verification-game.lua:141-151 | crosses one input exactly when it can be sent and processing it ends with a request, and then reaches the next boundary, reverted when rejected |
| RollingPlayer.EpochPlayer.CrossInputs | doc/recipes/rolling-verification-game.lua:196-205 | crosses inputs exactly when each of them can be, and then reaches the from-scratch boundary |
| RollingPlayer.EpochPlayer.RunToOffset | doc/recipes/rolling-verification-game.lua:219-223 | a fork run to an offset is the from-scratch state there, the boundary once the input is rejected |
| RollingPlayer.EpochPlayer.CommitFinalHash | doc/recipes/rolling-verification-game.lua:160-186 | claims a hash exactly when every input of the epoch can be fed, and then that of its last boundary |
| RollingPlayer.EpochPlayer.CommitBisection | doc/recipes/rolling-verification-game.lua:196-231 | for every sequence of branches, answers exactly when the round's host calls succeed, and then with the from-scratch hash at the position asked about, the input fed exactly once |
| RollingPlayer.EpochPlayer.CommitLog | doc/recipes/rolling-verification-game.lua:241-257 | the posted logs are those of the agreed position |
| RollingPlayer.PlayGame | doc/recipes/rolling-verification-game.lua:160-257 | the player plays a whole game if and only if every input of the epoch can be fed, and then it plays the honest strategy |
| RollingExample.FedUnlessOneThrows | src/machine.cpp:1983-2011 | of a machine whose guest accepts, rejects or throws, the epochs that can be fed are those in which no input but the last throws |
| Base64.B64Encode | src/base64.cpp:45-67 | buffers an octet, or on the third appends the RFC 4648 group of the three |
| Base64.B64Pad | src/base64.cpp:69-101 | appends the padded group of the one or two octets left |
| Base64.EncodeBase64 | src/base64.hpp:40-51 | the streamed result is the grouping of section 4 of RFC 4648 |
| Base64.B64Decode | src/base64.cpp:103-145 | ignores white space, refuses exactly what is not a symbol, and on the fourth symbol appends one to three octets |
| Base64.DecodeBase64 | src/base64.hpp:53-65 | decodes the text without its white space, or reports its first invalid character |
| Base64.AcceptedTexts | src/base64.cpp:106-113 | a text is accepted exactly when every character is a symbol, a pad or white space |
| Base64.RoundTrip | src/base64.hpp:40-65 | decoding undoes encoding for every sequence of octets |
| Base64.StreamRoundTrip | src/base64.hpp:40-65 | any number of encodings in a row, with white space anywhere, decode to the octets in order |
| Base64.StripKeepsSymbols | src/base64.cpp:106-111 | an encoding holds no white space, so the round trip is of the text as written |
| Base64.EncodedIsCanonical | src/base64.cpp:69-101 | encodings are whole atoms with padding in the last one only and zero bits under it |
| Base64.ReencodesIffCanonical | src/base64.cpp:106-145 | encoding a decoded text again gives the text back exactly when it is canonical |

## Left out

- TreeSpec.RunFromEmpty: arrays of the right length that are not pad hashes are excluded, since their leaves stand for nothing; `BackMerkleTree.BackMerkleTree.PadBack` covers them.
- MemoryMachine.SettleMachineDispute: with the replay as it is, an opponent in the first seat may win by a node write without a full path, which `ReplaySoundness.PathlessLogIsAccepted` shows to be real; resets never revert there, as the computation has no input to reject.
- MemoryMachine.SettleRollingDispute: the replay of an input inclusion (`src/replay-send-cmio-state-access.hpp`) is taken to make the checks of the uarch replay. Its own are not the same: its `check_read` does not refuse written data or a written hash on a read, and its `check_write` also demands the written data.
- VerificationGame.SettleDispute: assumes that the machine halts within the mcycle range, and that one player follows the honest strategy to the end; `HaltingPlayer.PlayGame` says when the player of the source does.
- VerificationGame.RunReferee: stops at the accepted final hash; `GameResult.RunGame` goes on to the result.
- HaltingPlayer.PlayGame: the computation is taken to stop within 2^63 - 1 instructions, which is where the source's own run ends.
- HaltingPlayer.HaltingPlayer.CommitFinalHash: the output captured at the halt is modelled on its own, by `GameResult.Captured`; a drive without a zero byte is an error there.
- GameResult.RunGame: drives are powers of two of bytes, posts arrive in a given order, and a result that is too large ends the game with an error, as in the source, whoever posts it.
- RollingGame.SettleDispute: assumes `RollingMachine.IsRolling`, what the emulator promises about instructions that start with a pristine uarch, about uarch cycles and about the recorded revert hash, with cycle counters that never reach their 64-bit ceiling, and `RollingMachine.IsEpoch`, that every input is done within its mcycles. A machine that rejects an input is taken not to be halted. `RollingMemoryExample.AssumptionsHoldTogether` shows that all of this can hold at once.
- RollingMachine.BoundaryIsFixed: does not say that the boundary waits on an accepted yield, which an input that throws or halts breaks; `RollingMachine.VerdictsFeedTheEpoch` says when it does.
- RollingPlayer.EpochPlayer.CommitFinalHash: does not collect the outputs of the accepted inputs or compare their root hash with the one the guest reports.
- RollingPlayer.EpochPlayer.CommitLog: the loggers are functions of the state; that each log performs the operation it records is part of the abstraction.
- Emulator.RunUntil: running instructions and running their uarch steps are taken to lead to the same states, as the emulator promises.
- AccessReplay.RecordedLogReplays: programs stand for the code of the operations; which accesses a uarch step, a reset or an input inclusion makes is not modelled.
- AccessLog.CountOpen: the constructor from existing vectors reserves nothing, so the capacity promise is proved for logs built by pushes only.
- DataRoot.GetRootHash: levels and words are values; only whole words of 32 bytes are hashed, as in the source.
- Keccak-256 and SHA-256 themselves, and `concat_hash` writing its result over an argument: the hash is a function of values.
- RISC-V and uarch instruction semantics, and the code that runs a machine: an abstract deterministic step, reset and input inclusion.
- Sockets, JSON-RPC, processes, files, timing and printing: a fork is a copy of a state, and a strategy sees the whole transcript.
- Out-of-memory handling in `push_end_bracket`: only the capacity it relies on is proved.
- The order in which the honest player and the referee talk to several players at once, and the posting of outputs after a rolling dispute.
- Slicing a proof to a smaller subtree (`src/hash-tree-proof.hpp`) and the in-memory page tree of the emulator: further uses of the same rolling.
- The text of the access log's notes, beyond their number and order.
