# Verification of the MWEB chain state

A Dafny model of libmw's chain-state engine, and proofs about it: the Merkle Mountain Ranges for kernels and
outputs, the leaf set of unspent outputs, and the views of coins that connect, disconnect, build and flush blocks.
Around it, models of algorithms that the repository brings along: the locked-pool arena, bit streams and buffered
files, number and Base64 parsing, signatures with their encodings, and streaming hashes.

`dafny verify dfyconfig.toml` checks everything; each file is one module.

## How it is built

Code that works in place is modelled by classes and methods with its fields and loops. Each of them is proved against
a specification on plain values, and the main theorems are about those values. What a specification means is pinned
down by lemmas on literals, spelled-out forms and documented examples, such as `BaseTexts.DigitsAre`, `Hashing.Sha256Is` and `Serialize.KnownEncodings`.

- `Bits`, `Positions`, `Index`: 64-bit words; the nodes of the infinite MMR as coordinates and as positions.
- `Merkle`, `FileBackend`, `Mmr`, `BitSet`, `Factory`, `Compaction`: a hash is a free datatype, which
  makes it collision-free. `Mmr` stacks
  caches to any depth over a backend; every layer stands for one flat list of leaves. `Factory` rebuilds a pruned MMR,
  and `Compaction` removes hashes from one.
- `LeafSet`: a set of naturals with a bound, in bytes, as an overlay over overlays over a file.
- `Chain`, `Blocks`, `Runs`: the flat chain state (a stack of coins per commitment, unspent leaves, kernels, outputs
  and the best header), what a block does to it, and every run of connecting, disconnecting and flushing.
- `CoinUpdates`, `CoinsView`, `Node`, `BlockBuilder`: the lists of push and pop actions, the classes of views over
  each other and over the database, and the operations of a node, proved to refine the flat state.
- `Arena`; `BitStreams`, `BufferedFile`; `FixedPoint`, `BaseText`, `Serialize`; `Ecdsa`, `Der`; `Hashing`; with
  `Arith` for quotients and remainders and `ByteStrings` for lists of bytes.

The interfaces `IMMR`, `ILeafSet` and `ICoinsView` are datatypes over their two implementations.

## The main results

- Undo is an exact inverse: `Blocks.UndoAfterApply`, `Blocks.CoinsRestoredIff`, `Blocks.DisconnectRestoresIff`.
- Over all runs, coins and leaves correspond one to one and runs that come back come back exactly: `Runs.RunSafe`,
  `Runs.RunReturns`, `Runs.SpentUntilUndone`; real views follow such runs, also through flushes to the database as
  long as commitments stay unique: `Nodes.Follow`, `Runs.UniqueRunIff`.
- Layers are invisible: `Mmr.MMRCache.Flush`, `LeafSets.LeafSetCache.Flush`, `CoinsViews.CoinsViewCache.Flush`.
- What a header commits to: `Merkle.RootBinding`, `LeafSets.LeafsetRootBinding`, `Blocks.HeaderBinding`.
- A pruned MMR is rebuilt with the true hashes and is complete up to its peaks: `Factory.CalcHashes`,
  `Factory.RebuiltReads`; it stays readable when it is compacted again: `Compaction.CompactAgain`.
- Which built blocks are accepted, and that a built block holds all that was added: `Blocks.BuiltBlockAcceptedIff`,
  `Builders.BlockBuilder.BuildBlock`.
- The arena's invariant over every use: `Arenas.Arena.Alloc`, `Arenas.Arena.Free`, `Arenas.Arena.AllGivenBack`.
- Round trips and exactness: `BitStreams.WriteThenRead`, `FixedPoint.PrintThenParse`, `BaseTexts.Decode`,
  `Der.CanonicalIff`, `Serialize.ReadVarInt`, `Ecdsa.SignThenVerify`, `Hashing.Blake2bPieces`.

## Where the code and its documentation differ

The model follows the code.

- `BitSet::rank` counts strictly below its argument; its comment says up to it (include/mw/common/BitSet.h:59-78).
- A bit set that is read from bytes has eight bits for every byte (include/mw/common/BitSet.h:17-30), and the leaf set
  of a received state gets to `CalcHashes` that way. The bits past the last leaf count as spent leaves there, so hashes
  are asked for that the sender's snapshot does not have, or has for another node, unless the number of leaves is a
  multiple of eight (`Factory.AppendedIff`, `Factory.ReadBackIff`; `Factory.OneLeafReadBack` for one leaf).
- `FileBackend::Compact` asserts an assignment where a comparison of sizes is meant (src/mmr/backends/FileBackend.cpp:69).
  The bit sets that `BuildCompactBitSet` makes are longer than the hash file, and compacting by one throws
  (`Compaction.BuiltBitsPastEnd`); cut to the number of nodes they work (`Compaction.CompactBuilt`). Only tests call
  `DiffCompactBitSet`, and nothing calls `Compact`.
- doc/Consensus.md lets a block spend an output it creates. `BuildNextBlock` builds such a block, and `ApplyBlock`
  rejects it (`Blocks.BuiltBlockAcceptedIff`).
- doc/Consensus.md asks for unique commitments in the UTXO set. `ApplyBlock` does not: commitments have stacks of coins
  (`Blocks.DuplicateOutputAccepted`; `Blocks.UniqueIff` says when they stay unique). Of a stack the database keeps one
  coin (`CoinUpdates.TwoCoinsAreLost`; `CoinUpdates.FlushFaithfulIff` says when that is the right one).
- Disconnecting the first block leaves the view as it was, because `Flush` returns when there is no best header
  (src/node/CoinsViewCache.cpp:206-208; `Blocks.DisconnectRestoresIff`).
- `CBufferedFile` promises to go back a number of bytes. `SetPos` counts them from the end of what was read from the
  file, not from the reading position (deps/litecoin/streams.h:807-818; `BufferedFiles.GoesForward`, and
  `BufferedFiles.GoesBackIff` for how far it works).
- `ParseFixedPoint` rejects zero with a large exponent, such as 0e30 (`FixedPoint.ZeroRefused`; `FixedPoint.ExactIff` for the
  exact condition).
- At the last 64-bit position, 2^64 - 1, `Index::CalculateHeight` returns the position and `Index::CalculateLeafIndex`
  returns 0, and parents, siblings and leaves beyond the 64-bit positions wrap around; the contracts in `Index.dfy` say
  exactly when. The root of a leaf set whose bound is 2^64 - 7 or more commits to nothing (`LeafSets.ILeafSet.Root`).

## Model

| member | source | states |
|---|---|---|
| Blocks.UndoAfterApply | src/node/CoinsViewCache.cpp:28-96 | For every well-formed state with a best header and every block that applies: undoing it never pops an empty stack, passes the final validation, and gives back everything but possibly the order of coins; it gives back the state itself, every stack in order, exactly when the inputs are distinct. |
| Blocks.CoinsRestoredIff | src/node/CoinsViewCache.cpp:66-78 | Popping the added coins and pushing the spent ones restores all stacks if and only if no commitment is spent twice in the block. |
| Blocks.UndoneStack | src/node/CoinsViewCache.cpp:70-78 | The stack of any commitment after undoing: the coins that were not spent, and then the spent ones in the order in which they were spent. |
| Blocks.LeavesRestored | src/node/CoinsViewCache.cpp:89 | Rewinding the leaf set with the spent leaves gives back exactly the set before the block. |
| Blocks.UndoFirst | src/node/CoinsViewCache.cpp:80-87 | Undoing the block that was applied to the empty state without a header gives back the empty state. |
| Blocks.DisconnectRestoresIff | src/node/Node.cpp:63-91 | Disconnecting the block just connected succeeds, and the view is restored if and only if the inputs are distinct and there was a best header before: without one, Flush writes nothing. Nodes.ConnectBlock and Nodes.DisconnectBlock refine the two functions. |
| Blocks.ApplyWellFormed | src/node/CoinsViewCache.cpp:28-64 | Applying a block keeps: leaf bits and live coins in one-to-one correspondence, coins filed under their commitment with the leaf that carries their output, the bound of the leaf set, and roots and sizes committed to by the best header. |
| Blocks.ApplyGrows | src/node/CoinsViewCache.cpp:28-64 | A block appends its kernels and outputs, its own leaves become unspent, the spent leaves were unspent, and no other leaf bit changes. |
| Blocks.CreatedCoins | src/node/CoinsViewCache.cpp:38-61 | What a block leaves of every stack: the coins below those its inputs take, and on top the coins of its outputs with the block's height, each on its own new leaf, in order. |
| Blocks.SpentStaysSpent | src/node/CoinsViewCache.cpp:175-186 | A leaf that is spent stays spent when a block is applied. |
| Blocks.ApplyOkIff | src/node/CoinsViewCache.cpp:175-180 | A block fails for a missing UTXO exactly when some commitment is spent more often than it has coins. |
| Blocks.HeaderBinding | src/node/ICoinsView.cpp:7-21 | Two well-formed states with the same best header have the same kernels, outputs, unspent leaves and next leaf index. |
| Blocks.MatchesBinding | src/node/ICoinsView.cpp:11-15 | Two consistent states that pass ValidateMMRs for the same header agree in everything the header commits to. |
| Blocks.BuiltBlockAcceptedIff | src/node/CoinsViewCache.cpp:98-148 | A block built with outputs added before inputs are spent is accepted by ApplyBlock, which spends first, if and only if it spends no output of its own; then both end in the same state. |
| Blocks.BuiltBlockApplies | src/node/CoinsViewCache.cpp:104-148 | The half of it for blocks without an own output spent: the block applies and leads to the state it was built to. |
| Blocks.CutThroughRejected | src/node/CoinsViewCache.cpp:38-61 | A built block that spends one of its own outputs is always rejected. |
| Blocks.CheckedBuildOkIff | src/node/BlockBuilder.cpp:58-72 | After the builder's checks on inputs and outputs no block spends its own output, and building succeeds exactly when no commitment is spent more often than it has coins. |
| Blocks.CheckedBlockAccepted | src/node/BlockBuilder.cpp:58-101 | A block that passes the builder's checks and asks for no more coins than there are is built, and ApplyBlock accepts it. |
| Blocks.DuplicateOutputAccepted | src/node/CoinsViewCache.cpp:53-59 | The code accepts a block with an output whose commitment already has a live coin: an input on which the uniqueness rule of doc/Consensus.md is not kept. |
| Blocks.UniqueIff | src/node/CoinsViewCache.cpp:38-61 | When it is kept: after a block that applies, every commitment has at most one live coin if and only if, for every commitment, the coins there and the outputs for it are at most one more than the inputs that spend it. |
| Runs.UniqueRunIff | src/node/CoinsViewCache.cpp:38-61 | The same over runs: no commitment ever has two live coins if and only if every block that gets connected meets that condition on counts. |
| Runs.NextUnique | src/node/CoinsViewCache.cpp:28-96 | One step of a run, disconnecting and flushing included, keeps commitments unique if and only if it connects no block that breaks the condition. |
| Chain.SpendConsistent | src/node/CoinsViewCache.cpp:175-186 | Spending succeeds exactly when the commitment has a live coin, so the leaf-set test never fails on its own, and keeps the state consistent. |
| Chain.AddConsistent | src/node/CoinsViewCache.cpp:165-173 | Adding an output keeps the state consistent. |
| Chain.SpendAllOkIff | src/node/CoinsViewCache.cpp:43-50 | A list of inputs can be spent exactly when it asks for no more coins of any commitment than there are. |
| Chain.SpendAllStacks | src/node/CoinsViewCache.cpp:43-50 | Spending a list takes from every stack its newest coins, as many as the list names it. |
| Chain.SpentCoins | src/node/CoinsViewCache.cpp:43-50 | The coins reported as spent are, for every commitment, as many as it is named, the newest ones of its stack, newest first. |
| Chain.AddAllStack | src/node/CoinsViewCache.cpp:52-59 | Adding a list of outputs pushes on every stack its own new coins, in order, on leaves not used before. |
| Runs.RunSafe | src/node/CoinsViewCache.cpp:11-26 | After any run of connecting, disconnecting and flushing from the empty state: one live coin per unspent leaf and none for a spent one, no bit at or above the next leaf, roots and sizes as the header says, and the last block can be undone with its undo data. |
| Runs.RunLinked | src/node/Node.cpp:63-91 | The invariant of a run: the trail of connected blocks leads from state to state up to the current one. |
| Runs.ConnectLinked | src/node/Node.cpp:63-76 | Connecting any block keeps the invariant, whether it is accepted or not. |
| Runs.DisconnectLinked | src/node/Node.cpp:78-91 | Disconnecting the last block succeeds, leads to the state before it when that had a header, and keeps the invariant. |
| Runs.UndoAlwaysFits | src/node/CoinsViewCache.cpp:70-72 | The coins that undo data removes are always there, so the replay never pops an empty stack. |
| Runs.RunReturns | src/node/Node.cpp:63-91 | Any run that never goes below its starting height and comes back to it ends in the starting state: in particular k connects and the k disconnects in reverse. |
| Runs.RunExtends | src/node/Node.cpp:63-91 | A run that stays above a block leaves that block and everything below it untouched. |
| Runs.SpentUntilUndone | src/node/CoinsViewCache.cpp:175-186 | A coin that is spent stays spent through every run, until the block that spent it is disconnected. |
| Nodes.ConnectBlock | src/node/Node.cpp:63-76 | On any stack of caches: on success the view holds the state after the block and the undo data is returned; on failure the view is untouched. |
| Nodes.DisconnectBlock | src/node/Node.cpp:78-91 | The view holds the state before the block, or is untouched when validation fails or there is no previous header. |
| Nodes.Follow | src/node/Node.cpp:63-91 | Any series of steps on a real view refines the run on the flat state: same final state, and the undo data at hand is that of the trail. Flushes in between need that the view below is a cache or that no commitment gets two live coins (Runs.UniqueRunIff). |
| Nodes.Take | src/node/Node.cpp:63-91 | One step of such a series; after a flush the view below stands for the same state. |
| Nodes.FlushCache | src/libmw/libmw_node.cpp:90-98 | Flushing and committing leaves the view as it is, and the view below stands for the same state: over another cache always, over the database while no commitment had two live coins. |
| Nodes.StepSizes | src/node/Node.cpp:63-91 | A step adds at most the kernels and outputs of its block. |
| Nodes.HasNoDuplicates | src/models/tx/TxBody.cpp:121-131 | The check on duplicate inputs: true exactly for distinct commitments. |
| CoinsViews.CoinsViewCache.constructor | include/mw/node/CoinsView.h:125-131 | A new cache stands for the same state as the view below it, which stays as it is. |
| CoinsViews.CoinsViewCache.GetUTXOs | src/node/CoinsViewCache.cpp:11-26 | Returns the commitment's stack in the flat state: what replaying the actions over the view below gives, without ever popping an empty list. |
| CoinsViews.CoinsViewCache.AddUTXO | src/node/CoinsViewCache.cpp:165-173 | Refines adding one output to the flat state. |
| CoinsViews.CoinsViewCache.SpendUTXO | src/node/CoinsViewCache.cpp:175-186 | Refines spending one coin; on failure nothing changes. |
| CoinsViews.CoinsViewCache.ApplyBlock | src/node/CoinsViewCache.cpp:28-64 | Refines applying a block to the flat state: same result, same errors, same undo data. When it succeeds, the five comparisons of the header hold at the end. |
| CoinsViews.CoinsViewCache.UndoBlock | src/node/CoinsViewCache.cpp:66-96 | Refines undoing a block on the flat state. |
| CoinsViews.CoinsViewCache.BuildNextBlock | src/node/CoinsViewCache.cpp:98-148 | Refines building a block on the flat state: same error, same final state. The header has the given height and the roots and numbers of the kernels, the outputs and the leaf set at the end, which are those before with the block's added. |
| CoinsViews.CoinsViewCache.ValidateMMRs | src/node/ICoinsView.cpp:7-21 | True exactly when the header has the root and the number of the kernels, the root and the number of the outputs, and the root of the leaf set, read through the layers. |
| Chain.MatchesIff | src/node/ICoinsView.cpp:7-21 | The five comparisons that the theorems about headers stand on. |
| CoinsViews.CoinsViewCache.RemoveCoins | src/node/CoinsViewCache.cpp:70-72 | Pops one coin per added commitment. |
| CoinsViews.CoinsViewCache.RestoreCoins | src/node/CoinsViewCache.cpp:74-78 | Pushes the spent coins back and collects their leaves. |
| CoinsViews.CoinsViewCache.RewindTo | src/node/CoinsViewCache.cpp:89-91 | Rewinds the leaf set and both MMRs. |
| CoinsViews.CoinsViewCache.WriteBatch | src/node/CoinsViewCache.cpp:188-202 | Takes over a child's actions: every stack becomes the replay of the actions over the stack before. |
| CoinsViews.CoinsViewCache.Flush | src/node/CoinsViewCache.cpp:204-233 | With a best header, the view below holds the cache's leaf set, MMRs, header and, if it is a cache, stacks, and over a cache the cache reads what it read before; over the database the batch holds the coin writes. Without a header nothing is written. |
| CoinsViews.CoinsViewCache.FlushParts | src/node/CoinsViewCache.cpp:223-225 | Flushing the leaf set and the two MMRs gives the view below their content and keeps what the cache reads. |
| CoinsViews.CoinsViewCache.FlushAndCommit | src/node/CoinsViewCache.cpp:204-233 | Flushing to the database and committing the batch: every stack is what one coin per commitment can keep, and it is the right stack exactly when one coin is left after a push or none after a spend: all of them, while no commitment has had two live coins. |
| CoinsViews.CoinsViewDB.WriteBatch | src/node/CoinsViewDB.cpp:57-73 | The batch ends with the last action of every commitment; a spend finds a coin to spend. |
| CoinsViews.ICoinsView.GetUTXOs | include/mw/node/CoinsView.h:100 | The same stacks through either implementation. |
| CoinsViews.ICoinsView.WriteBatch | include/mw/node/CoinsView.h:101-105 | Taking a batch of actions through either implementation. |
| CoinUpdates.ReplayConcat | src/node/CoinsViewCache.cpp:192-201 | Replaying two lists of actions one after the other is replaying them as one: what makes stacked caches compose. |
| CoinUpdates.DBTransaction.Put | src/db/common/DBTransaction.h:26-40 | Records the write and remembers the added coin. |
| CoinUpdates.DBTransaction.Delete | src/db/common/DBTransaction.h:67-71 | Records the erasure and forgets the last added coin. |
| CoinUpdates.DBTransaction.WriteActions | src/node/CoinsViewDB.cpp:63-72 | For any replayable list of actions on one commitment no spend is refused, and the last action decides what is written. |
| CoinUpdates.FlushFaithfulIff | src/node/CoinsViewDB.cpp:30-55 | A commit to the database keeps a stack if and only if one coin is left after a last push, or none after a last spend. |
| CoinUpdates.FlushFaithful | src/node/CoinsViewDB.cpp:30-55 | With at most one live coin per commitment at all times, committing is faithful. |
| CoinUpdates.OnceCommitted | src/node/CoinsViewDB.cpp:57-73 | While no commitment has had two live coins, committing the pending updates keeps every stack. |
| CoinUpdates.OnceOver | src/node/CoinsViewCache.cpp:188-202 | A cache flushed into a view below, both of that kind, leaves a view of that kind: its pending updates can be committed without loss. |
| CoinUpdates.TwoCoinsAreLost | src/node/CoinsViewDB.cpp:38-55 | A second coin under the same commitment is lost, and spending it then loses the first one too. |
| CoinUpdates.CommittedCoins | src/node/CoinsViewDB.cpp:57-73 | The same over all commitments of a batch. |
| Builders.BlockBuilder.AddTransaction | src/node/BlockBuilder.cpp:11-89 | Adds, refuses or throws exactly as the weight cap, the peg-ins, the transaction's validity and the chain decide; what it holds then has the inputs, the outputs and the kernels of all transactions added so far, each as often as they have them, and no others. |
| Builders.BlockBuilder.BuildBlock | src/node/BlockBuilder.cpp:91-101 | The block has the inputs, the outputs and the kernels of all transactions added, and a header with the roots and numbers they lead to; on a consistent chain it is built exactly when they together spend no commitment more often than it has coins, and is then accepted by ApplyBlock. |
| Builders.DecideIff | src/node/BlockBuilder.cpp:11-72 | When a transaction is added and when validation throws, in plain terms: weights 2, 1 and 18 up to 21000, the peg-ins, the inputs on chain and the outputs not. |
| Builders.SumAdds | include/mw/consensus/Aggregation.h:28-52 | What the sums over the added transactions are: none for no transaction, the elements of a single one, and additive. |
| Builders.AmountAdds | src/node/BlockBuilder.cpp:21-24 | The amount of peg-ins is the sum modulo 2^64. |
| Builders.CheckPegIns | src/node/BlockBuilder.cpp:20-53 | True exactly when totals modulo 2^64 and counts agree, no expected commitment repeats and every commitment is expected. |
| Builders.MatchingPegIns | src/node/BlockBuilder.cpp:41-53 | Peg-ins that match and do not repeat a commitment are for exactly the expected commitments. |
| Builders.CheckChain | src/node/BlockBuilder.cpp:58-72 | True exactly when every input has a coin and no output's commitment has one. |
| Builders.CollectsMore | src/node/BlockBuilder.cpp:74-88 | The builder's invariant is kept when a transaction is added. |
| Positions.NodeAtPos | include/mw/mmr/Index.h:37-46 | Post-order numbering: walking the nodes one by one, a right child is followed by its parent and any other node by the next leaf, the position of a node leads back to the node. |
| Positions.PosOfNodeAt | include/mw/mmr/Index.h:37-46 | The node found at a position has that position. |
| Positions.FirstNodes | src/mmr/Index.cpp:60-75 | The first seven nodes, written out. |
| Positions.NodePosInjective | include/mw/mmr/Index.h:37-46 | No two nodes have the same position. |
| Positions.LeafPosStep | include/mw/mmr/LeafIndex.h:22-25 | After leaf n come as many parents as n + 1 has trailing zeros, then the next leaf. |
| Positions.InRangeIffBelow | src/mmr/IMMR.cpp:5-28 | A node exists in an MMR of n leaves exactly when its position is below 2n - popcount(n). |
| Indices.At | src/mmr/Index.cpp:6-9 | The index at a position has the height of the node there, except at the last 64-bit position. |
| Indices.CalculateHeight | src/mmr/Index.cpp:60-75 | Is the height of the node at that position in the infinite MMR, for every 64-bit position but the last, 2^64 - 1, for which the position itself comes back. |
| Indices.CalculateLeafIndex | src/mmr/Index.cpp:77-94 | Inverts 2n - popcount(n) on all leaf positions but the last one, 2^64 - 1, where the code returns 0. |
| Indices.GetLeafIndex | src/mmr/Index.cpp:11-16 | The number of the leaf at an index, and 0 at the position 2^64 - 1. |
| Indices.LeafIndexAt | include/mw/mmr/LeafIndex.h:22-25 | Leaf n has position 2n - popcount(n) modulo 2^64, which is its own position exactly up to n = 2^63, and height 0. |
| Indices.GetParent | src/mmr/Index.cpp:18-30 | Position and height of the parent, modulo 2^64: the parent itself exactly when its position fits in 64 bits, as it does below 2^62. |
| Indices.GetSibling | src/mmr/Index.cpp:32-44 | Position and height of the sibling, modulo 2^64: the sibling itself exactly when its position fits in 64 bits. |
| Indices.Family | src/mmr/Index.cpp:18-58 | As the four functions compute them: the sibling's sibling is the node, both have the same parent, and they are its left and its right child. |
| Indices.FamilyFits | src/mmr/Index.cpp:18-44 | Below position 2^62 parents and siblings fit in 64 bits. |
| Indices.Index.GetLeftChild | src/mmr/Index.cpp:46-51 | Is the left child in the tree. |
| Indices.Index.GetRightChild | src/mmr/Index.cpp:53-58 | Is the right child in the tree. |
| Indices.SiblingInvolution | src/mmr/Index.cpp:32-44 | The same for coordinates in the infinite tree. |
| Positions.ParentOfChildren | src/mmr/Index.cpp:18-58 | In the infinite tree, both children of an inner node have it as their parent and are each other's sibling. |
| Indices.FamilyPositions | src/mmr/Index.cpp:18-44 | Positions of parent and sibling relative to the node, by which child it is. |
| Bits.FillOnesToRight | include/mw/util/BitUtil.h:12-22 | All ones up to the highest set bit, for every 64-bit word. |
| Bits.CountBitsSet | include/mw/util/BitUtil.h:27-38 | Is the number of set bits. |
| Bits.CountRightmostZeros | include/mw/util/BitUtil.h:40-51 | Is the number of trailing zeros. |
| Mmr.FindPeaks | src/mmr/IMMR.cpp:12-28 | The greedy loop ends with nothing left and has found the positions of the peaks, from left to right. |
| Merkle.PeakIff | src/mmr/IMMR.cpp:12-28 | The peaks are exactly the nodes that exist and whose parent does not. |
| Merkle.PeaksAtAnyLevel | src/mmr/IMMR.cpp:12-28 | The peaks are those of the binary expansion of the number of leaves, from whatever power of two it is read. |
| Mmr.IMMR.Root | src/mmr/IMMR.cpp:5-41 | On any stack of caches, the root is that of the list of leaves: it does not depend on the layers. |
| Merkle.RootBinding | src/mmr/IMMR.cpp:30-41 | With collision-free hashes, equal roots have equal leaves, and so equal counts. |
| Merkle.SameCountBinding | src/mmr/IMMR.cpp:30-41 | The case of equal counts, by which roots and sizes in a header determine the leaves. |
| Merkle.NodeHashBinding | include/mw/mmr/Node.h:22-29 | Equal hashes of a node cover equal leaves. |
| Merkle.BagInjective | src/mmr/IMMR.cpp:30-41 | Bagging loses nothing: equal bags of as many peaks have equal peaks. |
| Merkle.Bagged | src/mmr/IMMR.cpp:30-42 | The bagging loop as a list of hashes: each peak on the left of what has been bagged, at the position after the range, the last peak as it is. |
| Merkle.SmallRoots | src/mmr/IMMR.cpp:5-42 | The roots of one, two and three leaves, written out. |
| Merkle.EmptyRoot | src/mmr/IMMR.cpp:30-41 | The root of no leaves is the zero hash. |
| Merkle.NodeHashPrefix | src/mmr/MMRCache.cpp:61-85 | A node's hash depends only on the leaves below it. |
| Merkle.HashAtPrefix | src/mmr/MMRCache.cpp:50-59 | The hashes of the first n leaves' nodes stay when leaves are added or dropped after them. |
| Mmr.MMRCache.AddLeaf | src/mmr/MMRCache.cpp:5-25 | Appends the leaf to the content; every stored node is the specified hash at its position. |
| Mmr.MMRCache.AddNodes | src/mmr/MMRCache.cpp:10-21 | The parent loop adds exactly the leaf's node and the parents it completes, each with the specified hash. |
| Mmr.MMRCache.GetHashCorrect | src/mmr/MMRCache.cpp:50-59 | What a cache reads at any position, through any number of layers, is the specified hash of its content. |
| Mmr.MMRCache.GetLeaf | src/mmr/MMRCache.cpp:27-39 | Reads the leaf with that number. |
| Mmr.MMRCache.GetNextLeafIdx | src/mmr/MMRCache.cpp:41-48 | Is the number of leaves of the content. |
| Mmr.MMRCache.Rewind | src/mmr/MMRCache.cpp:61-85 | Keeps the first min(n, count) leaves. |
| Mmr.MMRCache.BatchWrite | src/mmr/MMRCache.cpp:87-98 | The content becomes its first leaves and then the given ones. |
| Mmr.MMRCache.Flush | src/mmr/MMRCache.cpp:100-111 | The layer below gets the content, and the cache, now empty, still reads the same. |
| Mmr.MMRCache.constructor | include/mw/mmr/MMR.h:134-135 | A new cache has the content of the layer below. |
| Mmr.IMMR.BatchWrite | src/mmr/MMRCache.cpp:108 | Writing a batch through either kind of layer. |
| Mmr.MMR.AddLeaf | src/mmr/MMR.cpp:5-10 | Appends the leaf at the bottom of the stack. |
| Mmr.MMR.GetNumNodes | src/mmr/MMR.cpp:17-26 | 2n - popcount(n), which is the number of hashes stored. |
| Mmr.MMR.Rewind | src/mmr/MMR.cpp:28-32 | Keeps the first n leaves; fails for more than there are. |
| Mmr.MMR.BatchWrite | src/mmr/MMR.cpp:34-48 | Rewinds, appends and commits: content and database hold the leaves. |
| Backend.FileBackend.AddLeaf | src/mmr/backends/FileBackend.cpp:33-49 | Stores the leaf and every hash it completes, each as specified. |
| Backend.FileBackend.Rewind | src/mmr/backends/FileBackend.cpp:56-64 | Keeps the leaves and hashes of the first n leaves. |
| Backend.FileBackend.GetNumLeaves | src/mmr/backends/FileBackend.cpp:86-94 | The number of leaves is recovered from the number of hashes. |
| Backend.FileBackend.GetLeaf | src/mmr/backends/FileBackend.cpp:106-120 | Reads pending leaves and committed ones alike. |
| Backend.FileBackend.Commit | src/mmr/backends/FileBackend.cpp:122-132 | The database then holds all leaves, and the content is the same. |
| Backend.WalkUp | src/mmr/MMRCache.cpp:14-21 | One round of the parent loop: the next position is the parent, with the last hash on its right and a hash already stored on its left. |
| BitSets.Rank | include/mw/common/BitSet.h:64-78 | Counts the set bits strictly below the index; the comment in the source says up to it. |
| Factory.SiblingIter.Next | include/mw/mmr/MMRUtil.h:21-32 | Walks over all nodes of a height from left to right. |
| Factory.CalcPrunedParents | include/mw/mmr/MMRUtil.h:110-145 | Sets exactly the positions of the largest subtrees without an unspent leaf. |
| Factory.CalcHashes | src/mmr/MMRFactory.cpp:46-92 | Given the hashes of those subtrees and the unspent leaves of a range with as many leaves as the bit set has bits, the result holds, in order of position, the true hash of every node that can be rebuilt, and nothing at or beyond the size of the MMR. |
| Factory.KeptCases | src/mmr/MMRFactory.cpp:62-86 | The nodes that can be rebuilt: an unspent leaf, a pruned parent, or both children can be. |
| Factory.KeptNodes | src/mmr/MMRFactory.cpp:46-92 | Rebuilt nodes lie within the MMR, and all peaks are among them, so the root can be computed. |
| Factory.BuildCompactBitSet | include/mw/mmr/MMRUtil.h:49-86 | Sets exactly the nodes that have a parent without an unspent leaf. |
| Factory.RankComplement | src/mmr/PruneList.cpp:24-29 | Kept nodes and compacted nodes below a position add up to the position: what shifts positions into the pruned file. |
| Factory.RebuiltReads | src/mmr/backends/FileBackend.cpp:96-104 | Reading the rebuilt file at a position minus its shift gives the true hash of every kept node, peaks included. |
| BitSets.From | include/mw/common/BitSet.h:17-30 | Eight bits for every byte, from its highest bit. |
| BitSets.BitsAreMasked | include/mw/common/BitSet.h:22-26 | The j-th bit of a byte is the one under the mask 0x80 shifted right by j. |
| BitSets.ToBytes | include/mw/common/BitSet.h:36-50 | Reading the bytes back gives the bits followed by as many zeros as the last byte has left over: no zeros exactly for a multiple of eight bits. |
| BitSets.ZerosChangeNothing | src/mmr/PruneList.cpp:6-29 | A prune list that is written and opened again gives the same shifts. |
| Factory.LookupParentHashes | src/node/Snapshot.cpp:56-63 | The hashes sent with a state are those that CalcHashes asks for, when it is given the bit set that was sent. |
| Factory.AppendedAsksPast | src/mmr/MMRFactory.cpp:62-70 | With any number of zero bits appended, some topmost subtree without an unspent leaf lies past the end of the range, and CalcHashes asks for its hash. |
| Factory.AppendedIff | include/mw/mmr/MMRUtil.h:110-145 | For every bit set with zeros appended: all the positions that CalcPrunedParents sets belong to nodes of the range if and only if nothing was appended. |
| Factory.ReadBackIff | include/mw/common/BitSet.h:91-96 | After a round trip through bytes CalcHashes asks for hashes of the range only, and has the bit set that was sent, if and only if the number of leaves is a multiple of eight. |
| Factory.OneUnspentAsks | include/mw/mmr/MMRUtil.h:110-145 | With only the first of 2^k leaves unspent, the positions set are those of the k nodes to the right of its ancestors. |
| Factory.OneLeafReadBack | include/mw/common/BitSet.h:17-30 | An input: one unspent leaf. No hash is sent, and once the bit set is read back hashes are asked for at the positions 1, 5 and 13 of a range of one node. |
| Compaction.DiffCompactBitSet | include/mw/mmr/MMRUtil.h:88-102 | The new bits, each at its position less the number of compacted positions before it. |
| Compaction.Compact | src/mmr/backends/FileBackend.cpp:66-84 | The hashes that are not removed, in order; throws if and only if one of them lies past the end of the file. |
| Compaction.ShiftsAdd | include/mw/mmr/MMRUtil.h:88-102 | The old shift of a position and the shift of where it went, by the difference, add up to the new shift. |
| Compaction.CompactAgain | src/mmr/backends/FileBackend.cpp:66-84 | Compacting a file again by the difference leaves every kept hash readable, at its position less the new shift. |
| Compaction.CompactAgainIff | src/mmr/backends/FileBackend.cpp:74-80 | That does not throw if and only if the new bits are set at every position past the last hash. |
| Compaction.CompactedStays | include/mw/mmr/MMRUtil.h:88-98 | When leaves are added and spent, what BuildCompactBitSet set before is set again: the assertion in DiffCompactBitSet holds. |
| Compaction.BuiltBitsPastEnd | include/mw/mmr/MMRUtil.h:49-52 | The bits of BuildCompactBitSet reach past the last hash, and are not set there, for every range that is not empty: compacting by all of them throws. |
| Compaction.CompactBuilt | src/mmr/backends/FileBackend.cpp:66-84 | Compacting by as many of them as there are nodes works, and every kept hash is read at its position less the shift. |
| Compaction.RebuiltIsRead | src/mmr/MMRFactory.cpp:46-92 | The file of hashes that CalcHashes rebuilds is one compacted by the bits of BuildCompactBitSet. |
| LeafSets.ILeafSet.Add | src/mmr/ILeafSet.cpp:6-15 | On any layer, adds one leaf to the set and moves the bound past it if need be. |
| LeafSets.ILeafSet.Remove | src/mmr/ILeafSet.cpp:17-22 | Removes one leaf; the bound stays. |
| LeafSets.ILeafSet.Contains | src/mmr/ILeafSet.cpp:24-27 | Is membership in the set. |
| LeafSets.ILeafSet.Root | src/mmr/ILeafSet.cpp:29-40 | Is determined by set and bound, whatever the layers; commits to the whole set if and only if the bound plus seven fits in 64 bits, and else hashes no bytes at all. |
| LeafSets.ILeafSet.Rewind | src/mmr/ILeafSet.cpp:42-53 | Leaves exactly the old and added leaves below n, with bound n: no bit at or above it. |
| LeafSets.ILeafSet.ToBitSet | src/mmr/ILeafSet.cpp:62-76 | The set as bits, one per leaf below the bound. |
| LeafSets.SetBitCorrect | src/mmr/ILeafSet.cpp:8-9 | Sets one bit of the byte and no other. |
| LeafSets.ClearBitCorrect | src/mmr/ILeafSet.cpp:19-20 | Clears one bit of the byte and no other. |
| LeafSets.TestBit | src/mmr/ILeafSet.cpp:26 | Tests that bit. |
| LeafSets.LeafsetRootBinding | src/mmr/ILeafSet.cpp:29-40 | Below one bound, equal roots have equal sets. |
| LeafSets.RootBytesAre | src/mmr/ILeafSet.cpp:29-40 | The bytes the root hashes: one for eight leaves, the first one with the weight 128 and the last one with 1. |
| LeafSets.KnownMasks | src/mmr/ILeafSet.cpp:57-62 | The eight masks, written out. |
| LeafSets.LeafsetRootIgnoresBound | src/mmr/ILeafSet.cpp:31 | The root does not commit to the bound, only to the number of bytes the code takes for it: for any set, two bounds give the same root if and only if these numbers, computed in 64 bits, are equal. The header commits to the bound itself. |
| LeafSets.LeafSetCache.constructor | include/mw/mmr/LeafSet.h:83-84 | A new cache has the bytes and the bound of the layer below. |
| LeafSets.LeafSetCache.ApplyUpdates | src/mmr/LeafSetCache.cpp:6-16 | Takes over any child's bytes and bound. |
| LeafSets.LeafSetCache.Flush | src/mmr/LeafSetCache.cpp:18-22 | The layer below gets bytes and bound; the cache still reads the same. |
| LeafSets.LeafSetCache.GetByte | src/mmr/LeafSetCache.cpp:24-33 | Reads the byte of the content through the overlay. |
| LeafSets.LeafSetCache.SetByte | src/mmr/LeafSetCache.cpp:35-38 | Changes one byte of the content. |
| LeafSets.LeafSetCache.Rewind | src/mmr/ILeafSet.cpp:42-53 | The same as for any leaf set, on a cache. |
| LeafSets.LeafSet.Open | src/mmr/LeafSet.cpp:6-24 | Reads set and bound back from any file, or starts empty; no bit is at or above the bound exactly when that holds of the file. |
| LeafSets.LeafSet.ApplyUpdates | src/mmr/LeafSet.cpp:31-48 | For any updates, the set is then that of the updated bytes without what lies between the new and the old bound, and the file holds it with the new bound; with no bit of the updates at or above the new bound nothing is lost. |
| LeafSets.ILeafSet.ApplyUpdates | include/mw/mmr/LeafSet.h:60-64 | Taking updates through either kind of layer. |
| LeafSets.LeafSet.Flush | src/mmr/LeafSet.cpp:50-73 | The file then holds the bound in its first eight bytes and the set after them. |
| LeafSets.LeafSet.SetByte | src/mmr/LeafSet.cpp:93-96 | Changes one byte of the content. |
| LeafSets.WriteBytes | src/file/File.cpp:167-177 | Writes the given bytes and no others. |
| LeafSets.FlushThenOpen | src/mmr/LeafSet.cpp:6-73 | A leaf set flushed and opened again from its file has the same bytes and the same bound. |
| ByteStrings.BigEndianRoundTrip | src/mmr/LeafSet.cpp:54-61 | The bound survives its eight bytes. |
| ByteStrings.BigEndianAt | deps/litecoin/crypto/common.h:76-80 | The byte at an index is the digit of the matching power of 256, the highest first. |
| Arenas.AlignUpIs | deps/litecoin/support/lockedpool.cpp:34-37 | The next multiple of the alignment, or 0 when the sum wraps around. |
| Arenas.Arena.constructor | deps/litecoin/support/lockedpool.cpp:42-49 | One free chunk covers the arena. |
| Arenas.Arena.Alloc | deps/litecoin/support/lockedpool.cpp:55-88 | Returns null exactly when the aligned size is 0 or no free chunk is large enough; otherwise the end of a smallest chunk that is. Keeps the invariant: chunks tile the arena, the three indices of free chunks and the map of used ones describe the same chunks, no two free chunks are adjacent. The address lies a multiple of the alignment before the end of the arena, so it is aligned if and only if the end is. |
| Arenas.Arena.Free | deps/litecoin/support/lockedpool.cpp:90-126 | Throws exactly for a pointer that is not in use; otherwise frees the chunk, joined with its free neighbours, and keeps the invariant. |
| Arenas.Arena.GetStats | deps/litecoin/support/lockedpool.cpp:128-137 | Used and free bytes are those of the tiling, and their sum is the arena's size. |
| Arenas.Arena.AllGivenBack | deps/litecoin/support/lockedpool.cpp:90-126 | When nothing is used, all four maps are as the constructor left them. |
| Arenas.FreeUndoesAlloc | deps/litecoin/support/lockedpool.cpp:55-126 | Freeing what was just allocated gives back the tiling before. |
| Arenas.TilesCover | deps/litecoin/support/lockedpool.cpp:39-49 | Every address of the arena is in exactly one chunk. |
| Arenas.NothingUsed | deps/litecoin/support/lockedpool.cpp:105-120 | A tiling without used chunks and without adjacent free ones is a single chunk. |
| BitStreams.BitStreamWriter.Write | deps/litecoin/streams.h:567-581 | Appends the low bits of the data, most significant first; out of range is refused. |
| BitStreams.BitStreamWriter.Flush | deps/litecoin/streams.h:587-595 | Pads with zeros to a whole byte; the output is then all bits written. |
| BitStreams.BitStreamReader.Read | deps/litecoin/streams.h:519-538 | Returns the next bits as a number and moves past them; fails exactly when out of range or past the end. |
| BitStreams.WriteAll | deps/litecoin/streams.h:541-596 | A list of numbers takes ceil(total bits / 8) bytes, padded with zeros. |
| BitStreams.ToBitsAre | deps/litecoin/streams.h:564-582 | The bits of a number, from the highest: bit i is the one of the power n - 1 - i of two. |
| BitStreams.WriteThenRead | deps/litecoin/streams.h:498-596 | Every list of numbers written with widths from 0 to 64 and read with the same widths comes back modulo those widths. |
| BufferedFiles.CBufferedFile.Fill | deps/litecoin/streams.h:730-745 | The buffer holds the last bytes of the source, each in its slot; never without progress. |
| BufferedFiles.CBufferedFile.Read | deps/litecoin/streams.h:780-800 | Delivers the source's bytes from the reading position on, whatever the source gives at a time; says exactly when it throws and what was then delivered; ends. |
| BufferedFiles.CBufferedFile.SetPos | deps/litecoin/streams.h:807-818 | True exactly when the position asked for is reached; the state stays valid except for targets that wrap around. |
| BufferedFiles.CBufferedFile.FindByte | deps/litecoin/streams.h:849-857 | Stops at the first such byte, or throws when there is none before the source ends; ends. |
| BufferedFiles.CBufferedFile.SetLimit | deps/litecoin/streams.h:834-839 | Sets the limit unless it lies behind the reading position. |
| BufferedFiles.LandsInWindowIff | deps/litecoin/streams.h:807-818 | SetPos lands between the start of the window and the end of what was read, if and only if adding the rewind does not wrap in the one way described. |
| BufferedFiles.GoesBackIff | deps/litecoin/streams.h:807-818 | How far one can go back: the documented number of bytes, less what was read ahead; beyond that SetPos moves forward. |
| BufferedFiles.GoesForward | deps/litecoin/streams.h:807-818 | A run: with a buffer of 15 bytes and five to go back, one byte is read from a file that delivers ten at once; going back by that byte fails and ends at position 5. |
| BufferedFiles.Perform | deps/litecoin/streams.h:780-857 | Over every run of reads, repositionings and searches, all that is delivered is what the file has at that position. |
| FixedPoint.ParseFixedPoint | deps/litecoin/util/strencodings.cpp:457-547 | Text that is not a JSON number is refused; a number is accepted exactly when its value times 10^decimals is an integer of magnitude at most 10^18 - 1 (for zero: when the exponent without the fraction is from 0 to 17), and that integer is returned. No 64-bit overflow on the way. |
| FixedPoint.PrintThenParse | deps/litecoin/util/strencodings.cpp:457-547 | Every decimal text, with any sign, fraction and exponent, printed digit by digit, parses to its value times 10^decimals, exactly when that is an integer below 10^18; for zero, exactly when exponent plus decimals is from 0 to 17. |
| FixedPoint.Malformed | deps/litecoin/util/strencodings.cpp:457-524 | Text that starts otherwise than with a digit or a minus sign, ends otherwise than with a digit, or has a digit after a leading zero is refused. |
| FixedPoint.ExactIff | deps/litecoin/util/strencodings.cpp:520-525 | A number is accepted exactly when its scaled value is such an integer, if and only if it is not zero or its own exponent with the decimals is from 0 to 17. |
| FixedPoint.ZeroRefused | deps/litecoin/util/strencodings.cpp:524-525 | Zero written as 0e30 is refused. |
| FixedPoint.ProcessMantissaDigit | deps/litecoin/util/strencodings.cpp:441-455 | Refuses a digit exactly when the number up to it, ending in a digit that is not zero, has more than 18 digits. |
| FixedPoint.ReadNumber | deps/litecoin/util/strencodings.cpp:467-525 | Reads exactly the numbers of the syntax, or stops at one whose digits or exponent are too long. |
| FixedPoint.TooLongRefused | deps/litecoin/util/strencodings.cpp:481-484 | No number refused while reading would have been accepted. |
| FixedPoint.FitsIff | deps/litecoin/util/strencodings.cpp:515-542 | What the finishing half decides is whether the scaled value is such an integer. |
| FixedPoint.ParsedIsValid | deps/litecoin/util/strencodings.cpp:467-514 | What is read as a number is one of section 6 of RFC 8259, and is spelled as that text. |
| FixedPoint.ValidIsParsed | deps/litecoin/util/strencodings.cpp:467-514 | Every number of that syntax is read. |
| FixedPoint.RepresentsIff | deps/litecoin/util/strencodings.cpp:520-521 | A number scaled is an integer exactly when the scale covers the digits after its last digit that is not zero. |
| BaseTexts.ConvertBits | deps/litecoin/util/strencodings.h:177-199 | Regroups the bits: padded with zeros, or cut off, and then false exactly when what is cut off is not zero or is as long as a word of the input. |
| BaseTexts.Encode | deps/litecoin/util/strencodings.cpp:128-137 | Is the encoding of sections 4 and 6 of RFC 4648: characters of the alphabets, given as literals, that spell the bits of the bytes, = up to whole groups, and the length that follows. |
| BaseTexts.Decode | deps/litecoin/util/strencodings.cpp:144-189 | Text up to its first NUL is reported valid exactly when it spells some bytes in the alphabet, for Base32 in either case, and then those are returned. |
| BaseTexts.EncodeThenDecode | deps/litecoin/util/strencodings.cpp:128-258 | Every list of bytes is decoded from its encoding. |
| BaseTexts.DigitsAre | deps/litecoin/util/strencodings.cpp:130-214 | What is written and read for every digit is the character at its place in the alphabets of RFC 4648, for Base32 in lower case, and read in either case. |
| BaseTexts.SpelledIff | deps/litecoin/util/strencodings.cpp:128-255 | The encodings of the two methods are the texts that spell the bits of the bytes, six or five a character, with = up to a multiple of four or eight. |
| BaseTexts.JoinAt | deps/litecoin/util/strencodings.h:169-200 | A list of words as bits: bit i is in the word i / n at the place i % n from its highest bit. |
| BaseTexts.DigitsInverse | deps/litecoin/util/strencodings.cpp:146-162 | Alphabet and decoding table are inverse to each other; = has no value. |
| BaseTexts.JoinInjective | deps/litecoin/util/strencodings.h:183-190 | Different lists of words have different bits. |
| Ecdsa.SigSign | deps/secp256k1-zkp/src/ecdsa_impl.h:271-309 | The signature with the smaller s: the nonce times s, or times its opposite where recid says so, is the message plus r d; fails exactly for s = 0. |
| Ecdsa.SigVerify | deps/secp256k1-zkp/src/ecdsa_impl.h:201-269 | True exactly when r and s are not 0 and some finite multiple of the generator, which s takes to the message plus r d, has the x-coordinate r or r plus the order. |
| Ecdsa.PointIff | deps/secp256k1-zkp/src/ecdsa_impl.h:214-219 | The point that is recomputed is the only multiple of the generator that s takes to the message plus r d. |
| Ecdsa.SignThenVerify | deps/secp256k1-zkp/src/ecdsa_impl.h:201-309 | Every signature made with success is accepted, unless r is 0; the point recomputed is the nonce's or its opposite, with the parity and the x-coordinate that recid says. |
| Ecdsa.RawSIsVerified | deps/secp256k1-zkp/src/ecdsa_impl.h:212-216 | From s the nonce is recovered, and from its opposite the nonce's opposite. |
| Ecdsa.TwoCases | deps/secp256k1-zkp/src/ecdsa_impl.h:244-252 | An x-coordinate is r modulo the order in two cases only. |
| Ecdsa.EqXIff | deps/secp256k1-zkp/src/group_impl.h:252-258 | Comparing without inverting z is comparing the affine x-coordinate. |
| Ecdsa.InverseIs | deps/secp256k1-zkp/src/ecdsa_impl.h:212 | For a prime order every scalar but 0 has an inverse. |
| Der.ReadLen | deps/secp256k1-zkp/src/ecdsa_impl.h:49-97 | Accepts exactly the shortest definite lengths that fit. |
| Der.LenCanonical | deps/secp256k1-zkp/src/ecdsa_impl.h:73-95 | A length is accepted in one encoding only. |
| Der.ParseInteger | deps/secp256k1-zkp/src/ecdsa_impl.h:99-143 | Accepts exactly the shortest encodings of integers that fit; negative ones and those not below the order overflow to 0. |
| Der.IntCanonical | deps/secp256k1-zkp/src/ecdsa_impl.h:112-119 | An integer that is not negative is accepted in one encoding only. |
| Der.SigParse | deps/secp256k1-zkp/src/ecdsa_impl.h:145-175 | Accepts exactly a sequence of two such integers and nothing else. |
| Der.SigSerialize | deps/secp256k1-zkp/src/ecdsa_impl.h:177-199 | Writes the encoding, or says how much room it needs. |
| Der.SerializedIs | deps/secp256k1-zkp/src/ecdsa_impl.h:177-200 | The encoding octet by octet: tags, sizes, and the fewest octets whose first bit is zero. |
| Der.KnownEncodings | deps/secp256k1-zkp/src/ecdsa_impl.h:49-200 | Lengths and signatures of small numbers, written out. |
| Der.CanonicalIff | deps/secp256k1-zkp/src/ecdsa_impl.h:145-199 | An input is accepted as (r, s), neither overflowed, if and only if it is the encoding of (r, s). |
| Der.LaxParse | deps/secp256k1-zkp/contrib/lax_der_parsing.c:12-149 | Accepts exactly two tagged integers that fit, after any sequence header; both values if below the order, else zeros. |
| Der.LaxFromParts | deps/secp256k1-zkp/contrib/lax_der_parsing.c:12-148 | Every sequence tag with any length octets, two tagged integers with any length octets and anything after them is accepted, and these are the octets of r and s. |
| Der.LaxHasParts | deps/secp256k1-zkp/contrib/lax_der_parsing.c:12-148 | What is accepted has this form. |
| Der.BothParsers | deps/secp256k1-zkp/contrib/lax_der_parsing.c:12-149 | What the strict parser accepts the lax one accepts, with the same scalars when none overflowed. |
| Der.WriteThenRead | deps/secp256k1-zkp/src/ecdsa_impl.h:145-199 | Every signature written is read back by both parsers. |
| Der.ParseCompact | deps/secp256k1-zkp/src/secp256k1.c:260-279 | Both scalars, or zeros when one is not below the order. |
| Hashing.CSHA256.Write | deps/litecoin/crypto/sha256.cpp:648-672 | The state and the buffer are those of all the data so far, however it was split. |
| Hashing.CSHA256.Finalize | deps/litecoin/crypto/sha256.cpp:674-689 | Hashes the data with the padding of section 5.1.1 of FIPS 180-4. |
| Hashing.Sha256Pieces | deps/litecoin/crypto/sha256.cpp:648-689 | The hash of any pieces is that of their concatenation. |
| Hashing.Sha256Is | deps/litecoin/crypto/sha256.cpp:674-689 | The hash spelled out: the message, 0x80, the fewest zeros, the number of bits in eight bytes, and the chain of states over the blocks. |
| Hashing.Blake2b.Update | deps/crypto/src/Blake2b.cpp:221-246 | Compresses all blocks but the last, which stays in the buffer; the counter of two words carries. |
| Hashing.Blake2b.Final | deps/crypto/src/Blake2b.cpp:248-270 | Compresses the last block, padded, with the length and the last-block flag of section 3.3 of RFC 7693; a second call fails. |
| Hashing.Blake2bPieces | deps/crypto/src/Blake2b.cpp:221-270 | The hash of any pieces is that of their concatenation. |
| Hashing.Blake2bIs | deps/crypto/src/Blake2b.cpp:221-270 | The hash spelled out: the chain of states over all blocks but the last with their counters, and the last one padded with its flag. |
| Hashing.Blake2bHash | deps/crypto/src/Blake2b.cpp:273-300 | A key is a block of its own before the data; too long a key is refused. |
| Hashing.CounterStep | deps/crypto/src/Blake2b.cpp:66-70 | Two words with a carry count modulo 2^128. |
| Serialize.VarIntBijection | deps/litecoin/serialize.h:319-333 | Every number has one encoding, and every list of bytes of the form is one. |
| Serialize.VarFormula | deps/litecoin/serialize.h:312-319 | The documented sum: the last digit, and 128^i times one more than the i-th digit before it. |
| Serialize.KnownEncodings | deps/litecoin/serialize.h:328-333 | The documented examples. |
| Serialize.PrefixFree | deps/litecoin/serialize.h:325-326 | No encoding begins another. |
| Serialize.WriteVarInt | deps/litecoin/serialize.h:375-390 | Writes the encoding, within the buffer of ceil(bits / 7) bytes. |
| Serialize.ReadVarInt | deps/litecoin/serialize.h:393-412 | Reads exactly the numbers that fit in the type, and fails for every other stream. |
| Serialize.WriteThenRead | deps/litecoin/serialize.h:375-412 | Every list of numbers is read back from what was written. |

## Left out

- Hash functions: a hash is a term of a datatype, so two different inputs never collide.
- Sizes: MMRs have at most 2^62 leaves (`Backend.MAX_LEAVES`), so that 64-bit positions do not wrap around.
- Indices.GetParent: asks for a height below 63, as the source shifts by one more; the only other node has position
  2^64 - 2.
- Indices.GetSibling: asks for the same.
- Kernel sums: whether they balance is a parameter of `ApplyBlock`; offsets, signatures and bulletproofs do not appear.
- Transaction validity: a flag of the transaction, including that of aggregated ones; sorting of inputs, outputs and
  kernels, by the aggregation and as a rule of validity. The theorems hold for any order.
- Mmr.MMRCache.GetLeaf: asks for a leaf that exists; the guard lets the number one past the last through
  (src/mmr/MMRCache.cpp:34).
- Index operations on the cache for a position it does not have: the source asserts.
- FileBackend with a prune list: positions are not shifted inside the class; `Factory.RebuiltReads` and
  `Compaction.CompactAgain` state the shift.
- File handling: naming by index, copying, memory mapping, truncation, MMRInfo records, and the removal of old files.
- The leaf database's batch is written at once in `Backend.FileBackend.Commit`.
- LevelDB: a batch is its last operation per key, and committing it applies them. Between a flush to the database and
  its commit the stacks read are the old ones, as in the source.
- CoinsViewDB::AddUTXO with an output (src/node/CoinsViewDB.cpp:30-36), which nothing here calls.
- std::pow is exact here.
- Snapshot but for the hashes it sends, CoinsViewFactory, StateValidator, the wallet, and the mempool.
- Shared pointers and exceptions: failures are results; a failed `ApplyBlock` leaves its cache in a state that the
  callers throw away, and of which nothing is said.
- Arena: addresses are numbers, 0 is the null pointer, and the arena does not reach the end of the address space.
- Streams: the destination of a `BitStreamWriter` and the source of a `BitStreamReader` are sequences of bytes.
- BufferedFiles.CBufferedFile.constructor: asks for a rewind below the buffer size, buffers below 2^32 bytes and files
  below 2^63 bytes; Seek, which changes the position without the buffer, and eof.
- FixedPoint.ParseFixedPoint: asks for texts below 2^31 characters, whose size is kept in an int.
- BaseTexts: one pair of methods with the base as a parameter stands for the two copies; decoding tables are written
  as ranges of characters.
- Ecdsa: points are multiples of the generator; that the order and the field size are primes is asked of the curve, and
  that x-coordinates are below the field size, equal for opposite points, and y of opposite parity. Constant-time code
  and field arithmetic.
- Der.LaxParse: asks for inputs below 2^56 bytes, beyond which lengths of eight octets would matter; the strict parser
  for inputs below 2^31 bytes, as it keeps lengths in an int.
- Hashing: the compression of one block is a parameter; BLAKE2b's last-node flag, which is never set; the data counter
  of CSHA256 is unbounded, with the length modulo 2^64 in the padding as in the source.
- Serialize.ReadVarInt: for types of at least seven bits.
- prevector, CompactSize, and the other helpers of deps/litecoin: they would only add easy members.
