# Merkle trees that must agree

The repository keeps the same append-only Merkle tree in several compact forms: a frontier (the right edge
only), a commitment tree (the same as slots), an incremental witness, a chain of bridges (`BridgeTree`), and
shards of partial trees with a cap above them (`ShardTree`), beside a reference tree that keeps every leaf. This
project models each of these forms and proves that they all compute one thing: `Merkle.Root`, the hash of a node
of the full binary tree over the leaf sequence, padded with empty leaves. `empty_leaf` and `combine` are
arbitrary, and `combine` takes the level of its arguments.

| module | models |
|---|---|
| `Merkle` | positions, levels, addresses, roots, witnesses |
| `Frontiers`, `CommitmentTrees`, `IncrementalWitnesses` | the two encodings of the right edge, and a witness kept up to date |
| `Bridges`, `Histories`, `BridgeTrees` | deltas between states, the leaf history they stand for, the state machine over them |
| `PrunableTrees`, `Pruning`, `DenseTrees` | partial trees: roots, merging, inserting; clearing flags and the pruning it causes; trees grown leaf by leaf |
| `MissingNodes`, `Insertions` | exactly what roots and witnesses report as missing, and what merging, inserting and truncating make of any trees |
| `Stores`, `CachingStores` | the in-memory store and the write-back cache over it |
| `Caps`, `RootCaches` | roots over several shards, and the cap that remembers them |
| `ExcessCheckpoints`, `ShardStates`, `ShardTrees` | what pruning clears, what the shards mean, the shard tree |
| `Batches`, `FrontierTrees` | building a tree from a batch of leaves, and from a frontier |
| `CompleteTrees`, `ReferenceRuns` | the reference tree, and its runs as plain values |
| `SharedMarks`, `KeptMarks`, `Agreements` | the marks of both trees over a run, and the shard tree run side by side with the reference tree |
| `BridgeAgreements` | the bridge tree run side by side with it |

Objects that the source updates in place are classes here, with their loops; each is tied to a function of the
leaves by a ghost field or a ghost argument. `Option`, `Result` and panics are values: `None` of `ClearFlags` and
the outcome `Panicked` stand for the source's `panic!`. `u64` positions and `u8` levels are unbounded naturals.

The main results:

- `Agreements.RunsAgree`: over every run the shard tree never panics, every answer of both trees is that of a plain
  value, all roots are the same and the shard tree gives every witness that the reference tree gives. Both have the
  same marks after every operation, and then give the same answers and witnesses, if and only if no checkpoint of the
  run drops a mark that one that stays still lists as removed.
- `BridgeAgreements.BridgeRunsAgree`: the same for the bridge tree, over every run whose checkpoint identifiers are in
  turn, and only over such runs.
- `BridgeTrees`: every operation of the bridge tree is one step of the plain leaf history of `Histories`; a
  witness exists exactly when the history allows one; garbage collection leaves exactly the bridges, hashes and
  tracked addresses that are still needed, and changes nothing else except, under an exact condition, the oldest
  checkpoint.
- `PrunableTrees` and `Pruning`: partial trees consistent with the same leaves never conflict, and pruning changes
  no answer, root or witness, that a retained flag asks for.
- `Insertions`: for any two trees, exactly when they merge or can be inserted, which positions are covered then and
  with which flags, which roots can be computed, and which nodes are reported; `MissingNodes`: a root or a witness is
  refused exactly if something is lacking for it, and the error lists exactly that.
- `RootCaches` and `Caps`: cached and uncached roots are equal, and the cap stays true exactly under a condition on
  the request.
- `FrontierTrees`: the frontier extracted from a store that is true of some leaves is theirs, exactly when one can be
  extracted; inserting a frontier of the same leaves always succeeds and keeps the store true; into any store, what is
  inserted is there afterwards and comes back (`FrontierComesBack`, `FrontierRoundTrip`).
- `Batches.FromIter`, `CommitmentTrees.TreeRoundTrip`, `IncrementalWitnesses.Lockstep`,
  `CachingStores.WriteBackEqualsDirect`.

Where the source does not keep a property, the exact condition is proved beside a concrete input that breaks it:

| property | breaks in | holds exactly under |
|---|---|---|
| garbage collection changes no checkpoint | `CollectLosesOldest` | `BridgeTree.GarbageCollect` |
| the shard tree has no other marks than the reference tree | `RemovedAgainDiffers` | `KeptIffStillListed` for a mark, `NotedTwins` for a checkpoint, `CleanIff` for a run |
| a tree with leaves has a frontier | `RemovingAMarkLosesFrontier` | `ShardTree.GetFrontier`; `ExtractedIff` for any store |
| the bridge tree stays equal to the reference tree | `OutOfTurnDiffers` | `InTurnIff` |
| pruning does not panic | `RemovingAMarkTwicePanics` | `PanicsIff` |
| the cap is true after a truncation | `StaleCap` | `CapAfter` |
| the cap is true after a root was asked for | `BelowShardLevelCachesWrongHash` | `KeepsCapIff` |
| merging and inserting keep every flag | `MergeLosesFlag` | `MergeKeepsFlags`, `InsertKeepsFlags`, `InsertKeepsOthers` |
| inserting keeps every root | `InsertDropsHash` | `InsertSettles` |
| inserting over another hash is a conflict | `InsertMissesConflict` | `InsertOkIff` |
| asking for a root keeps what the cap remembers | `CachingForgets` | `RememberedAt`; `HashesStay` for its leaves |
| an inserted frontier comes back | `FrontierLostInCap` | `FrontierComesBack`, `ExtractedIff` |
| a marked leaf has a witness | `NoWitnessAtHeightZero` | `ShardTree.WitnessInternal` |
| `contains_marked` says whether a batch has a marked leaf | `FlagMissesMark` | `FromIter`, `SeenIff` |

Three remarks on the source's own words. `prune` hands the level of the root to `unite`, whose documentation asks for
the level of the children; the other callers pass the level of the children, as the model does. `unite` replaces
two ephemeral leaves by their hash, so a position that was flagged once can later lie under a leaf at a higher level:
`clear_flags` then reaches it through that leaf, which is where its panic comes from. `ShardTree::frontier` is said to
return an empty frontier if it cannot be determined; the code returns an error then, and so does the model.

## Model

| member | source | states |
|---|---|---|
| Agreements.RunsAgree | shardtree/src/testing.rs:153-230 | Over every run of appends, checkpoints, rewinds and mark removals from two empty trees: pruning never panics; every answer of either tree to every operation is given exactly, as that of a plain value of leaves, marks and checkpoints (appends, checkpoints and rewinds are accepted by both or by neither); roots, present or at a checkpoint depth, are the same; and a witness is given by the shard tree exactly for the marks it still has, which are all those of the reference tree and possibly more (shards of height 0 give none). The two have the same marks after every operation if and only if no checkpoint of the run drops a mark that a checkpoint that stays still lists as removed; in such runs all answers are the same and, with shards of some height, all witnesses, the refused ones included. |
| Agreements.RunBoth | shardtree/src/testing.rs:153-230 | Any sequence of operations keeps the two trees holding the same leaves and checkpoints, every mark of the reference tree known to the shard tree, and the cap empty; no pruning panics; the marks and checkpoints of the shard tree are those of its plain value, its answers too; and the marks of both are the same throughout exactly in the runs named above. |
| Agreements.AppendBoth | shardtree/src/lib.rs:304-352 | One append: the shard tree does not panic and accepts exactly when the reference tree does; everything the two trees share is kept, and trees with the same marks have the same marks afterwards if and only if the append drops no mark that a checkpoint that stays still lists. |
| Agreements.CheckpointBoth | shardtree/src/lib.rs:492-578 | One checkpoint: no panic, accepted by both or by neither, everything they share is kept, and trees with the same marks have the same marks afterwards under exactly the same condition. |
| Agreements.RewindBoth | shardtree/src/testing.rs:227-229 | Going back to the checkpoint at a depth: done by both or by neither, and everything they share is kept, the same marks included. |
| Agreements.RemoveMarkBoth | shardtree/src/testing.rs:207-217 | Removing a mark as of the latest checkpoint, or at once if there is none: done in the shard tree whenever it is done in the reference tree, and only then if the two have the same marks, which they then keep. |
| Agreements.PerformBoth | shardtree/src/testing.rs:153-230 | Any one operation: no pruning panics, each tree answers and changes as its plain value does, and trees with the same marks keep them if and only if the operation drops no mark that a checkpoint that stays still lists. |
| Agreements.AskBoth | shardtree/src/testing.rs:153-230 | The same roots, present or past, and exactly those of the leaves as of the checkpoint; each tree gives a witness exactly for the marks it has, and those of the reference tree are among those of the shard tree. |
| Agreements.RemovedAgainDiffers | incrementalmerkletree-testing/src/lib.rs:437-458 | A concrete run in which a mark is removed again under a second checkpoint before the first one goes: the shard tree then gives a witness that the reference tree refuses. |
| Agreements.HeldNoPanic | shardtree/src/lib.rs:588-691 | As long as every mark that a checkpoint lists as removed is still flagged, pruning cannot panic. |
| Agreements.HeldAfterPrune | shardtree/src/lib.rs:588-691 | Pruning takes no mark that a retained checkpoint lists. |
| SharedMarks.KnownAfterLeaf | incrementalmerkletree-testing/src/complete_tree.rs:89-157 | Appending and marking a leaf keeps every mark of the reference tree known to the shard tree: flagged, listed as removed by no checkpoint that the reference tree does not know of, and recorded since every earlier checkpoint. |
| SharedMarks.ClearedIsDropped | shardtree/src/lib.rs:588-691 | Pruning clears a mark only if dropping the oldest checkpoint makes the reference tree drop it too. |
| SharedMarks.ClearedIff | shardtree/src/lib.rs:588-691 | The exact condition: pruning clears a mark if and only if the reference tree drops it and no checkpoint that stays lists it as removed as well. |
| SharedMarks.KeptIffStillListed | shardtree/src/lib.rs:588-691 | So a mark that the reference tree drops stays in the shard tree exactly if a checkpoint that stays still lists it. |
| SharedMarks.KnownAfterDrop | incrementalmerkletree-testing/src/complete_tree.rs:186-198 | Dropping the oldest checkpoint in both trees keeps every remaining reference mark known. |
| SharedMarks.KnownAfterRewind | incrementalmerkletree-testing/src/complete_tree.rs:304-333 | Going back in both trees keeps every remaining reference mark known: the marks made since are exactly those that go. |
| SharedMarks.KnownAfterRemoval | shardtree/src/lib.rs:1507-1556 | Deferring the removal of a mark in both trees keeps every reference mark known. |
| SharedMarks.MarkedSinceIsLate | incrementalmerkletree-testing/src/complete_tree.rs:304-333 | The marks recorded since a checkpoint are exactly those of leaves appended after it. |
| KeptMarks.ListedIff | shardtree/src/lib.rs:588-691 | With the oldest checkpoint of one too many gone, the shard tree still lists a mark exactly if the reference tree does, and it listed it before exactly if the reference tree drops it or still lists it. |
| KeptMarks.GrownTwins | shardtree/src/lib.rs:304-352 | A leaf marked in both trees keeps their marks the same and their lists alike. |
| KeptMarks.NotedTwins | shardtree/src/lib.rs:588-691 | Exactly when a new checkpoint leaves the two trees with the same marks: if no mark that goes with the oldest one is still listed by one that stays. |
| KeptMarks.RewoundTwins | incrementalmerkletree-testing/src/complete_tree.rs:304-333 | Going back in both trees leaves them with the same marks and lists. |
| KeptMarks.UnmarkedTwins | shardtree/src/lib.rs:1507-1556 | Removing a mark as of the latest checkpoint in both trees leaves them with the same marks and lists, however often it is removed. |
| KeptMarks.StepTwins | shardtree/src/testing.rs:153-230 | Any one operation: accepted by both or by neither, and the marks are the same afterwards if and only if it drops no mark that is still listed. |
| KeptMarks.CleanIff | shardtree/src/testing.rs:153-230 | Over whole runs: the marks are the same after every operation if and only if no operation of the run drops a mark that is still listed. |
| KeptMarks.OnceIsClean | shardtree/src/testing.rs:207-217 | It is enough for this that no mark is removed again while an older stored checkpoint lists it. |
| KeptMarks.PrunedMarks | shardtree/src/lib.rs:588-691 | What pruning makes of the marks in the shards: a mark goes exactly if a checkpoint listed it and none that stays does. |
| KeptMarks.AppendedInShards | shardtree/src/lib.rs:304-352 | The marks in the shards after an append and its pruning are those of the plain value. |
| KeptMarks.NotedInShards | shardtree/src/lib.rs:492-578 | So are those after a checkpoint and its pruning. |
| KeptMarks.RewoundInShards | shardtree/src/lib.rs:702-815 | So are those after going back. |
| KeptMarks.UnmarkedInShards | shardtree/src/lib.rs:1507-1556 | So are those after a mark is removed at once. |
| ReferenceRuns.Perform | incrementalmerkletree-testing/src/complete_tree.rs:89-333 | Each operation of the reference tree, its answer included, is that of a plain value of leaves, marks and checkpoints; runs are judged by those values. |
| ReferenceRuns.SnapshotIs | incrementalmerkletree-testing/src/complete_tree.rs:239-276 | The leaves at a checkpoint depth, over which the reference tree answers, are those of the plain value. |
| BridgeAgreements.BridgeRunsAgree | bridgetree/src/lib.rs:1235-1280 | Over every run from empty trees in which every leaf appended with a checkpoint has an identifier greater than those stored, the bridge tree and the reference tree give the same answers, roots and witnesses, the refused ones included; and only in such runs do they have the same leaves, marks and checkpoints after every operation. |
| BridgeAgreements.RunBridge | bridgetree/src/lib.rs:1026-1078 | Any sequence of operations takes the bridge tree through the history it stands for and the reference tree through its plain value; in the runs named above both give the same answers and end the same. |
| BridgeAgreements.AskBridge | bridgetree/src/lib.rs:1058-1064 | What the bridge tree answers for a root or a witness is what the reference tree would answer over the history the bridge tree stands for. |
| BridgeAgreements.PerformBridge | bridgetree/src/lib.rs:1026-1078 | The calls for one operation (after an append its leaf is marked and the checkpoint added, if asked to) succeed exactly when the history takes the operation, and make of it what the operation does. |
| BridgeAgreements.GoBackTo | bridgetree/src/lib.rs:834-851 | Going back to the checkpoint at a depth by that many rewinds and one more, and adding the checkpoint again. |
| BridgeAgreements.StepMirrors | bridgetree/src/lib.rs:1026-1078 | One operation on both: afterwards they have the same leaves, marks and checkpoints if and only if an append that is to be a checkpoint has an identifier for one; otherwise the reference tree refuses the leaf, which the bridge tree has taken when it refuses the checkpoint. |
| BridgeAgreements.InTurnIff | bridgetree/src/lib.rs:1235-1280 | The same over whole runs, after every operation. |
| BridgeAgreements.OutOfTurnDiffers | bridgetree/src/lib.rs:1029-1040 | A concrete run: with an identifier that is taken the bridge tree keeps the leaf and refuses the checkpoint, the reference tree refuses both. |
| BridgeAgreements.CheckpointMirrors | bridgetree/src/lib.rs:795-826 | A checkpoint is accepted by both or by neither, and drops the same oldest one with the same marks. |
| BridgeAgreements.RewindMirrors | bridgetree/src/lib.rs:834-851 | Rewinding so many times and once more, and adding the checkpoint again, is the reference tree going back to the checkpoint at that depth. |
| BridgeAgreements.RemoveMirrors | bridgetree/src/lib.rs:777-788 | Removing a mark is recorded in the same checkpoint, or done at once in both. |
| BridgeAgreements.GrownMirrors | bridgetree/src/lib.rs:660-682 | A leaf, marked or not, is added to both alike. |
| BridgeAgreements.WitnessHere | bridgetree/src/lib.rs:856-936 | In such runs a witness as of a checkpoint is given exactly for a mark on a leaf from before it: marks come with appends, so none was made since. |
| CompleteTrees.RootByRows | incrementalmerkletree-testing/src/complete_tree.rs:10-40 | The level-by-level loop over padded leaves computes the recursive root. |
| CompleteTrees.WitnessByBits | incrementalmerkletree-testing/src/complete_tree.rs:249-276 | The bit-flipping loop computes the list of true sibling hashes in the tree of the first `count` leaves. |
| CompleteTrees.CompleteTree.constructor | incrementalmerkletree-testing/src/complete_tree.rs:75-81 | The empty tree. |
| CompleteTrees.CompleteTree.Mark | incrementalmerkletree-testing/src/complete_tree.rs:143-157 | Marks the last leaf once; the first marking is recorded in the latest checkpoint. |
| CompleteTrees.CompleteTree.Record | incrementalmerkletree-testing/src/complete_tree.rs:162-173 | A checkpoint stands for the present leaves; with one too many the oldest goes, and with it the marks removed as of it. |
| CompleteTrees.CompleteTree.AppendLeaf | incrementalmerkletree-testing/src/complete_tree.rs:89-101 | The inner append, then the mark: fails exactly when the tree is full. |
| CompleteTrees.CompleteTree.Append | incrementalmerkletree-testing/src/complete_tree.rs:89-129 | Fails exactly when the tree is full or the identifier is not greater than all stored ones; otherwise exactly the new leaf, mark and checkpoint are added. |
| CompleteTrees.CompleteTree.AddCheckpoint | incrementalmerkletree-testing/src/complete_tree.rs:291-298 | Accepts exactly the identifiers greater than all stored ones. |
| CompleteTrees.CompleteTree.RemoveMark | incrementalmerkletree-testing/src/complete_tree.rs:278-289 | Recorded in the latest checkpoint, or done at once when there is none; false exactly when the position is not marked. |
| CompleteTrees.CollectLater | incrementalmerkletree-testing/src/complete_tree.rs:304-333 | The loop over the latest checkpoints collects exactly them, and takes exactly the marks they recorded. |
| CompleteTrees.GoBack | incrementalmerkletree-testing/src/complete_tree.rs:304-333 | Exactly the marks made since the target checkpoint go, and exactly the later checkpoints. |
| CompleteTrees.CompleteTree.Rewind | incrementalmerkletree-testing/src/complete_tree.rs:304-333 | Restores the leaves of the checkpoint at the depth; exactly the marks made since it go; that checkpoint and the earlier ones stay, and it forgets what it recorded. |
| CompleteTrees.CompleteTree.GetRoot | incrementalmerkletree-testing/src/complete_tree.rs:239-247 | The root over the leaves at a checkpoint depth, or over all of them. |
| CompleteTrees.CompleteTree.GetWitness | incrementalmerkletree-testing/src/complete_tree.rs:249-276 | The true sibling hashes as of a checkpoint, exactly for marked positions within it. |
| Merkle.StartIsShift | incrementalmerkletree/src/lib.rs:468-488 | A node at level l and index i starts at position i times two to the l, so the recursive definition used everywhere is the shift of the source. |
| Merkle.FindCurrentIncomplete | incrementalmerkletree/src/lib.rs:536-551 | The loop for the first zero bit returns the lowest left child above the address. |
| Merkle.CurrentIncompleteRange | incrementalmerkletree/src/lib.rs:536-551 | That node is the lowest incomplete ancestor: it ends where the address ends, and every node in between is a right child. |
| Merkle.CompleteIffLast | incrementalmerkletree/src/lib.rs:216-218 | A position completes a subtree exactly when it is the last leaf of its ancestor at that level. |
| Merkle.ChildContains | incrementalmerkletree/src/lib.rs:415-464 | A proper descendant lies under exactly one of the two children. |
| Merkle.ClimbAbove | incrementalmerkletree/src/lib.rs:376-382 | Taking parents from a position up to a level gives the address above that position at that level. |
| Merkle.RootAgree | incrementalmerkletree/src/lib.rs:671-678 | The hash of a node depends only on the leaves in its range. |
| Merkle.RootPrefix | incrementalmerkletree/src/lib.rs:671-678 | A complete node keeps its hash when leaves are appended or later ones are cut off. |
| Merkle.RootEmpty | incrementalmerkletree/src/lib.rs:671-678 | A node without leaves hashes to the empty root of its level. |
| Merkle.PathFolds | incrementalmerkletree/src/lib.rs:644-655 | Folding a leaf with its sibling hashes, as a Merkle path does, yields the root of the ancestor. |
| Frontiers.OmmerCount | incrementalmerkletree/src/lib.rs:205-211 | The frontier of a leaf sequence has one ommer for each set bit of the tip position above level 0. |
| Frontiers.CarryCorrect | incrementalmerkletree/src/frontier.rs:91-136 | The carry keeps the ommers equal to the roots of the complete left siblings. |
| Frontiers.PushedCorrect | incrementalmerkletree/src/frontier.rs:91-136 | Appending to the frontier of a leaf sequence gives the frontier of the longer sequence. |
| Frontiers.AppendLeaf | incrementalmerkletree/src/frontier.rs:91-136 | The walk over the witness addresses of the prior position, with its mutable ommer list, computes the carry. |
| Frontiers.FrontierRootCorrect | incrementalmerkletree/src/frontier.rs:139-165 | For every level, the frontier root is the hash of the node of that level above the tip; if no level is given, that of the lowest node that holds all leaves. |
| Frontiers.FrontierWitnessCorrect | incrementalmerkletree/src/frontier.rs:172-185 | With true complement nodes of a longer history the witness is the list of sibling hashes there and folds to its root; it exists if and only if every complement node it asks for does, and otherwise the error names the first that does not. |
| Frontiers.FullIff | incrementalmerkletree/src/lib.rs:216-218 | The tip completes the tree of a depth exactly when all leaves are present. |
| Frontiers.Frontier.constructor | incrementalmerkletree/src/frontier.rs:294-298 | The empty frontier. |
| Frontiers.Frontier.Append | incrementalmerkletree/src/frontier.rs:335-347 | Fails exactly when all leaves are present, and otherwise adds the leaf. |
| Frontiers.Frontier.GetRoot | incrementalmerkletree/src/frontier.rs:352-358 | The root of the full tree over the leaves. |
| Frontiers.Frontier.GetWitness | incrementalmerkletree/src/frontier.rs:368-381 | None exactly for the empty frontier; otherwise it exists if and only if every complement node does, folds to the root of the longer history, and its error names the first node that is missing. |
| CommitmentTrees.SizeIs | incrementalmerkletree/src/frontier.rs:513-527 | The size as the tree computes it, read off its slots. |
| CommitmentTrees.ToFrontierSucceeds | incrementalmerkletree/src/frontier.rs:577-596 | The conversion never fails; the position is the size minus one. |
| CommitmentTrees.FrontierRoundTrip | incrementalmerkletree/src/frontier.rs:547-596 | Frontier to tree to frontier loses nothing. |
| CommitmentTrees.TreeRoundTrip | incrementalmerkletree/src/frontier.rs:547-596 | Tree to frontier to tree is the identity exactly when all depth minus one slots are written out (none for the empty tree). |
| CommitmentTrees.CompleteAgrees | incrementalmerkletree/src/frontier.rs:529-542 | Both encodings agree on when a subtree is full. |
| CommitmentTrees.AppendCommutes | incrementalmerkletree/src/frontier.rs:602-635 | Converting to a frontier commutes with append. |
| CommitmentTrees.AppendRepresents | incrementalmerkletree/src/frontier.rs:602-635 | Appending to a tree over some leaves gives a tree over the longer sequence. |
| CommitmentTrees.RootAtDepthCorrect | incrementalmerkletree/src/frontier.rs:642-674 | With the hashes of the subtrees filled since as filler, the root at a depth is the root over all leaves up to now. |
| CommitmentTrees.StoreCarry | incrementalmerkletree/src/frontier.rs:602-635 | The loop that clears occupied slots until a free one takes the carry computes the carry. |
| CommitmentTrees.CommitmentTree.Append | incrementalmerkletree/src/frontier.rs:602-635 | Fails exactly when the tree is complete; otherwise the slots are those of the carry. |
| CommitmentTrees.CommitmentTree.GetRoot | incrementalmerkletree/src/frontier.rs:638-640 | The root over the leaves. |
| IncrementalWitnesses.NextDepth | incrementalmerkletree/src/witness.rs:141-177 | The loop over the free slots finds the level of the next subtree that later leaves will fill. |
| IncrementalWitnesses.FilledLeavesIs | incrementalmerkletree/src/witness.rs:118-138 | The leaves counted for the filled subtrees are exactly those between the witnessed leaf and the next subtree. |
| IncrementalWitnesses.PathParentsCorrect | incrementalmerkletree/src/witness.rs:232-264 | The path built from slots and filler is the list of true sibling hashes. |
| IncrementalWitnesses.CursorStep | incrementalmerkletree/src/witness.rs:194-220 | A leaf for a subtree being filled keeps the witness invariant, moving the subtree to the filled ones exactly when it is complete. |
| IncrementalWitnesses.StartStep | incrementalmerkletree/src/witness.rs:194-220 | A leaf that starts the next subtree is accepted exactly when the tree is not full, and keeps the invariant. |
| IncrementalWitnesses.IncrementalWitness.Filler | incrementalmerkletree/src/witness.rs:181-188 | The filler lists the hashes of the subtrees filled since, the cursor's partial one last. |
| IncrementalWitnesses.IncrementalWitness.Append | incrementalmerkletree/src/witness.rs:194-220 | Fails exactly when all leaves of the tree are covered. |
| IncrementalWitnesses.IncrementalWitness.GetRoot | incrementalmerkletree/src/witness.rs:223-225 | The root of the tree over all leaves so far. |
| IncrementalWitnesses.IncrementalWitness.GetPath | incrementalmerkletree/src/witness.rs:228-264 | The sibling hashes of the witnessed leaf in the present tree; they fold to its root. |
| IncrementalWitnesses.IncrementalWitness.TipPosition | incrementalmerkletree/src/witness.rs:118-138 | The position of the last leaf. |
| IncrementalWitnesses.FromTree | incrementalmerkletree/src/witness.rs:51-58 | A witness exists exactly for a nonempty tree. |
| IncrementalWitnesses.IncrementalWitness.constructor | incrementalmerkletree/src/witness.rs:51-58 | A witness taken from a tree covers exactly the leaves of the tree. |
| IncrementalWitnesses.IncrementalWitness.WitnessedPosition | incrementalmerkletree/src/witness.rs:112-114 | The position of the last leaf of the tree it was taken from. |
| IncrementalWitnesses.Lockstep | incrementalmerkletree/src/witness.rs:194-264 | The same leaves appended to a tree and to a witness taken from it: equal roots, a path that folds to that root, a tip as many positions on as leaves were accepted, and both stop exactly when the tree is full. |
| Bridges.OnePerLevel | bridgetree/src/lib.rs:216-246 | At most one address is tracked per level. |
| Bridges.FoundIff | bridgetree/src/lib.rs:216-246 | A tracked address is found exactly by the leaf that completes its sibling. |
| Bridges.NextParentOk | incrementalmerkletree/src/lib.rs:553-563 | The next incomplete parent of a found address is trackable, and lies above it with only right children in between. |
| Bridges.TrackingKept | bridgetree/src/lib.rs:216-246 | After a leaf, the tracked addresses are again complete left children whose siblings are incomplete, and none of the new ones was just found. |
| Bridges.StoreCompleted | bridgetree/src/lib.rs:216-246 | The first loop stores exactly the digests of the completed siblings. |
| Bridges.MoveTracking | bridgetree/src/lib.rs:216-246 | The second loop replaces every found address by its next incomplete parent; its assertion never fails. |
| Bridges.AppendTo | bridgetree/src/lib.rs:216-246 | The two loops together are the append that the lemmas below speak of. |
| Bridges.AppendedOk | bridgetree/src/lib.rs:216-246 | Every ommer stored by an append is the true root of its address. |
| Bridges.AppendedHolds | bridgetree/src/lib.rs:216-246 | No completed sibling on a tracked leaf's path is missed. |
| Bridges.AppendedTracks | bridgetree/src/lib.rs:216-246 | The address waiting on a tracked leaf's path is still tracked one leaf later. |
| Bridges.AppendedTracking | bridgetree/src/lib.rs:216-246 | One leaf later exactly the trackable nodes at or above the tracked ones are tracked: complete left children whose siblings are not complete. |
| Bridges.AppendedOmmers | bridgetree/src/lib.rs:216-246 | And exactly the hashes of those siblings of tracked nodes that the leaf completes are held in addition. |
| Bridges.SuccessorOk | bridgetree/src/lib.rs:194-212 | A successor starts where the bridge ends; it tracks exactly what the bridge tracked and, if asked to, the one trackable node above the current leaf. |
| Bridges.FuseOk | bridgetree/src/lib.rs:253-267 | Continuous bridges fuse, and the result holds what either period held. |
| Bridges.FuseAssociative | bridgetree/src/lib.rs:253-267 | Fusing is associative on continuous bridges. |
| Bridges.FuseIsAppend | bridgetree/src/lib.rs:194-281 | Fusing with a successor that saw some leaves is appending those leaves directly. |
| Bridges.BridgeWitnessCorrect | bridgetree/src/lib.rs:287-309 | The witness of the leaf a bridge starts from consists of the true sibling hashes; it fails only if an ommer is missing. |
| Histories.RewindUndoes | bridgetree/src/lib.rs:795-851 | Whatever is appended, marked or unmarked after a checkpoint, rewinding restores leaves, marks and earlier checkpoints; a tree that already kept its maximum loses its oldest checkpoint and the marks removed as of it, and nothing else. |
| Histories.BackIs | bridgetree/src/lib.rs:834-851 | Going back any number of checkpoints takes exactly the leaves appended and the marks recorded since. |
| Histories.CanWitnessIff | bridgetree/src/lib.rs:856-935 | A leaf is there and marked after going back to a checkpoint exactly if it is marked now, lies before that checkpoint, and no checkpoint since has recorded its mark. |
| Histories.OrderlyMark | bridgetree/src/lib.rs:724-759 | Marking keeps the history in order: checkpoints cover growing prefixes, and each records only marks of the last leaf before it or of later ones. |
| Histories.OrderlyAppend | bridgetree/src/lib.rs:660-682 | So does appending a leaf. |
| Histories.OrderlyRewind | bridgetree/src/lib.rs:834-851 | So does going back. |
| BridgeTrees.InvariantIsConsistent | bridgetree/src/lib.rs:615-655 | The consistency check holds in every reachable state. |
| BridgeTrees.WitnessOfRun | bridgetree/src/lib.rs:273-309 | The fused bridges from a saved leaf to any later state give its witness in that state. |
| BridgeTrees.MarkedAfterIs | bridgetree/src/lib.rs:856-935 | For a leaf from before a checkpoint, the backward search of the code, which stops at the first checkpoint that is too early, finds whether any checkpoint from that one on recorded its mark. |
| BridgeTrees.TreeOrderly | bridgetree/src/lib.rs:615-655 | Every reachable tree stands for a history in order, after garbage collection too. |
| BridgeTrees.BridgeTree.constructor | bridgetree/src/lib.rs:497-507 | The empty tree. |
| BridgeTrees.BridgeTree.FromFrontier | bridgetree/src/lib.rs:563-577 | A tree that continues from the frontier of a leaf sequence, for any maximum of checkpoints. |
| BridgeTrees.BridgeTree.Append | bridgetree/src/lib.rs:660-678 | Fails exactly when the tree is full; otherwise adds the leaf to the current bridge, or to a new one, and changes nothing else. |
| BridgeTrees.BridgeTree.GetRoot | bridgetree/src/lib.rs:684-708 | At every checkpoint depth, the memoised depth 0 included, the root over the leaves there were then. |
| BridgeTrees.BridgeTree.SealTip | bridgetree/src/lib.rs:724-759 | The step that marking and checkpointing share changes nothing observable, makes the tip the end of the last prior bridge and, if asked to, starts to track it, and tracks nothing else in addition. |
| BridgeTrees.BridgeTree.SaveTip | bridgetree/src/lib.rs:724-759 | Saving the sealed tip is one marking step of the history. |
| BridgeTrees.BridgeTree.Mark | bridgetree/src/lib.rs:724-759 | Marks the last leaf, once, and the latest checkpoint records it. |
| BridgeTrees.BridgeTree.RemoveMark | bridgetree/src/lib.rs:777-788 | Recorded in the latest checkpoint, or done at once when there is none. |
| BridgeTrees.BridgeTree.AddCheckpoint | bridgetree/src/lib.rs:795-827 | Accepts exactly increasing identifiers; the oldest checkpoint goes, with the marks removed as of it, when there are too many. |
| BridgeTrees.BridgeTree.PushCheckpoint | bridgetree/src/lib.rs:795-827 | Recording the sealed bridges under an identifier is one checkpoint step of the history, dropping the oldest included. |
| BridgeTrees.BridgeTree.Rewind | bridgetree/src/lib.rs:834-851 | Restores the leaves of the latest checkpoint and removes it with the marks made since; the tree continues from the last bridge left, and tracks its leaf exactly if that is marked still. |
| BridgeTrees.BridgeTree.SuccessorOf | bridgetree/src/lib.rs:856-935 | The bridge from a saved leaf to the tip or to a checkpoint exists exactly when the leaf is before it, and carries the leaf's witness; the error says by how many bridges the checkpoint is too deep. |
| BridgeTrees.BridgeTree.Witness | bridgetree/src/lib.rs:856-935 | Succeeds exactly when the leaf would still be there and marked after going back to that checkpoint; then the path consists of the true sibling hashes and folds to that root. For depth 0 that is every marked position. Which of the errors is given otherwise is stated for every case. |
| BridgeTrees.Collect | bridgetree/src/lib.rs:941-1010 | The loop of garbage collection leaves exactly one bridge for each run of bridges that ends in one to keep: the last, one whose leaf is marked, or one from the oldest checkpoint on. What it has of the run, which hashes and which tracked addresses, is stated for each. |
| BridgeTrees.RunKeeps | bridgetree/src/lib.rs:956-968 | One bridge more, kept: the runs so far and their contents stay exact. |
| BridgeTrees.RunFuses | bridgetree/src/lib.rs:969-984 | One bridge more, fused into the last: its run grows by it, with exactly the hashes that will be taken. |
| BridgeTrees.FutureExact | bridgetree/src/lib.rs:964-974 | The addresses whose hashes will be taken are exactly the right siblings on the way up from a leaf. |
| BridgeTrees.CollectFinish | bridgetree/src/lib.rs:941-1010 | After renumbering, the tree invariant holds again, and every checkpoint after the oldest boundary stands for the same leaves; the oldest does exactly when its bridge survives. |
| BridgeTrees.Collected | bridgetree/src/lib.rs:941-1010 | Collection as a whole: exactly which bridges are left, and how far the checkpoints are renumbered; the tree invariant and the marks are kept, and only the size of checkpoints at the oldest bridge boundary can change, which happens exactly when that boundary is not safe. |
| BridgeTrees.BridgeTree.GarbageCollect | bridgetree/src/lib.rs:941-1010 | At the maximum of checkpoints exactly the bridges are left that end a run to keep, each with exactly the hashes and tracked addresses that a bridge kept before will take, and the checkpoints are renumbered by the number of bridges that are gone; below it nothing changes. The present tree, the marks and every checkpoint after the oldest bridge boundary are untouched; the history is unchanged if and only if there are fewer than the maximum of checkpoints or the oldest boundary is safe; the closing check never fails; the one panic is that of a tree that may keep no checkpoint. |
| BridgeTrees.BridgeTree.OldestAtRisk | bridgetree/src/lib.rs:941-1010 | The oldest checkpoint is lost whenever its last leaf is unmarked and a later one is marked. |
| BridgeTrees.CollectLosesOldest | bridgetree/src/lib.rs:941-1010 | A concrete run after which the root at the oldest checkpoint has changed from that of one leaf to the empty root. |
| PrunableTrees.RootHashSound | shardtree/src/prunable.rs:216-262 | Every root a consistent partial tree computes, at any truncation point, is the true root of the truncated leaves. |
| MissingNodes.RootHashReports | shardtree/src/prunable.rs:216-262 | For every tree and truncation point: there is a root exactly if nothing is lacking, and otherwise the error lists exactly what is, each once and from left to right: the nodes before the cut that are empty, or a leaf which the cut splits, under no cached hash that ends by the cut. |
| PrunableTrees.ComputableIff | shardtree/src/prunable.rs:179-188 | The full root is computed exactly when the tree says it can be. |
| PrunableTrees.MaxPositionBound | shardtree/src/prunable.rs:552-575 | The maximum position lies in the range, and is its last one when the root is computable. |
| Insertions.MaxPositionIs | shardtree/src/prunable.rs:552-575 | For every tree: the maximum position is the greatest one below a leaf or a cached hash, and there is none exactly if there is no such position. |
| PrunableTrees.UniteComputable | shardtree/src/prunable.rs:400-414 | Uniting never loses a computable root. |
| PrunableTrees.MergeSucceeds | shardtree/src/prunable.rs:319-393 | Two trees consistent with the same leaves merge without conflict into one consistent with them, keeping every computable root. |
| PrunableTrees.MergeGrows | shardtree/src/prunable.rs:319-393 | Merging lowers neither maximum position. |
| PrunableTrees.MergeCommutes | shardtree/src/prunable.rs:319-393 | For trees consistent with the same leaves the order of merging does not matter. |
| PrunableTrees.Replacement | shardtree/src/prunable.rs:789-957 | The loop that wraps a subtree up to the insertion point, reporting the empty siblings, computes the extension and its missing nodes. |
| PrunableTrees.InsertSucceeds | shardtree/src/prunable.rs:789-957 | Inserting a subtree consistent with the same leaves never fails, and keeps consistency and the computable root; what it puts where is stated by `Insertions` below, for all trees. |
| PrunableTrees.InsertGrows | shardtree/src/prunable.rs:789-957 | The closing assertion never fails: no insertion, of whatever tree, lowers the maximum position. |
| Insertions.MergeExact | shardtree/src/prunable.rs:319-393 | For all trees that merge: exactly which positions the result covers, and with which flags. Of two trees the one that reaches further down at a position decides, and at the same level both do. |
| Insertions.MergeKeepsFlags | shardtree/src/prunable.rs:319-393 | The flags of either tree at a position are kept if and only if the other does not reach further down there, or has them as well; so a leaf at level 0 keeps all of its flags. |
| Insertions.MergeLosesFlag | shardtree/src/prunable.rs:319-393 | But a concrete pruned leaf loses its checkpoint flag to the pair that it stands for. |
| Insertions.MergeSettles | shardtree/src/prunable.rs:319-393 | Every root that either tree could compute can be computed after merging, or has been pruned into a leaf. |
| Insertions.MergeKeepsDepth | shardtree/src/prunable.rs:319-393 | Merging prunes nothing at a marked leaf or a reference. |
| Insertions.MergeOkIff | shardtree/src/prunable.rs:319-393 | Merging fails if and only if there is a node whose root both trees can compute and do not have the same; the error names one. |
| Insertions.InsertExact | shardtree/src/prunable.rs:789-957 | For every insertion of any tree into any tree: exactly which positions are covered afterwards, and with which flags. Outside of the inserted range all flags stay, except those of a leaf that has to be split; within it the tree that reaches further down decides, and a leaf put on a leaf has the flags of both, the reference flag only if both have it. |
| Insertions.InsertKeepsFlags | shardtree/src/prunable.rs:789-957 | The flags of the inserted tree at a position, but for the reference flag, are there afterwards if and only if the tree did not reach further down there already, or had them as well; so a leaf at level 0 is there with all of them. |
| Insertions.InsertKeepsOthers | shardtree/src/prunable.rs:789-957 | The flags at a position outside of the inserted tree stay if and only if there are none, or no leaf has to be split there. |
| Insertions.InsertKeepsDepth | shardtree/src/prunable.rs:789-957 | Inserting prunes nothing at a marked leaf or a reference, which therefore still can have a witness. |
| Insertions.InsertSettles | shardtree/src/prunable.rs:789-957 | Every root that could be computed before, or in the inserted tree, can be computed afterwards or has been pruned into a leaf, except the root of the inserted tree itself if and only if it goes into an empty node, is annotated, and has a child without a root. |
| Insertions.InsertDropsHash | shardtree/src/prunable.rs:834-834 | That exception, in a concrete tree: the annotation is dropped in an empty node, but not in a leaf or a parent. |
| Insertions.SettledIff | shardtree/src/prunable.rs:179-188 | What that means, by the nodes of the tree: a root that can be computed, or a leaf above the node. |
| Insertions.ExtendReports | shardtree/src/prunable.rs:812-828 | The empty siblings put around a subtree are exactly those reported. |
| Insertions.InsertReports | shardtree/src/prunable.rs:789-957 | An insertion reports exactly the empty nodes that it adds outside of the inserted tree, from the bottom up, each labelled with whether that tree holds a mark. |
| Insertions.InsertOkIff | shardtree/src/prunable.rs:789-957 | Inserting fails if and only if a leaf is put on a leaf of another value, or the node that is there disagrees with the inserted tree somewhere; the error names the node. The hash of a parent put on a leaf is not compared. |
| Insertions.InsertMissesConflict | shardtree/src/prunable.rs:844-874 | A concrete conflict that merging finds and inserting over a leaf does not. |
| Pruning.UniteKeepsRoot | shardtree/src/prunable.rs:400-414 | Uniting keeps the answer, the list of missing addresses included, at every truncation point after a flagged leaf; only for an unannotated parent of two empty children may that list differ. |
| Pruning.ClearConsistent | shardtree/src/prunable.rs:1103-1158 | Clearing flags, and the pruning it causes, keeps a consistent tree consistent. |
| Pruning.ClearExact | shardtree/src/prunable.rs:1103-1158 | Clearing only flagged positions never panics, and takes away exactly the flags asked for. |
| Pruning.ClearPanicsIff | shardtree/src/prunable.rs:1103-1158 | The panic is reached exactly when two entries fall on one leaf. |
| Pruning.ClearKeepsRoot | shardtree/src/prunable.rs:1103-1158 | Clearing changes no answer at a truncation point after a leaf that keeps a flag: no root, and in a tree without an unannotated parent of two empty children no list of missing addresses either. |
| Pruning.TreeWitnessSound | shardtree/src/prunable.rs:640-721 | Every witness a consistent tree gives consists of the sibling hashes of the truncated full tree. |
| MissingNodes.WitnessReports | shardtree/src/prunable.rs:640-721 | For every tree: there is a witness exactly if nothing is lacking for it, and otherwise the error lists exactly what is, each once and from left to right: at the leaf or empty node the path ends in, its sibling's level and above. |
| Pruning.ClearKeepsWitness | shardtree/src/prunable.rs:1103-1158 | Clearing other flags changes no answer to a request for the witness of a leaf that stays marked, at such a truncation point; lists of missing addresses again in such trees. |
| DenseTrees.DenseTip | shardtree/src/prunable.rs:192-198 | Of a tree that holds a prefix of the leaves, the maximum position is the last leaf, and it is full exactly when its range is filled. |
| DenseTrees.DenseRoot | shardtree/src/prunable.rs:216-262 | Such a tree computes its root at the tip and after every flagged leaf. |
| DenseTrees.DenseWitness | shardtree/src/prunable.rs:640-721 | At such a point a witness exists exactly if the tree has a height and the leaf is marked. |
| DenseTrees.NoWitnessAtHeightZero | shardtree/src/prunable.rs:640-721 | A tree of height 0 gives no witness, not even an empty one. |
| DenseTrees.InsertNext | shardtree/src/prunable.rs:964-985 | Inserting the next leaf always succeeds, adds exactly its flags and keeps all others. |
| DenseTrees.MarkTipExact | shardtree/src/lib.rs:492-536 | Checkpointing the tip flags exactly the last leaf, even if that leaf has been pruned to a higher level. |
| DenseTrees.TruncateConsistent | shardtree/src/prunable.rs:729-776 | A truncated consistent tree is consistent. |
| DenseTrees.TruncateExact | shardtree/src/prunable.rs:729-776 | Truncation succeeds exactly at the end of a leaf, and leaves the shorter prefix with the flags it had. |
| Insertions.TruncateKeeps | shardtree/src/prunable.rs:729-776 | For every tree: truncation succeeds exactly at the end of a leaf; what lies up to there keeps its leaves, flags and computable roots, and nothing is left after it. |
| DenseTrees.FlaggedEnds | shardtree/src/prunable.rs:729-776 | A flagged position is the end of a leaf, so truncation to a checkpoint succeeds. |
| DenseTrees.MarkedHasValue | shardtree/src/tree.rs:563-587 | A leaf is marked exactly when its value can be read and carries the mark. |
| DenseTrees.ClearDenseExact | shardtree/src/prunable.rs:1103-1158 | Even when entries hit leaves pruned long ago, exactly what was asked for is cleared. |
| DenseTrees.TipIff | shardtree/src/prunable.rs:1193-1247 | Where every pair of leaves that can be pruned has been, the last of `n` leaves is still at level 0 exactly if it has no left sibling, or it is marked or a reference, or its left sibling is flagged. |
| DenseTrees.InsertTight | shardtree/src/prunable.rs:400-415 | Inserting any tree leaves no pair that could be pruned, if there was none before. |
| DenseTrees.MergeTight | shardtree/src/prunable.rs:319-393 | Neither does merging. |
| DenseTrees.ClearTight | shardtree/src/prunable.rs:1103-1158 | Neither does clearing flags: what becomes prunable is pruned. |
| Stores.MemoryShardStore.GetShard | shardtree/src/store/memory.rs:37-44 | The shard at an index, if there are that many. |
| Stores.MemoryShardStore.LastShard | shardtree/src/store/memory.rs:46-48 | The shard with the greatest index. |
| Stores.MemoryShardStore.constructor | shardtree/src/store/memory.rs:23-31 | The empty store. |
| Stores.MemoryShardStore.PutShard | shardtree/src/store/memory.rs:50-65 | Stores the shard, after empty ones for every missing index; no other shard changes. |
| Stores.MemoryShardStore.TruncateShards | shardtree/src/store/memory.rs:71-75 | Keeps the first shards only. |
| Stores.MemoryShardStore.PutCap | shardtree/src/store/memory.rs:81-84 | Replaces the cap only. |
| Stores.MemoryShardStore.AddCheckpoint | shardtree/src/store/memory.rs:86-93 | Adds or replaces one checkpoint only. |
| Stores.MemoryShardStore.GetCheckpointAtDepth | shardtree/src/store/memory.rs:106-116 | The checkpoint with exactly that many later ones. |
| Stores.MemoryShardStore.MinCheckpointId | shardtree/src/store/memory.rs:118-120 | The least identifier. |
| Stores.MemoryShardStore.MaxCheckpointId | shardtree/src/store/memory.rs:122-124 | The greatest identifier. |
| Stores.MemoryShardStore.UpdateCheckpoint | shardtree/src/store/memory.rs:148-162 | Applies the given update to a stored checkpoint, and to no other; false exactly if it is not stored. |
| Stores.MemoryShardStore.RemoveCheckpoint | shardtree/src/store/memory.rs:164-167 | Removes one checkpoint only. |
| Stores.MemoryShardStore.TruncateCheckpointsRetaining | shardtree/src/store/memory.rs:169-179 | Drops every later checkpoint, and clears the removed marks of the retained one. |
| CachingStores.ReplayStaysBehind | shardtree/src/store/caching.rs:65-115 | The replayed log never leaves a shard or checkpoint that the cache lacks. |
| CachingStores.WriteShards | shardtree/src/store/caching.rs:65-115 | Writing all shards of the cache makes the backend's shards equal to the cache's. |
| CachingStores.WriteCheckpoints | shardtree/src/store/caching.rs:65-115 | Likewise for the checkpoints. |
| CachingStores.CachingShardStore.constructor | shardtree/src/store/caching.rs:40-62 | Loading copies shards, checkpoints and cap, and starts an empty log. |
| CachingStores.CachingShardStore.PutShard | shardtree/src/store/caching.rs:139-141 | The cache, and the log together with it, account for one more operation. |
| CachingStores.CachingShardStore.TruncateShards | shardtree/src/store/caching.rs:147-151 | Likewise. |
| CachingStores.CachingShardStore.PutCap | shardtree/src/store/caching.rs:157-159 | Likewise. |
| CachingStores.CachingShardStore.AddCheckpoint | shardtree/src/store/caching.rs:161-167 | Likewise. |
| CachingStores.CachingShardStore.UpdateCheckpoint | shardtree/src/store/caching.rs:208-217 | Likewise for any update; the answer is the one the direct application would give. |
| CachingStores.CachingShardStore.RemoveCheckpoint | shardtree/src/store/caching.rs:219-223 | Likewise. |
| CachingStores.CachingShardStore.TruncateCheckpointsRetaining | shardtree/src/store/caching.rs:225-232 | Likewise. |
| CachingStores.CachingShardStore.ReplayLog | shardtree/src/store/caching.rs:65-115 | Applies the deferred actions to the backend in order. |
| CachingStores.CachingShardStore.Flush | shardtree/src/store/caching.rs:65-115 | Leaves the backend as if every operation had been applied to it directly. |
| CachingStores.WriteBackEqualsDirect | shardtree/src/store/caching.rs:40-115 | Load, any operations, checkpoint updates by arbitrary functions included, flush: the same shards, cap and checkpoints as the operations applied directly. |
| Caps.Absorb | shardtree/src/lib.rs:1105-1150 | Merging a shard root into the stack keeps it a row of disjoint nodes with the right hashes, lower ones to the right. |
| Caps.PadRight | shardtree/src/lib.rs:1150-1184 | Hashing with empty right siblings up to a level gives the root of the node reached. |
| Caps.Collapse | shardtree/src/lib.rs:1150-1184 | Collapsing the stack gives the root of the requested address. |
| Caps.GatherRoots | shardtree/src/lib.rs:1105-1150 | The loop over the shards collects, from left to right, exactly the nodes that the shards of the range lack, each once, and each missing shard; or a complete stack. |
| Caps.RootFromShards | shardtree/src/lib.rs:1080-1186 | The root over the shards, or exactly what is lacking for it: every missing node of every shard in range and every missing shard, each once; for addresses above, at and below the shard level. |
| Caps.MissingReports | shardtree/src/lib.rs:1105-1150 | What is gathered from the shards of a range is exactly what they lack. |
| Caps.ShardsRootReports | shardtree/src/lib.rs:1080-1186 | The root exists exactly if nothing is lacking, and what is reported is exactly what is. |
| Caps.ShardRootSound | shardtree/src/prunable.rs:216-262 | The root of one shard is the true root of the truncated leaves. |
| RootCaches.UpperRootSound | shardtree/src/lib.rs:1080-1186 | Where the shards know enough, combining their roots gives the true root. |
| RootCaches.ShardsRootKnown | shardtree/src/lib.rs:1080-1186 | The root from the shards exists exactly when each needed shard root is computable. |
| RootCaches.ShardsRootSound | shardtree/src/lib.rs:1080-1186 | Whatever root the shards yield is the true one. |
| RootCaches.RootInternalSound | shardtree/src/lib.rs:910-1078 | Over a cap consistent with the leaves, every root returned is the true root of the truncated leaves, and the replacement cap is consistent again for targets at or above the shard level. |
| RootCaches.ReplacementFits | shardtree/src/lib.rs:910-1078 | The replacement cap has no parent at or below the shard level. |
| RootCaches.RootInternalAnswers | shardtree/src/lib.rs:910-1078 | If the shards know enough for the target, every cap gives an answer. |
| RootCaches.RootInternalIff | shardtree/src/lib.rs:910-1078 | For every cap and every target at or above the shard level: there is an answer if and only if every shard in its range that starts before the cut gives its root or lies below a hash of the cap that may be used. |
| RootCaches.RootInternalErrors | shardtree/src/lib.rs:910-1078 | The error is exactly what the shards lack for some node at or below the target. |
| RootCaches.CapAnswers | shardtree/src/lib.rs:910-1078 | A node that the cap can compute by itself is answered, whatever the shards hold. |
| RootCaches.CachesAnswer | shardtree/src/lib.rs:852-871 | What was asked for is remembered: a node at or above the shard level that ends by the cut can be computed from the cap alone afterwards. |
| RootCaches.HashesStay | shardtree/src/lib.rs:852-871 | Every hash that the cap holds in a leaf stays. |
| RootCaches.RememberedIff | shardtree/src/lib.rs:910-1078 | For every answered request and every cap: whether the root of the cap can be computed from it afterwards, as a condition on cap and request. |
| RootCaches.RememberedAt | shardtree/src/lib.rs:910-1078 | The same for every node of the cap at or above the target: an annotation above it goes, and then the other children have to be computed. |
| RootCaches.CachingForgets | shardtree/src/lib.rs:938-985 | A hash in an annotation need not: in a concrete cap, asking for a child forgets that of the parent. |
| RootCaches.UncachedKnows | shardtree/src/lib.rs:910-1078 | Without a cache there is an answer only then. |
| RootCaches.CachedEqualsUncached | shardtree/src/lib.rs:852-871 | Answers from the shards alone are given unchanged through any consistent cap, before and after the replacement is stored. |
| RootCaches.BelowShardLevelCachesWrongHash | shardtree/src/lib.rs:1047-1059 | A concrete tree in which a target below the shard level stores that target's hash for the whole shard. |
| RootCaches.BelowShardLevelIff | shardtree/src/lib.rs:910-1078 | The exact condition for a target below the shard level: what is written back is true if and only if the shard already had a hash in the cap, or was not asked for to its end, or has the same hash as the target. |
| RootCaches.KeepsCapIff | shardtree/src/lib.rs:910-1078 | For every target and every consistent cap: the cap stays consistent if and only if a condition on the request, stated before the call, holds. |
| RootCaches.ViewOfPrefix | shardtree/src/prunable.rs:729-776 | A tree consistent with some leaves is consistent with a prefix exactly when none of its hashes reaches beyond it. |
| ExcessCheckpoints.OwedIff | shardtree/src/lib.rs:588-691 | A flag is owed at a position exactly if some of the checkpoints has its last leaf there or lists it as a removed mark. |
| ExcessCheckpoints.ClearAtExact | shardtree/src/lib.rs:588-691 | One update of the nested map changes the pending flags of that position only. |
| ExcessCheckpoints.CollectOne | shardtree/src/lib.rs:588-691 | One checkpoint adds, or takes back, exactly what it owes. |
| ExcessCheckpoints.CollectOver | shardtree/src/lib.rs:588-691 | The loop over all checkpoints accounts for each of them. |
| ExcessCheckpoints.Collect | shardtree/src/lib.rs:588-691 | The flags to clear are exactly those owed by removed checkpoints and not by retained ones. |
| ExcessCheckpoints.EntriesExact | shardtree/src/lib.rs:588-691 | The list handed to a shard holds for each position exactly its pending flags. |
| ExcessCheckpoints.WantedExact | shardtree/src/lib.rs:588-691 | That list is sorted, within the shard, and exact. |
| ShardStates.NextShardOk | shardtree/src/lib.rs:304-352 | The shard chosen for the next leaf is the one of its position. |
| ShardStates.AppendedFilled | shardtree/src/lib.rs:304-352 | Placing the next leaf gives shards that hold exactly the longer sequence, with exactly its flags added. |
| ShardStates.TippedFilled | shardtree/src/lib.rs:492-578 | Checkpointing flags exactly the last leaf. |
| ShardStates.TruncatedFilled | shardtree/src/lib.rs:738-789 | Cutting back to a flagged position leaves exactly the leaves up to it, with their flags. |
| ShardStates.ClearedFilled | shardtree/src/lib.rs:588-691 | Clearing keeps the leaves and takes away exactly the pending flags. |
| ShardStates.PanicsIff | shardtree/src/lib.rs:588-691 | Some shard panics exactly when two positions to clear lie under one pruned leaf. |
| ShardStates.NoPanicWhenFlagged | shardtree/src/lib.rs:588-691 | None does as long as every flag to clear is still there. |
| ShardStates.RecordedBack | shardtree/src/lib.rs:738-789 | Going back to a checkpoint, the earlier ones still stand for prefixes of what is left. |
| ShardStates.RootAnswered | shardtree/src/lib.rs:819-837 | At the tip and after every flagged leaf, every root at or above the shard level is answered. |
| ShardStates.ShardWitness | shardtree/src/lib.rs:1324-1351 | Within its shard a leaf has a witness exactly when the shard has a height and the leaf is marked; it consists of the true sibling hashes. |
| ShardTrees.KeepsAtMost | shardtree/src/lib.rs:588-691 | At most the maximum of checkpoints is left, and none is dropped needlessly. |
| ShardTrees.KeepsTheLatest | shardtree/src/lib.rs:588-691 | Those left are later than those removed. |
| ShardTrees.AppendLeafOk | shardtree/src/prunable.rs:964-985 | A leaf appended to the next shard lands right after the others. |
| ShardTrees.PruneKeeps | shardtree/src/lib.rs:588-691 | Pruning keeps the leaves, the retained checkpoints and what they stand for. |
| ShardTrees.IsFullTree | shardtree/src/lib.rs:304-352 | The test for a full tree is right: the last shard is full and has the greatest index exactly when every leaf is present. |
| ShardTrees.CapAfter | shardtree/src/lib.rs:738-789 | After truncation the cap is true of the remaining leaves exactly when none of the hashes left in it reaches beyond them. |
| ShardTrees.StaleCap | shardtree/src/lib.rs:768-772 | A concrete tree whose cap is left alone by a truncation and then answers the root of leaves that are gone. |
| ShardTrees.ShardTree.constructor | shardtree/src/lib.rs:115-120 | The tree over an empty store. |
| ShardTrees.ShardTree.ClearOne | shardtree/src/lib.rs:588-691 | Clears the pending flags of one shard; panics only if that shard does. |
| ShardTrees.ShardTree.RemoveCheckpoints | shardtree/src/lib.rs:588-691 | Removes exactly the given checkpoints. |
| ShardTrees.ShardTree.PutLeaf | shardtree/src/lib.rs:304-352 | Before pruning, a leaf and its checkpoint are added and every other flag is as it was. |
| ShardTrees.ShardTree.PruneExcess | shardtree/src/lib.rs:588-691 | Keeps exactly the latest checkpoints and clears exactly the flags that only the others kept alive; panics exactly when two positions collide. |
| ShardTrees.ShardTree.ClearShards | shardtree/src/lib.rs:588-691 | Clears the pending flags of every shard that has some. |
| ShardTrees.ShardTree.Append | shardtree/src/lib.rs:304-352 | Refuses exactly identifiers out of order and full trees; otherwise adds the leaf with its flags and checkpoint and prunes. |
| ShardTrees.ShardTree.AddCheckpoint | shardtree/src/lib.rs:492-578 | Refuses exactly identifiers not greater than all stored ones; otherwise flags the last leaf, records the present leaves and prunes. |
| ShardTrees.ShardTree.TruncateToCheckpoint | shardtree/src/lib.rs:722-789 | Restores exactly the leaves, flags and checkpoints there were; false exactly for an unknown checkpoint. The cap is cut off after the leaves that are left if one of its leaves ends there, and otherwise stays as it was; it is then true exactly if no hash in it reaches beyond them. |
| ShardTrees.ShardTree.TruncateToCheckpointDepth | shardtree/src/lib.rs:702-716 | The same for the checkpoint at a depth. |
| ShardTrees.ShardTree.RemoveMark | shardtree/src/lib.rs:1507-1556 | Defers to the given checkpoint or clears at once; true exactly when the leaf is marked and the checkpoint, if deferred, exists. |
| ShardTrees.ShardTree.Root | shardtree/src/lib.rs:819-837 | With a true cap, every root answered is the true one, and at or above the shard level all are answered at the tip and after flagged leaves. Whatever the cap holds, there is an answer exactly if the condition of `RootInternalIff` holds, and the error is exactly what is lacking. |
| ShardTrees.ShardTree.RootCaching | shardtree/src/lib.rs:852-871 | The same while writing back: what was asked for can then be computed from the cap alone, and every hash that the cap held in a leaf still can; the cap stays true if and only if the condition of `KeepsCapIff` held before the call. |
| ShardTrees.ShardTree.GetFrontier | shardtree/src/lib.rs:203-241 | On every reachable tree: empty exactly for no leaves; otherwise it succeeds if and only if the last leaf is still a leaf of its own, and under a true cap it is the frontier of all the leaves. |
| ShardTrees.ShardTree.MaxLeafPosition | shardtree/src/lib.rs:1201-1225 | The last position as of a checkpoint, or of the present leaves. |
| ShardTrees.ShardTree.RootUpTo | shardtree/src/lib.rs:1231-1245 | The root over the leaves up to a position at which the tree can be truncated, or over none. |
| ShardTrees.ShardTree.RootAtCheckpointId | shardtree/src/lib.rs:1231-1245 | The root over the leaves there were; never fails for a stored checkpoint. |
| ShardTrees.ShardTree.RootAtCheckpointDepth | shardtree/src/lib.rs:1275-1293 | The same for a depth, or for all leaves. |
| ShardTrees.ShardTree.WitnessInShard | shardtree/src/lib.rs:1324-1351 | The part of the path within the shard exists exactly when the shard has a height and the leaf is marked; the error lists exactly what the shard lacks for it. |
| ShardTrees.ShardTree.WitnessInternal | shardtree/src/lib.rs:1324-1365 | Shard path, then sibling roots above: the true sibling hashes, and it exists exactly when shards have a height and the leaf is marked; the error is that of the shard. |
| ShardTrees.ShardTree.WitnessAtCheckpointId | shardtree/src/lib.rs:1442-1464 | Exists exactly for marked leaves within the checkpoint, in trees whose shards have a height; consists of the true sibling hashes there and folds to the checkpoint's root; the error says that the leaf is later than the checkpoint, or lists exactly what its shard lacks. |
| ShardTrees.ShardTree.WitnessAtCheckpointDepth | shardtree/src/lib.rs:1386-1406 | The same for a depth. |
| ShardTrees.RemovingAMarkTwicePanics | shardtree/src/lib.rs:1507-1556 | A concrete run on a tree that keeps one checkpoint: a mark is removed as of the checkpoint and again at once, a leaf is appended, and the next checkpoint panics while pruning. |
| ShardTrees.RemovingAMarkLosesFrontier | shardtree/src/lib.rs:203-241 | A concrete run: the frontier of a marked and a checkpointed leaf is given; once the mark is removed the two are pruned into one and the frontier is refused. |
| ShardTrees.RemovedTwice | shardtree/src/lib.rs:1507-1556 | Both removals of that run succeed, and the leaf pair is pruned to one leaf while the checkpoint still lists the mark. |
| Batches.AgreeAbove | incrementalmerkletree/src/lib.rs:439-458 | Two indices agree after dropping k bits exactly if their exclusive or has at most k bits. |
| Batches.CommonAncestorLeast | incrementalmerkletree/src/lib.rs:439-458 | The common ancestor contains both addresses and nothing lower does. |
| Batches.PushLeaf | shardtree/src/batch.rs:185-254 | Adding a leaf unites as many fragments as possible; the stack stays a row of trees that together hold the leaves so far, each labelled with the mark of its last leaf alone, and each pruned exactly below the given level. |
| Batches.JoinPieces | shardtree/src/batch.rs:262-276 | Joining two sibling trees gives a consistent tree at their parent, with the empty nodes of both. |
| Batches.PadPiece | shardtree/src/batch.rs:283-306 | Joining with an empty sibling gives a consistent tree at the parent, with that sibling as the one new empty node. |
| Batches.JoinCompact | shardtree/src/batch.rs:262-276 | Joining prunes what can be pruned below the given level, and nothing at or above it. |
| Batches.IncompleteExact | shardtree/src/tree.rs:151-172 | What a report is compared with lists exactly the empty nodes of the tree, each once and from left to right. |
| Batches.ConsumeValues | shardtree/src/batch.rs:185-254 | The loop takes exactly the values that fit the range; an identifier is recorded exactly if some of them carries it, with the position of the last one that does. |
| Batches.NextPosition | shardtree/src/batch.rs:204-207 | One value more: the position of the last carrier of each identifier stays exact. |
| Batches.MergeFromRight | shardtree/src/batch.rs:312-385 | The first phase pads and merges from the right, keeping consistency, reporting every empty node, and taking into the flag exactly the labels of the fragments near the end of the batch. |
| Batches.FoldFromLeft | shardtree/src/batch.rs:312-385 | Folding the remaining, lower fragments from the left ends next to the current tree and gives one tree at its parent, with every empty node reported; the flag takes in exactly the fragments near the start. |
| Batches.BuildMinimalTree | shardtree/src/batch.rs:312-385 | One tree at the given root, consistent with the leaves, whose empty nodes are exactly those reported; none of the assertions fails, and the flag is that of the fragments near either end. |
| Batches.FromIter | shardtree/src/batch.rs:185-254 | For any start and any number of values: none exactly if no value fits; else as many values are taken as fit, giving a tree at the least common ancestor of first and last position, consistent with the leaves, pruned exactly below the given level, with exactly its empty nodes reported, the values left over, each identifier that some item carries, and no other, recorded with the position of the last one that does, and `contains_marked` exactly if some block that the two passes take notice of ends in a marked leaf. |
| Batches.HeldLeaves | shardtree/src/batch.rs:185-254 | In the tree over a batch every position of the batch lies below a leaf, and every marked one is a leaf of its own at level 0. |
| Batches.SeenIff | shardtree/src/batch.rs:185-385 | The fragments are exactly the largest nodes whose leaves are all in the batch, so what the flag says can be read off the batch: a marked leaf counts exactly if it ends such a node, and that node is padded up to from the left or met from the right. |
| Batches.MarkSeenIsMark | shardtree/src/batch.rs:96-97 | The flag is never set without a marked leaf, and always when the last leaf is marked. |
| Batches.FlagMissesMark | shardtree/src/batch.rs:96-97 | A concrete batch whose tree contains a marked leaf while `contains_marked` is false. |
| Batches.BatchInsert | shardtree/src/batch.rs:140-166 | Into a tree consistent with the same leaves a batch never conflicts, gives the consistent tree that inserting the tree over the batch gives, and keeps its computable root. Every leaf of the batch is there afterwards with its flags (but perhaps the reference flag), unless the tree reached further down there already than the pruned batch; marked leaves always are. An identifier is recorded exactly if some leaf carries it, at the last one. It reports exactly the empty nodes of the tree over the batch and those the insertion adds; a batch of one is the insertion of its leaf. |
| Batches.BatchLands | shardtree/src/batch.rs:140-166 | What becomes of one leaf of the batch. |
| FrontierTrees.BuildSubtree | shardtree/src/prunable.rs:1003-1066 | The loop below the split level uses exactly the ommers below it. |
| FrontierTrees.BuildSupertree | shardtree/src/prunable.rs:1003-1066 | The loop above it uses the rest; there is a supertree exactly if ommers are left. |
| FrontierTrees.FromFrontierParts | shardtree/src/prunable.rs:1003-1066 | The frontier as a partial tree: one spine to the leaf, each ommer at the left sibling it is the root of. |
| FrontierTrees.SpineOmmers | shardtree/src/prunable.rs:1193-1247 | Reading a spine back gives exactly its position, leaf and ommers. |
| FrontierTrees.CapGivesOmmer | shardtree/src/lib.rs:203-241 | The root of a left sibling above the shard is read from the cap as the ommer stored there. |
| FrontierTrees.InsertFrontierNodes | shardtree/src/lib.rs:395-436 | Into a store and with a frontier that are true of the same leaves the insertion always succeeds, and leaves the store true of them; an empty store then holds just the frontier. Whatever the store holds, after every insertion the leaf is there with its flags (but perhaps the reference flag), every other flag of the shard is as `InsertExact` says, every left sibling on the way up is known wherever the way up is not cut off by a pruned leaf, and no other shard has changed; the checkpoint is recorded if asked for. A frontier beyond the tree is refused; a refused insertion leaves cap and checkpoints as they were. |
| FrontierTrees.InsertIntoTree | shardtree/src/prunable.rs:1079-1101 | Into one shard: out of range exactly if the position is; otherwise the lower part is inserted and the upper part handed back. |
| FrontierTrees.BeyondTree | shardtree/src/lib.rs:415-423 | The upper part of a frontier beyond the tree is refused by the cap. |
| FrontierTrees.LowerLands | shardtree/src/lib.rs:404-414 | What the insertion makes of the shard: the flags at every position, and every left sibling within it on a way up that is not cut off. |
| FrontierTrees.UpperLands | shardtree/src/lib.rs:415-423 | What it makes of the cap: every left sibling above the shards, and no position newly covered. |
| FrontierTrees.WholeInsertion | shardtree/src/lib.rs:395-436 | Both together, and that the store stays true and, if it was empty, holds just the frontier. |
| FrontierTrees.LandedKnows | shardtree/src/lib.rs:395-436 | After an insertion the tree gives the root of every left sibling that meets an open part of the way up. |
| FrontierTrees.TipIsLast | shardtree/src/prunable.rs:1193-1247 | The way down the right ends at a position exactly if that is a leaf of its own and everything to the right of the path is empty. |
| FrontierTrees.FrontierComesBack | shardtree/src/lib.rs:203-436 | If nothing lies after its leaf, that is a leaf of its own, and the cap did not cover it before, then the frontier that was inserted is the one that is extracted. |
| FrontierTrees.FrontierLostInCap | shardtree/src/lib.rs:415-423 | A concrete store whose cap does cover the leaf: the insertion prunes the left sibling away and the frontier can not be extracted. |
| FrontierTrees.ExtractFrontier | shardtree/src/lib.rs:203-241 | The loop up from the last shard finds the parts read from it and all left sibling roots above it, or the first error; its closing check never refuses them. |
| FrontierTrees.ExtractedWellFormed | shardtree/src/lib.rs:236-240 | Whatever the store holds, the parts found make up a frontier within the tree, so the check that closes `frontier` never fails. |
| FrontierTrees.ExtractedSound | shardtree/src/lib.rs:203-241 | Whatever is extracted from a store that is true of some leaves is the frontier of those leaves up to its position. |
| FrontierTrees.ExtractedIff | shardtree/src/lib.rs:203-241 | For every store: extraction succeeds if and only if there is nothing in the last shard, or its path down the right ends in a leaf at level 0, whose position is then that of the frontier, and the tree gives the root of every left sibling on the way up from that leaf. Otherwise the error names the node in which the path ends, or the first left sibling that is not known, or what the shards lack for it. |
| FrontierTrees.FilledExtracts | shardtree/src/lib.rs:203-241 | From shards that hold exactly the leaves, extraction succeeds, whatever the cap, if and only if the last leaf has not been pruned with its sibling; under a true cap the result is the frontier of all the leaves. |
| FrontierTrees.HeldExtracts | shardtree/src/lib.rs:203-241 | From a store that holds just a frontier exactly that frontier is extracted. |
| FrontierTrees.SpineConsistent | shardtree/src/prunable.rs:1003-1066 | The trees built from the frontier of some leaves are true of every longer sequence. |
| FrontierTrees.InsertFitsAbove | shardtree/src/lib.rs:415-423 | Inserting the upper part leaves the cap without parents at or below the shard level. |
| FrontierTrees.FrontierRoundTrip | shardtree/src/lib.rs:203-436 | Inserting any frontier into an empty tree and extracting the frontier gives it back, within one shard or across shard and cap. |

## Left out

- `LocatedTree` and `Tree` printing, `Display` and `Debug`, tracing, `Arc` sharing, generators for tests: no property.
- `shardtree/src/legacy.rs`: repeats the insertion argument on data kept for migration only.
- `u64` overflow, levels of 64 and more, and the `usize` conversions: positions and levels are unbounded.
- Storage errors and the traits a store is used through: the stores here are total and in memory.
- Checkpoint identifiers are integers: the source only needs their order.
- `prune` with the level of the root: for a level-sensitive `combine` it computes another hash, so root preservation is claimed only for `unite` with the level of the children.
- `required_for_witness`: for the nodes that an insertion reports it is stated by `InsertReports`; for those that the tree over a batch reports it is computed as the source does, from the same labels as `contains_marked`, but nothing is proved about it.
- `ShardTree::insert`, `insert_tree`, `insert_frontier` of an empty frontier, and batches over several shards: only their parts (`Insert`, `InsertFrontierNodes`, `BatchInsert`) are modelled, not the pruning that follows.
- `marked_positions`, `get_marked_leaf`, `current_position` and the caching variants of the queries by checkpoint: they would only add easy members.
- The state a panic leaves behind: after `Panicked` nothing is claimed about a tree.
- `MerkleBridge`, `NonEmptyFrontier` and the slots of a commitment tree are values that their owners replace; updating them in place is not captured.
- `Agreements.RunsAgree`: removes marks as of the latest checkpoint, as the repository's own adapter does; removals as of an older one are covered call by call in `ShardTrees`, not over runs.
- `ShardTree.TruncateToCheckpoint`: the cap stays true only under the condition of `CapAfter`; nothing is claimed for a cap that does not.
- `BridgeTrees.BridgeTree.FromFrontier`: continues only from a frontier of some leaf sequence; the source takes any ommers, over which no root has a meaning to compare with.
- `FrontierTrees.InsertFrontierNodes`: stops before the pruning that follows when there are more checkpoints than the tree keeps.
- `BridgeAgreements.BridgeRunsAgree`: the interface that the bridge tree is tested through removes the checkpoint it rewinds to, the reference tree keeps it; going back is therefore so many rewinds and one more, and the checkpoint added again. The reference tree is that of the repository, not the older published one that the bridge tree's tests pin. A maximum of 0 checkpoints is left out, because the bridge tree refuses one.
- `Batches.BatchInsert`: stores nothing; recording the checkpoints of a batch in a store is left out.
