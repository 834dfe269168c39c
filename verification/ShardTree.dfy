/** `ShardTree` (`shardtree/src/lib.rs`): the state machine over a shard store. Its ghost state is the
    sequence of appended leaves and, for every stored checkpoint, the leaves there were at that time. */
module ShardTrees {

  import opened Basics
  import opened Merkle
  import opened PrunableTrees
  import opened Pruning
  import opened MissingNodes
  import opened DenseTrees
  import opened Stores
  import opened Caps
  import opened RootCaches
  import opened ExcessCheckpoints
  import opened ShardStates
  import Frontiers
  import Insertions
  import opened FrontierTrees

  // ---------- Retention ----------

  datatype Marking = Unmarked | AsMark | AsReference

  datatype Retention = Ephemeral | CheckpointAt(id: int, marking: Marking) | Marked | Reference

  function FlagsOf(retention: Retention): (flags: Flags)
    ensures flags.checkpoint <==> retention.CheckpointAt?
    ensures flags.marked <==> retention.Marked? || (retention.CheckpointAt? && retention.marking.AsMark?)
    ensures flags.reference <==> retention.Reference? || (retention.CheckpointAt? && retention.marking.AsReference?)
  {
    match retention
    case Ephemeral => EPHEMERAL
    case CheckpointAt(_, marking) => CHECKPOINT.Or(
        match marking
        case Unmarked => EPHEMERAL
        case AsMark => MARKED
        case AsReference => REFERENCE)
    case Marked => MARKED
    case Reference => REFERENCE
  }

  /** A map with the checkpoint of the retention added, if it asks for one. */
  function WithCheckpoint<V>(m: map<int, V>, retention: Retention, v: V): map<int, V>
  {
    if retention.CheckpointAt? then m[retention.id := v] else m
  }

  /** A checkpoint whose identifier is not greater than every stored one. */
  predicate OutOfSequence(retention: Retention, checkpoints: map<int, Checkpoint>)
  {
    retention.CheckpointAt? && exists id :: id in checkpoints && id >= retention.id
  }

  /** What remains of a map over checkpoint identifiers after pruning. */
  function KeptOnly<V>(m: map<int, V>, checkpoints: map<int, Checkpoint>, max: nat): map<int, V>
  {
    map id | id in m && id !in Removed(checkpoints, max) :: m[id]
  }

  lemma SplitAscending(ids: seq<int>, k: nat)
    requires Ascending(ids) && k <= |ids|
    ensures forall x, y | x in ids[0..k] && y in ids[k..|ids|] :: x < y
    ensures forall x :: x in ids <==> x in ids[0..k] || x in ids[k..|ids|]
    ensures Ascending(ids[k..|ids|])
  {
    assert ids == ids[0..k] + ids[k..|ids|];
  }

  /** The two parts into which pruning splits the identifiers. */
  lemma KeptIff(checkpoints: map<int, Checkpoint>, max: nat, id: int)
    ensures id in Kept(checkpoints, max) <==> id in checkpoints && id !in Removed(checkpoints, max)
    ensures id in Kept(checkpoints, max) ==> forall x | x in Removed(checkpoints, max) :: x < id
  {
    IdsInOrder(checkpoints, max);
    var ids := InOrder(checkpoints.Keys);
    SplitAscending(ids, RemoveCount(checkpoints, max));
    assert id in ids <==> id in checkpoints.Keys;
  }

  lemma {:induction false} SetOfAscending(ids: seq<int>)
    requires Ascending(ids)
    ensures |set id | id in ids| == |ids|
  {
    if ids != [] {
      var before, last := ids[..|ids| - 1], ids[|ids| - 1];
      SetOfAscending(before);
      assert (set id | id in ids) == (set id | id in before) + {last};
    }
  }

  lemma RemainingIds(checkpoints: map<int, Checkpoint>, max: nat)
    ensures KeptOnly(checkpoints, checkpoints, max).Keys == set id | id in Kept(checkpoints, max)
  {
    forall id ensures id in KeptOnly(checkpoints, checkpoints, max).Keys <==> id in Kept(checkpoints, max) {
      KeptIff(checkpoints, max, id);
    }
  }

  /** At most `max` checkpoints remain, ... */
  lemma KeepsAtMost(checkpoints: map<int, Checkpoint>, max: nat)
    ensures |KeptOnly(checkpoints, checkpoints, max)| == if |checkpoints| > max then max else |checkpoints|
  {
    RemainingIds(checkpoints, max);
    IdsInOrder(checkpoints, max);
    SplitAscending(InOrder(checkpoints.Keys), RemoveCount(checkpoints, max));
    SetOfAscending(Kept(checkpoints, max));
    SameSize(KeptOnly(checkpoints, checkpoints, max));
  }

  lemma SameSize<V>(m: map<int, V>)
    ensures |m| == |m.Keys|
  {
  }

  /** ... and they are the latest ones. */
  lemma KeepsTheLatest(checkpoints: map<int, Checkpoint>, max: nat, removed: int, kept: int)
    requires removed in Removed(checkpoints, max) && kept in KeptOnly(checkpoints, checkpoints, max)
    ensures removed < kept
  {
    KeptIff(checkpoints, max, kept);
  }

  /** What remains of a map over checkpoint identifiers after going back to one of them. */
  function UpTo<V>(m: map<int, V>, id: int): map<int, V>
  {
    map i | i in m && i <= id :: m[i]
  }

  /** Whether removing a mark as of a checkpoint waits for that checkpoint to be pruned. */
  ghost predicate Defers(asOf: Option<int>, checkpoints: map<int, Checkpoint>)
  {
    asOf.Some? && (checkpoints == map[] || exists i :: i in checkpoints && i <= asOf.value)
  }

  // ---------- Appending to a shard ----------

  /** `LocatedPrunableTree::append`: puts a leaf at the first position after every other. */
  function AppendLeaf<H(==)>(hs: Hashable<H>, shard: Located<H>, value: H, flags: Flags)
      : Result<(Located<H>, nat), InsertionError>
    requires Fits(shard.addr.level, shard.root)
  {
    var max := MaxPosition(shard.addr.level, shard.addr.index, shard.root);
    var position := if max.Some? then max.value + 1 else shard.addr.RangeStart();
    if !shard.addr.ContainsPosition(position) then Err(OutOfRange(position))
    else
      match InsertSubtree(hs, shard, Located(Address(0, position), Leaf(value, flags)), flags.marked)
      case Err(e) => Err(e)
      case Ok((grown, _)) => Ok((grown, position))
  }

  /** Appending to the next shard of a filled sequence puts the leaf right after the others. */
  lemma AppendLeafOk<H>(hs: Hashable<H>, sh: nat, leaves: seq<H>, shards: seq<Located<H>>, value: H, flags: Flags)
    requires Filled(hs, sh, leaves, shards)
    ensures Fits(sh, NextShard(sh, shards).root) && NextShard(sh, shards).addr == Address(sh, Above(sh, |leaves|))
    ensures Above(sh, |leaves|) <= |shards|
    ensures var r := AppendLeaf(hs, NextShard(sh, shards), value, flags);
            && r.Ok? && r.value.1 == |leaves| && r.value.0.addr == Address(sh, Above(sh, |leaves|))
            && var i := Above(sh, |leaves|);
               var updated := if i < |shards| then shards[i := r.value.0] else shards + [r.value.0];
               && Filled(hs, sh, leaves + [value], updated)
               && forall p: nat :: FlagsAt(sh, updated, p) == if p == |leaves| then flags else FlagsAt(sh, shards, p)
  {
    NextShardOk(hs, sh, leaves, shards);
    var next, i := NextShard(sh, shards), Above(sh, |leaves|);
    AppendedShard(hs, sh, leaves, i, next.root, value, flags);
    var r := AppendLeaf(hs, next, value, flags);
    var updated := if i < |shards| then shards[i := r.value.0] else shards + [r.value.0];
    AppendedFilled(hs, sh, leaves, shards, value, flags, r.value.0, updated);
  }

  // ---------- What each step keeps ----------

  lemma PutNext<H>(s: Store<H>, shard: Located<H>)
    requires shard.addr.index <= |s.shards|
    ensures s.PutShard(shard).shards ==
      if shard.addr.index < |s.shards| then s.shards[shard.addr.index := shard] else s.shards + [shard]
  {
    var padded := Padded(s.shards, shard.addr);
    if shard.addr.index == |s.shards| { assert padded[..|s.shards|] == s.shards; }
  }

  lemma AppendKeeps<H>(hs: Hashable<H>, depth: nat, sh: nat, leaves: seq<H>, saved: map<int, seq<H>>, s: Store<H>,
                       value: H, flags: Flags)
    requires TreeOk(hs, depth, sh, leaves, saved, s) && |leaves| < End(depth, 0)
    ensures Fits(sh, NextShard(sh, s.shards).root) && NextShard(sh, s.shards).addr == Address(sh, Above(sh, |leaves|))
    ensures var r := AppendLeaf(hs, NextShard(sh, s.shards), value, flags);
            && r.Ok? && r.value.1 == |leaves|
            && var after := s.PutShard(r.value.0);
               && TreeOk(hs, depth, sh, leaves + [value], saved, after)
               && forall p: nat ::
                 FlagsAt(sh, after.shards, p) == if p == |leaves| then flags else FlagsAt(sh, s.shards, p)
  {
    AppendLeafOk(hs, sh, leaves, s.shards, value, flags);
    var r := AppendLeaf(hs, NextShard(sh, s.shards), value, flags);
    PutNext(s, r.value.0);
    var after := s.PutShard(r.value.0);
    RecordedKept(sh, leaves, saved, s.shards, s.checkpoints, leaves + [value], after.shards);
  }

  lemma AddKeeps<H>(hs: Hashable<H>, depth: nat, sh: nat, leaves: seq<H>, saved: map<int, seq<H>>, s: Store<H>, id: int,
                    c: Checkpoint)
    requires TreeOk(hs, depth, sh, leaves, saved, s) && forall i | i in s.checkpoints :: i < id
    requires CheckpointOk(sh, leaves, s.shards, leaves, c)
    ensures TreeOk(hs, depth, sh, leaves, saved[id := leaves], s.AddCheckpoint(id, c))
  {
    RecordedNow(sh, leaves, saved, s.shards, s.checkpoints, id, c);
  }

  lemma TipKeeps<H>(hs: Hashable<H>, depth: nat, sh: nat, leaves: seq<H>, saved: map<int, seq<H>>, s: Store<H>)
    requires TreeOk(hs, depth, sh, leaves, saved, s) && leaves != []
    ensures var i := |s.shards| - 1;
            && i >= 0 && Fits(sh, s.shards[i].root) && s.shards[i].addr == Address(sh, i)
            && var r := MarkTip(hs, sh, i, s.shards[i].root);
               && r.Some? && r.value.1 == |leaves| - 1
               && var after := s.PutShard(Located(Address(sh, i), r.value.0));
                  && TreeOk(hs, depth, sh, leaves, saved, after)
                  && forall p: nat :: FlagsAt(sh, after.shards, p) ==
                       if p == |leaves| - 1 then FlagsAt(sh, s.shards, p).Or(CHECKPOINT) else FlagsAt(sh, s.shards, p)
  {
    TippedFilled(hs, sh, leaves, s.shards);
    var i := |s.shards| - 1;
    var shard := Located(Address(sh, i), MarkTip(hs, sh, i, s.shards[i].root).value.0);
    PutNext(s, shard);
    RecordedKept(sh, leaves, saved, s.shards, s.checkpoints, leaves, s.PutShard(shard).shards);
  }

  /** Pruning keeps the leaves, the retained checkpoints and what they stand for. */
  lemma PruneKeeps<H>(hs: Hashable<H>, depth: nat, sh: nat, leaves: seq<H>, saved: map<int, seq<H>>, s: Store<H>,
                      max: nat, clear: Clears, after: Store<H>)
    requires TreeOk(hs, depth, sh, leaves, saved, s) && Placed(clear, sh)
    requires forall p: nat :: Pending(clear, sh, p) == Cleared(s.checkpoints, max, p)
    requires ClearedShards(hs, sh, clear, s.shards, after.shards)
    requires after.cap == s.cap && after.checkpoints == KeptOnly(s.checkpoints, s.checkpoints, max)
    ensures TreeOk(hs, depth, sh, leaves, KeptOnly(saved, s.checkpoints, max), after)
    ensures forall p: nat ::
      FlagsAt(sh, after.shards, p) == FlagsAt(sh, s.shards, p).Minus(Cleared(s.checkpoints, max, p))
  {
    ClearedAreCheckpoints(sh, leaves, saved, s.shards, s.checkpoints, max, clear);
    ClearedFilled(hs, sh, leaves, clear, s.shards, after.shards);
    var kept := KeptOnly(saved, s.checkpoints, max);
    forall id | id in after.checkpoints
      ensures CheckpointOk(sh, leaves, after.shards, kept[id], after.checkpoints[id])
    {
      assert CheckpointOk(sh, leaves, s.shards, saved[id], s.checkpoints[id]);
      RetainedStays(s.checkpoints, max, id);
    }
  }

  /** Checkpoint flags are cleared only at positions of checkpoints, which are flagged. */
  lemma ClearedAreCheckpoints<H>(sh: nat, leaves: seq<H>, saved: map<int, seq<H>>, shards: seq<Located<H>>,
                                 checkpoints: map<int, Checkpoint>, max: nat, clear: Clears)
    requires Recorded(sh, leaves, saved, shards, checkpoints)
    requires forall p: nat :: Pending(clear, sh, p) == Cleared(checkpoints, max, p)
    ensures Clearable(sh, clear, shards)
  {
    var ids := Removed(checkpoints, max);
    forall p: nat | Pending(clear, sh, p).checkpoint ensures FlagsAt(sh, shards, p).checkpoint {
      assert Pending(clear, sh, p) == Cleared(checkpoints, max, p);
      OwedIff(checkpoints, ids, p);
      var i :| 0 <= i < |ids| && checkpoints[ids[i]].treeState == AtPosition(p);
      assert CheckpointOk(sh, leaves, shards, saved[ids[i]], checkpoints[ids[i]]);
    }
  }

  /** The checkpoint flag of a retained checkpoint is not cleared. */
  lemma RetainedStays(checkpoints: map<int, Checkpoint>, max: nat, id: int)
    requires id in checkpoints && id !in Removed(checkpoints, max)
    ensures checkpoints[id].treeState.AtPosition? ==>
      !Cleared(checkpoints, max, checkpoints[id].treeState.position).checkpoint
  {
    KeptIff(checkpoints, max, id);
    var ids := Kept(checkpoints, max);
    if checkpoints[id].treeState.AtPosition? {
      var i :| 0 <= i < |ids| && ids[i] == id;
      OwedIff(checkpoints, ids, checkpoints[id].treeState.position);
    }
  }

  /** An empty cap is true of any leaves. */
  lemma NilCap<H>(hs: Hashable<H>, depth: nat, sh: nat, leaves: seq<H>)
    requires sh <= depth
    ensures CapOk(hs, leaves, sh, Address(depth, 0), Tree<H>.Nil) && HashesEndBy(depth, 0, Tree<H>.Nil, |leaves|)
  {
  }

  lemma TruncateNil<H>(hs: Hashable<H>, level: nat, index: nat, position: nat)
    ensures var r := TruncateTo(hs, level, index, Tree<H>.Nil, position); r.Some? ==> r.value == Nil
  {
  }

  /** The stores before and after going back to a checkpoint. */
  lemma TruncateKeeps<H>(hs: Hashable<H>, depth: nat, sh: nat, leaves: seq<H>, saved: map<int, seq<H>>, s: Store<H>,
                         id: int, position: nat, cap: Tree<H>)
    requires TreeOk(hs, depth, sh, leaves, saved, s) && id in s.checkpoints
      && s.checkpoints[id].treeState == AtPosition(position)
    requires Fits(depth - sh, cap)
    ensures id in saved && position < |leaves| && saved[id] == leaves[..position + 1]
    ensures Above(sh, position) < |s.shards| && Fits(sh, s.shards[Above(sh, position)].root)
    ensures var i := Above(sh, position);
            var r := TruncateTo(hs, sh, i, s.shards[i].root, position);
            && r.Some?
            && var after := s.PutCap(cap).TruncateShards(i).PutShard(Located(Address(sh, i),
                                                                             r.value)).TruncateCheckpointsRetaining(id);
               && TreeOk(hs, depth, sh, saved[id], UpTo(saved, id), after)
               && forall p: nat ::
                 FlagsAt(sh, after.shards, p) == if p <= position then FlagsAt(sh, s.shards, p) else EPHEMERAL
  {
    assert CheckpointOk(sh, leaves, s.shards, saved[id], s.checkpoints[id]);
    TruncatedFilled(hs, sh, leaves, s.shards, position);
    var i := Above(sh, position);
    var shard := Located(Address(sh, i), TruncateTo(hs, sh, i, s.shards[i].root, position).value);
    var cut := s.PutCap(cap).TruncateShards(i);
    PutNext(cut, shard);
    var after := cut.PutShard(shard).TruncateCheckpointsRetaining(id);
    assert after.shards == s.shards[..i] + [shard];
    RecordedBack(sh, leaves, saved, s.shards, s.checkpoints, id, after.shards, after.checkpoints, UpTo(saved, id));
  }

  lemma EmptyKeeps<H>(hs: Hashable<H>, depth: nat, sh: nat, leaves: seq<H>, saved: map<int, seq<H>>,
                      s: Store<H>, id: int)
    requires TreeOk(hs, depth, sh, leaves, saved, s) && id in s.checkpoints
      && s.checkpoints[id].treeState == TreeState.Empty
    ensures id in saved && saved[id] == []
    ensures TreeOk(hs, depth, sh, [], UpTo(saved, id), s.TruncateShards(0).TruncateCheckpointsRetaining(id).PutCap(Nil))
    ensures forall p: nat :: FlagsAt(sh, s.TruncateShards(0).shards, p) == EPHEMERAL
  {
    assert CheckpointOk(sh, leaves, s.shards, saved[id], s.checkpoints[id]);
    var after := s.TruncateShards(0).TruncateCheckpointsRetaining(id).PutCap(Nil);
    RecordedBack(sh, leaves, saved, s.shards, s.checkpoints, id, after.shards, after.checkpoints, UpTo(saved, id));
  }

  /** Clearing one mark directly. */
  lemma UnmarkKeeps<H>(hs: Hashable<H>, depth: nat, sh: nat, leaves: seq<H>, saved: map<int, seq<H>>, s: Store<H>,
                       position: nat)
    requires TreeOk(hs, depth, sh, leaves, saved, s) && Above(sh, position) < |s.shards|
    ensures var i := Above(sh, position);
            && Fits(sh, s.shards[i].root) && s.shards[i].addr == Address(sh, i)
            && var r := ClearFlags(hs, sh, i, [(position, MARKED)], s.shards[i].root);
               && r.Some?
               && var after := s.PutShard(Located(Address(sh, i), r.value));
                  && TreeOk(hs, depth, sh, leaves, saved, after)
                  && forall p: nat ::
                    FlagsAt(sh, after.shards, p) ==
                    if p == position then FlagsAt(sh, s.shards, p).Minus(MARKED) else FlagsAt(sh, s.shards, p)
  {
    var i := Above(sh, position);
    var toClear: seq<(nat, Flags)> := [(position, MARKED)];
    assert ShardOk(hs, sh, leaves, s.shards[i], i);
    AboveRange(sh, position);
    ClearPanicsIff(hs, sh, i, toClear, s.shards[i].root);
    var shard := Located(Address(sh, i), ClearFlags(hs, sh, i, toClear, s.shards[i].root).value);
    PutNext(s, shard);
    ClearDense(hs, sh, i, |leaves|, toClear, s.shards[i].root);
    ClearConsistent(hs, leaves, sh, i, toClear, s.shards[i].root);
    ClearFits(hs, sh, i, toClear, s.shards[i].root);
    ClearTight(hs, sh, i, toClear, s.shards[i].root);
    FilledUpdate(hs, sh, leaves, s.shards, shard, i);
    var after := s.PutShard(shard);
    forall p: nat
      ensures FlagsAt(sh, after.shards, p) ==
      if p == position then FlagsAt(sh, s.shards, p).Minus(MARKED) else FlagsAt(sh, s.shards, p)
    {
      AboveRange(sh, p);
      if Above(sh, p) == i {
        assert toClear[1..] == [];
        ClearDenseExact(hs, sh, i, |leaves|, toClear, s.shards[i].root, p);
      }
    }
    RecordedKept(sh, leaves, saved, s.shards, s.checkpoints, leaves, after.shards);
  }

  /** A position is marked exactly when its shard is there and gives a marked value for it. */
  lemma MarkedIff<H>(hs: Hashable<H>, sh: nat, leaves: seq<H>, shards: seq<Located<H>>, p: nat)
    requires Filled(hs, sh, leaves, shards)
    ensures ShardsFit(shards, sh)
    ensures var i := Above(sh, p);
            FlagsAt(sh, shards, p).marked <==>
              i < |shards| && Fits(sh, shards[i].root) && ValueAt(sh, i, shards[i].root, p).Some?
                && ValueAt(sh, i, shards[i].root, p).value.1.marked
  {
    FilledFits(hs, sh, leaves, shards);
    var i := Above(sh, p);
    if i < |shards| {
      assert ShardOk(hs, sh, leaves, shards[i], i);
      AboveRange(sh, p);
      MarkedHasValue(sh, i, |leaves|, shards[i].root, p);
    }
  }

  /** The sibling of an ancestor of a position within the tree is within the tree. */
  lemma SiblingWithin(depth: nat, level: nat, position: nat)
    requires level < depth && position < End(depth, 0)
    ensures Above(depth, position) == 0
    ensures Address(depth, 0).Contains(Address(level, SiblingIndex(Above(level, position))))
  {
    StartZero(depth);
    AboveUnique(depth, position, 0);
    ClimbAbove(position, level + 1, depth);
    var addr := Address(level, SiblingIndex(Above(level, position)));
    assert addr.Parent() == Address(level + 1, Above(level + 1, position));
    assert Climb(addr, depth) == Climb(addr.Parent(), depth);
  }

  // ---------- The loop over the shards to clear ----------

  ghost predicate ShardProgress<H>(hs: Hashable<H>, sh: nat, clear: Clears, before: Located<H>, now: Located<H>, i: nat,
                                   done: bool)
  {
    ShardFits(before, sh, i) && if done then ClearedShard(hs, sh, clear, before, now, i) else now == before
  }

  ghost predicate ClearedUpTo<H>(hs: Hashable<H>, sh: nat, clear: Clears, before: seq<Located<H>>, now: seq<Located<H>>,
                                 indices: seq<int>, k: nat)
  {
    && |now| == |before| && k <= |indices|
    && forall i | 0 <= i < |before| :: ShardProgress(hs, sh, clear, before[i], now[i], i, i in indices[..k])
  }

  lemma ClearingStarts<H>(hs: Hashable<H>, sh: nat, clear: Clears, before: seq<Located<H>>, indices: seq<int>)
    requires ShardsFit(before, sh)
    ensures ClearedUpTo(hs, sh, clear, before, before, indices, 0)
  {
    forall i | 0 <= i < |before| ensures ShardProgress(hs, sh, clear, before[i], before[i], i, i in indices[..0]) {
      assert ShardFits(before[i], sh, i);
    }
  }

  lemma OneMoreIndex(indices: seq<int>, k: nat, i: int)
    requires k < |indices| && Ascending(indices)
    ensures i in indices[..k + 1] <==> i in indices[..k] || i == indices[k]
    ensures i == indices[k] ==> i !in indices[..k]
  {
    assert indices[..k + 1] == indices[..k] + [indices[k]];
  }

  /** The shard whose turn it is has not been touched. */
  lemma NotYetCleared<H>(hs: Hashable<H>, sh: nat, clear: Clears, before: seq<Located<H>>, now: seq<Located<H>>,
                         indices: seq<int>, k: nat)
    requires ClearedUpTo(hs, sh, clear, before, now, indices, k) && k < |indices| && Ascending(indices)
      && 0 <= indices[k] < |before|
    ensures now[indices[k]] == before[indices[k]] && ShardFits(before[indices[k]], sh, indices[k])
  {
    OneMoreIndex(indices, k, indices[k]);
    assert ShardProgress(hs, sh, clear, before[indices[k]], now[indices[k]], indices[k], indices[k] in indices[..k]);
  }

  lemma ClearedNext<H>(hs: Hashable<H>, sh: nat, clear: Clears, before: seq<Located<H>>, now: seq<Located<H>>,
                       indices: seq<int>, k: nat, updated: seq<Located<H>>)
    requires ClearedUpTo(hs, sh, clear, before, now, indices, k) && k < |indices| && Ascending(indices)
      && indices[k] >= 0
    requires |updated| == |now| && forall i | 0 <= i < |now| && i != indices[k] :: updated[i] == now[i]
    requires indices[k] < |before| ==> ClearedShard(hs, sh, clear, before[indices[k]], updated[indices[k]], indices[k])
    ensures ClearedUpTo(hs, sh, clear, before, updated, indices, k + 1)
  {
    forall i | 0 <= i < |before| ensures ShardProgress(hs, sh, clear, before[i], updated[i], i, i in indices[..k + 1]) {
      OneMoreIndex(indices, k, i);
      assert ShardProgress(hs, sh, clear, before[i], now[i], i, i in indices[..k]);
    }
  }

  lemma ClearedAll<H>(hs: Hashable<H>, sh: nat, clear: Clears, before: seq<Located<H>>, now: seq<Located<H>>)
    requires ClearedUpTo(hs, sh, clear, before, now, InOrder(clear.Keys), |InOrder(clear.Keys)|)
    ensures ClearedShards(hs, sh, clear, before, now)
    ensures forall i: nat :: !ShardPanics(hs, sh, clear, before, i)
  {
    var indices := InOrder(clear.Keys);
    assert indices[..|indices|] == indices;
    forall i | 0 <= i < |before|
      ensures ClearedShard(hs, sh, clear, before[i], now[i], i) && !ShardPanics(hs, sh, clear, before, i)
    {
      assert ShardProgress(hs, sh, clear, before[i], now[i], i, i in indices[..|indices|]);
      if i !in indices { assert i !in clear.Keys; }
    }
  }

  /** The last shard is full and at the greatest index exactly when the tree is full. */
  lemma IsFullTree<H>(hs: Hashable<H>, depth: nat, sh: nat, leaves: seq<H>, shards: seq<Located<H>>)
    requires sh <= depth && |leaves| <= End(depth, 0) && Filled(hs, sh, leaves, shards)
    ensures |leaves| == End(depth, 0) <==>
      shards != [] && shards[|shards| - 1].root.IsFull() && shards[|shards| - 1].addr.index >= Start(depth - sh, 1) - 1
  {
    StartOfStart(sh, depth - sh, 1);
    StartZero(depth - sh);
    StartZero(depth);
    if shards != [] {
      var last := |shards| - 1;
      assert ShardOk(hs, sh, leaves, shards[last], last);
      DenseTip(sh, last, |leaves|, shards[last].root);
      AboveRange(sh, |leaves| - 1);
      if last + 1 < Start(depth - sh, 1) { StartMono(sh, last + 1, Start(depth - sh, 1)); }
      if last + 1 > Start(depth - sh, 1) { StartMono(sh, Start(depth - sh, 1), last); }
    }
  }

  lemma LeavesNonEmpty(sh: nat, n: nat, count: nat)
    requires count == ShardCount(sh, n) && count > 0
    ensures n > 0
  {
  }

  lemma GrowCap<H>(hs: Hashable<H>, sh: nat, leaves: seq<H>, value: H, addr: Address, cap: Tree<H>)
    ensures CapOk(hs, leaves, sh, addr, cap) ==> CapOk(hs, leaves + [value], sh, addr, cap)
  {
    if CapOk(hs, leaves, sh, addr, cap) { ConsistentGrow(hs, leaves, [value], addr.level, addr.index, cap); }
  }

  lemma LastPosition<H>(hs: Hashable<H>, sh: nat, leaves: seq<H>, shards: seq<Located<H>>)
    requires Filled(hs, sh, leaves, shards)
    ensures shards == [] <==> leaves == []
    ensures shards != [] ==>
      var last := shards[|shards| - 1];
      Fits(sh, last.root) && last.addr.index == |shards| - 1
        && MaxPosition(sh, last.addr.index, last.root) == Some(|leaves| - 1)
  {
    if shards != [] {
      var last := |shards| - 1;
      assert ShardOk(hs, sh, leaves, shards[last], last);
      DenseTip(sh, last, |leaves|, shards[last].root);
      AboveRange(sh, |leaves| - 1);
    }
  }

  /** A stored checkpoint is a truncation point at which every question can be answered. */
  lemma CheckpointCut<H>(sh: nat, leaves: seq<H>, saved: map<int, seq<H>>, shards: seq<Located<H>>,
                         checkpoints: map<int, Checkpoint>, id: int)
    requires Recorded(sh, leaves, saved, shards, checkpoints) && id in checkpoints
    ensures id in saved && saved[id] <= leaves && CutOk(sh, leaves, shards, |saved[id]|)
    ensures Take(leaves, |saved[id]|) == saved[id]
  {
    assert CheckpointOk(sh, leaves, shards, saved[id], checkpoints[id]);
  }

  lemma SiblingTop(depth: nat, position: nat)
    requires position < End(depth, 0)
    ensures Above(depth, position) == 0
  {
    StartZero(depth);
    AboveUnique(depth, position, 0);
  }

  function LastOf<H>(leaves: seq<H>): Option<nat>
  {
    if leaves == [] then None else Some(|leaves| - 1)
  }

  /** After truncation the cap is true of the remaining leaves exactly when none of the hashes left in it
      reaches beyond them. */
  lemma CapAfter<H>(hs: Hashable<H>, depth: nat, sh: nat, leaves: seq<H>, cap: Tree<H>, position: nat)
    requires CapOk(hs, leaves, sh, Address(depth, 0), cap) && position < |leaves| && sh <= depth
    ensures Fits(depth, cap)
    ensures var r := TruncateTo(hs, depth, 0, cap, position);
            var after := if r.Some? then r.value else cap;
            CapOk(hs, leaves[..position + 1], sh, Address(depth, 0), after) <==>
              HashesEndBy(depth, 0, after, position + 1)
  {
    FitsMono(depth - sh, depth, cap);
    TruncateConsistent(hs, leaves, depth, 0, cap, position);
    TruncateFits(hs, depth, 0, cap, position, depth - sh);
    var r := TruncateTo(hs, depth, 0, cap, position);
    var after := if r.Some? then r.value else cap;
    ViewOfPrefix(hs, leaves, depth, 0, after, position + 1);
  }

  /** A cap that is not true after truncation: in a tree of two leaves, cache the root over `a` and `b`, go
      back to `a` (the cap is left alone) and append `c` instead. The old root is still answered. */
  lemma StaleCap<H>(hs: Hashable<H>, a: H, b: H, c: H)
    requires hs.combine(0, a, b) != hs.combine(0, a, c)
    ensures var first := [Located(Address(0, 0), Leaf(a, CHECKPOINT)), Located(Address(0, 1), Leaf(b, EPHEMERAL))];
            var second := [Located(Address(0, 0), Leaf(a, CHECKPOINT)), Located(Address(0, 1), Leaf(c, EPHEMERAL))];
            var top := Address(1, 0);
            && Filled(hs, 0, [a, b], first) && Filled(hs, 0, [a, c], second) && ShardsFit(first, 0)
              && ShardsFit(second, 0) && top.Contains(top)
            && var cached := RootInternal(hs, first, 0, top, Nil, top, 2);
               && cached == Ok(Rooted(hs.combine(0, a, b), Some(Leaf(hs.combine(0, a, b), EPHEMERAL))))
               && TruncateTo(hs, 1, 0, cached.value.replacement.value, 0) == None
               && RootInternal(hs, second, 0, top, cached.value.replacement.value, top, 2) ==
                 Ok(Rooted(hs.combine(0, a, b), None))
               && Merkle.Root(hs, [a, c], 1, 0) == hs.combine(0, a, c)
  {
    TwoShards(hs, a, b);
    TwoShards(hs, a, c);
    SmallRanges();
    SameLevelContains(Address(1, 0), Address(1, 0));
    RootAnswered(hs, 1, 0, [a, b],
                 [Located(Address(0, 0), Leaf(a, CHECKPOINT)), Located(Address(0, 1), Leaf(b, EPHEMERAL))], Nil,
                 Address(1, 0), 2);
    assert Merkle.Root(hs, [a, b], 0, 0) == a && Merkle.Root(hs, [a, b], 0, 1) == b;
    assert Merkle.Root(hs, [a, c], 0, 0) == a && Merkle.Root(hs, [a, c], 0, 1) == c;
    assert Take([a, b], 2) == [a, b];
  }

  lemma SmallRanges()
    ensures Start(0, 0) == 0 && End(0, 0) == 1 && Start(0, 1) == 1 && End(0, 1) == 2
    ensures Start(1, 0) == 0 && End(1, 0) == 2 && Above(0, 0) == 0 && Above(0, 1) == 1
  {
  }

  lemma TwoShards<H>(hs: Hashable<H>, a: H, b: H)
    ensures var shards := [Located(Address(0, 0), Leaf(a, CHECKPOINT)), Located(Address(0, 1), Leaf(b, EPHEMERAL))];
            Filled(hs, 0, [a, b], shards) && ShardsFit(shards, 0)
  {
    SmallRanges();
    var shards := [Located(Address(0, 0), Leaf(a, CHECKPOINT)), Located(Address(0, 1), Leaf(b, EPHEMERAL))];
    assert ShardOk(hs, 0, [a, b], shards[0], 0) && ShardOk(hs, 0, [a, b], shards[1], 1);
    FilledFits(hs, 0, [a, b], shards);
  }

  // ---------- The shard tree ----------

  /** `Rejected` stands for the checkpoint identifier being out of order, `Full` for the tree being full,
      and `Panicked` for the panic in `clear_flags`. */
  datatype Outcome = Done | Rejected | Full | Panicked

  datatype WitnessError = TreeIncomplete(missing: seq<Address>) | NotInCheckpoint(addr: Address)

  /** Every shard but one is as it was. */
  ghost predicate OthersSame<H>(before: seq<Located<H>>, after: seq<Located<H>>, index: nat)
  {
    |before| <= |after| && forall i | 0 <= i < |before| && i != index :: after[i] == before[i]
  }

  /** With no checkpoint too many, pruning does nothing. */
  lemma WithinMax<H>(sh: nat, shards: seq<Located<H>>, checkpoints: map<int, Checkpoint>, max: nat)
    requires |checkpoints| <= max
    ensures !WillPanic(sh, shards, checkpoints, max)
    ensures KeptOnly(checkpoints, checkpoints, max) == checkpoints
    ensures forall p: nat :: Cleared(checkpoints, max, p) == EPHEMERAL
  {
    assert Removed(checkpoints, max) == [];
    forall p: nat ensures Cleared(checkpoints, max, p) == EPHEMERAL { }
    NoPanicWhenFlagged(sh, shards, checkpoints, max);
  }

  class ShardTree<H(==)>
  {
    const hs: Hashable<H>
    const depth: nat
    const shardHeight: nat
    const maxCheckpoints: nat
    const store: MemoryShardStore<H>
    ghost var leaves: seq<H>
    ghost var saved: map<int, seq<H>>

    ghost predicate Valid()
      reads this, store
    {
      store.Valid() && TreeOk(hs, depth, shardHeight, leaves, saved, store.Contents())
    }

    /** Every hash in the cap is that of the present leaves; an empty cap always qualifies. */
    ghost predicate CapTrue()
      reads this, store
    {
      CapOk(hs, leaves, shardHeight, Address(depth, 0), store.cap)
    }

    constructor (hs: Hashable<H>, depth: nat, shardHeight: nat, maxCheckpoints: nat)
      requires shardHeight <= depth
      ensures Valid() && CapTrue() && leaves == [] && saved == map[] && store.Contents() == EmptyStore() && fresh(store)
      ensures this.hs == hs && this.depth == depth && this.shardHeight == shardHeight
        && this.maxCheckpoints == maxCheckpoints
    {
      var empty := new MemoryShardStore();
      this.hs, this.depth, this.shardHeight, this.maxCheckpoints, store :=
        hs, depth, shardHeight, maxCheckpoints, empty;
      leaves, saved := [], map[];
    }

    // ---------- Pruning ----------

    /** Clears the flags in one shard, if it is there and has some to clear. */
    method ClearOne(clear: Clears, ghost before: seq<Located<H>>, indices: seq<int>, k: nat) returns (panicked: bool)
      requires store.Valid() && k < |indices| && indices[k] >= 0 && Ascending(indices)
      requires ClearedUpTo(hs, shardHeight, clear, before, store.shards, indices, k)
      modifies store
      ensures store.Valid() && store.checkpoints == old(store.checkpoints) && store.cap == old(store.cap)
      ensures panicked ==> ShardPanics(hs, shardHeight, clear, before, indices[k])
      ensures !panicked ==> ClearedUpTo(hs, shardHeight, clear, before, store.shards, indices, k + 1)
    {
      panicked := false;
      var toClear := Wanted(clear, indices[k]);
      ghost var now := store.shards;
      if indices[k] < |before| { NotYetCleared(hs, shardHeight, clear, before, now, indices, k); }
      var shard := store.GetShard(Address(shardHeight, indices[k]));
      if toClear != [] && shard.Some? {
        var cleared := ClearFlags(hs, shardHeight, indices[k], toClear, shard.value.root);
        if cleared.None? { return true; }
        store.PutShard(Located(shard.value.addr, cleared.value));
      }
      ClearedNext(hs, shardHeight, clear, before, now, indices, k, store.shards);
    }

    /** Clears the flags in every shard that has some to clear. */
    method ClearShards(clear: Clears) returns (panicked: bool)
      requires store.Valid() && ShardsFit(store.shards, shardHeight) && Placed(clear, shardHeight)
      modifies store
      ensures store.Valid() && store.checkpoints == old(store.checkpoints) && store.cap == old(store.cap)
      ensures panicked <==> exists i: nat :: ShardPanics(hs, shardHeight, clear, old(store.shards), i)
      ensures !panicked ==> ClearedShards(hs, shardHeight, clear, old(store.shards), store.shards)
    {
      var indices := InOrder(clear.Keys);
      ghost var before := store.shards;
      panicked := false;
      ClearingStarts(hs, shardHeight, clear, before, indices);
      var k := 0;
      while k < |indices|
        invariant 0 <= k <= |indices| && store.Valid() && store.checkpoints == old(store.checkpoints)
          && store.cap == old(store.cap)
        invariant ClearedUpTo(hs, shardHeight, clear, before, store.shards, indices, k)
      {
        assert indices[k] in indices && indices[k] in clear.Keys;
        panicked := ClearOne(clear, before, indices, k);
        if panicked { return; }
        k := k + 1;
      }
      ClearedAll(hs, shardHeight, clear, before, store.shards);
    }

    /** `prune_excess_checkpoints`: keeps the latest checkpoints, up to the maximum, and clears exactly the
        flags that only the others kept alive. */
    method PruneExcess() returns (panicked: bool)
      requires Valid()
      modifies this, store
      ensures panicked <==> WillPanic(shardHeight, old(store.shards), old(store.checkpoints), maxCheckpoints)
      ensures !panicked ==>
        && Valid() && leaves == old(leaves) && store.cap == old(store.cap)
        && store.checkpoints == KeptOnly(old(store.checkpoints), old(store.checkpoints), maxCheckpoints)
        && saved == KeptOnly(old(saved), old(store.checkpoints), maxCheckpoints)
        && forall p: nat :: FlagsAt(shardHeight, store.shards, p) ==
             FlagsAt(shardHeight, old(store.shards), p).Minus(Cleared(old(store.checkpoints), maxCheckpoints, p))
    {
      ghost var before := store.Contents();
      FilledFits(hs, shardHeight, leaves, store.shards);
      var toDelete := Removed(store.checkpoints, maxCheckpoints);
      var clear := Collect(store.checkpoints, shardHeight, maxCheckpoints);
      PanicsIff(hs, shardHeight, clear, store.shards, store.checkpoints, maxCheckpoints);
      panicked := ClearShards(clear);
      if !panicked {
        RemoveCheckpoints(toDelete);
        assert store.checkpoints == KeptOnly(before.checkpoints, before.checkpoints, maxCheckpoints);
        PruneKeeps(hs, depth, shardHeight, leaves, saved, before, maxCheckpoints, clear, store.Contents());
        saved := KeptOnly(saved, before.checkpoints, maxCheckpoints);
      }
    }

    method RemoveCheckpoints(ids: seq<int>)
      requires store.Valid()
      modifies store
      ensures store.Valid() && store.shards == old(store.shards) && store.cap == old(store.cap)
      ensures store.checkpoints == map id | id in old(store.checkpoints) && id !in ids :: old(store.checkpoints)[id]
    {
      var k := 0;
      while k < |ids|
        invariant 0 <= k <= |ids| && store.Valid() && store.shards == old(store.shards) && store.cap == old(store.cap)
        invariant store.checkpoints == map id | id in old(store.checkpoints) && id !in ids[..k] ::
          old(store.checkpoints)[id]
      {
        store.RemoveCheckpoint(ids[k]);
        assert ids[..k + 1] == ids[..k] + [ids[k]];
        k := k + 1;
      }
      assert ids[..k] == ids;
    }

    // ---------- Changing the tree ----------

    /** `append`. `before` is the store as it is just before excess checkpoints are pruned. */
    method Append(value: H, retention: Retention) returns (outcome: Outcome, ghost before: Store<H>)
      requires Valid()
      modifies this, store
      ensures outcome == Rejected <==> OutOfSequence(retention, old(store.checkpoints))
      ensures outcome == Full <==> outcome != Rejected && |old(leaves)| == End(depth, 0)
      ensures outcome == Rejected || outcome == Full ==>
        Valid() && leaves == old(leaves) && saved == old(saved) && store.Contents() == old(store.Contents())
      ensures outcome == Done || outcome == Panicked ==>
        && TreeOk(hs, depth, shardHeight, old(leaves) + [value],
                  WithCheckpoint(old(saved), retention, old(leaves) + [value]), before)
        && before.checkpoints ==
          WithCheckpoint(old(store.checkpoints), retention, Checkpoint(AtPosition(|old(leaves)|), {}))
        && before.cap == old(store.cap)
        && (outcome == Panicked <==> WillPanic(shardHeight, before.shards, before.checkpoints, maxCheckpoints))
        && forall p: nat :: FlagsAt(shardHeight, before.shards, p) ==
             if p == |old(leaves)| then FlagsOf(retention) else FlagsAt(shardHeight, old(store.shards), p)
      ensures outcome == Done || outcome == Panicked ==>
        OthersSame(old(store.shards), before.shards, Above(shardHeight, |old(leaves)|))
      ensures outcome == Done ==>
        && Valid() && leaves == old(leaves) + [value] && store.cap == old(store.cap)
        && saved == KeptOnly(WithCheckpoint(old(saved), retention, leaves), before.checkpoints, maxCheckpoints)
        && store.checkpoints == KeptOnly(before.checkpoints, before.checkpoints, maxCheckpoints)
        && forall p: nat :: FlagsAt(shardHeight, store.shards, p) ==
             FlagsAt(shardHeight, before.shards, p).Minus(Cleared(before.checkpoints, maxCheckpoints, p))
      ensures outcome == Done && old(CapTrue()) ==> CapTrue()
    {
      hide Fits, FlagsAt, KeptOnly, Cleared, WillPanic, OthersSame, WithCheckpoint, CapOk, Recorded, ShardOk, FlagsOf;
      before := store.Contents();
      if retention.CheckpointAt? {
        var latest := store.MaxCheckpointId();
        if latest.Some? && latest.value >= retention.id { return Rejected, before; }
      }
      var last := store.LastShard();
      NextShardOk(hs, shardHeight, leaves, store.shards);
      IsFullTree(hs, depth, shardHeight, leaves, store.shards);
      if last.Some? && last.value.root.IsFull() && last.value.addr.index >= Start(depth - shardHeight, 1) - 1 {
        return Full, before;
      }
      var next := if last.None? then Located(Address(shardHeight, 0), Nil)
                  else if last.value.root.IsFull()
                    then Located(Address(last.value.addr.level, last.value.addr.index + 1), Nil)
                  else last.value;
      PutLeaf(next, value, retention);
      before := store.Contents();
      var panicked := PruneExcess();
      outcome := if panicked then Panicked else Done;
    }

    /** The part of `append` before pruning: puts the leaf in its shard, and records the checkpoint. */
    method PutLeaf(next: Located<H>, value: H, retention: Retention)
      requires Valid() && |leaves| < End(depth, 0) && !OutOfSequence(retention, store.checkpoints)
      requires next == NextShard(shardHeight, store.shards)
      modifies this, store
      ensures Valid() && leaves == old(leaves) + [value] && saved == WithCheckpoint(old(saved), retention, leaves)
      ensures store.checkpoints ==
        WithCheckpoint(old(store.checkpoints), retention, Checkpoint(AtPosition(|old(leaves)|), {}))
      ensures store.cap == old(store.cap) && (old(CapTrue()) ==> CapTrue())
      ensures forall p: nat ::
        FlagsAt(shardHeight, store.shards, p) ==
          if p == |old(leaves)| then FlagsOf(retention) else FlagsAt(shardHeight, old(store.shards), p)
      ensures OthersSame(old(store.shards), store.shards, Above(shardHeight, |old(leaves)|))
    {
      AppendKeeps(hs, depth, shardHeight, leaves, saved, store.Contents(), value, FlagsOf(retention));
      var appended := AppendLeaf(hs, next, value, FlagsOf(retention));
      GrowCap(hs, shardHeight, leaves, value, Address(depth, 0), store.cap);
      store.PutShard(appended.value.0);
      leaves := leaves + [value];
      if retention.CheckpointAt? {
        AddKeeps(hs, depth, shardHeight, leaves, saved, store.Contents(), retention.id,
                 Checkpoint(AtPosition(appended.value.1), {}));
        store.AddCheckpoint(retention.id, Checkpoint(AtPosition(appended.value.1), {}));
        saved := saved[retention.id := leaves];
      }
    }

    /** `checkpoint` */
    method AddCheckpoint(id: int) returns (outcome: Outcome, ghost before: Store<H>)
      requires Valid()
      modifies this, store
      ensures outcome != Full
      ensures outcome == Rejected <==> exists i :: i in old(store.checkpoints) && i >= id
      ensures outcome == Rejected ==>
        Valid() && leaves == old(leaves) && saved == old(saved) && store.Contents() == old(store.Contents())
      ensures outcome != Rejected ==>
        && TreeOk(hs, depth, shardHeight, old(leaves), old(saved)[id := old(leaves)], before)
        && before.checkpoints == old(store.checkpoints)[id := CheckpointOf(old(leaves))]
        && before.cap == old(store.cap)
        && (outcome == Panicked <==> WillPanic(shardHeight, before.shards, before.checkpoints, maxCheckpoints))
        && forall p: nat :: FlagsAt(shardHeight, before.shards, p) ==
             if p + 1 == |old(leaves)| then FlagsAt(shardHeight, old(store.shards), p).Or(CHECKPOINT)
               else FlagsAt(shardHeight, old(store.shards), p)
      ensures outcome == Done ==>
        && Valid() && leaves == old(leaves) && store.cap == old(store.cap)
        && saved == KeptOnly(old(saved)[id := leaves], before.checkpoints, maxCheckpoints)
        && store.checkpoints == KeptOnly(before.checkpoints, before.checkpoints, maxCheckpoints)
        && forall p: nat :: FlagsAt(shardHeight, store.shards, p) ==
             FlagsAt(shardHeight, before.shards, p).Minus(Cleared(before.checkpoints, maxCheckpoints, p))
      ensures outcome == Done && old(CapTrue()) ==> CapTrue()
    {
      hide Fits, FlagsAt, KeptOnly, Cleared, WillPanic, CapOk, Recorded, ShardOk;
      before := store.Contents();
      var latest := store.MaxCheckpointId();
      if latest.Some? && latest.value >= id { return Rejected, before; }
      var last := store.LastShard();
      var c := Checkpoint(TreeState.Empty, {});
      if last.Some? {
        LeavesNonEmpty(shardHeight, |leaves|, |store.shards|);
        TipKeeps(hs, depth, shardHeight, leaves, saved, store.Contents());
        var tip := MarkTip(hs, shardHeight, last.value.addr.index, last.value.root);
        store.PutShard(Located(last.value.addr, tip.value.0));
        c := Checkpoint(AtPosition(tip.value.1), {});
      }
      AddKeeps(hs, depth, shardHeight, leaves, saved, store.Contents(), id, c);
      store.AddCheckpoint(id, c);
      saved := saved[id := leaves];
      before := store.Contents();
      var panicked := PruneExcess();
      outcome := if panicked then Panicked else Done;
    }

    /** The cap is cut off after the leaves that are left, if it can be, and otherwise as it was. */
    ghost predicate CutCap(before: Tree<H>, after: Tree<H>, n: nat)
    {
      Fits(depth, before) &&
      if n == 0 then after == Nil
      else if EndsAt(depth, 0, before, n - 1) then TruncateTo(hs, depth, 0, before, n - 1) == Some(after)
      else after == before
    }

    /** `truncate_to_checkpoint`: goes back to the leaves there were at a checkpoint, if it exists. */
    method TruncateToCheckpoint(id: int) returns (found: bool)
      requires Valid()
      modifies this, store
      ensures Valid() && found == (id in old(store.checkpoints))
      ensures !found ==> leaves == old(leaves) && saved == old(saved) && store.Contents() == old(store.Contents())
      ensures found ==>
        && id in old(saved) && leaves == old(saved)[id]
        && saved == UpTo(old(saved), id)
        && store.checkpoints == old(store.Contents()).TruncateCheckpointsRetaining(id).checkpoints
        && forall p: nat ::
          FlagsAt(shardHeight, store.shards, p) ==
          if p < |leaves| then FlagsAt(shardHeight, old(store.shards), p) else EPHEMERAL
      ensures old(store.cap) == Nil ==> store.cap == Nil && CapTrue()
      ensures found && old(CapTrue()) ==> (CapTrue() <==> HashesEndBy(depth, 0, store.cap, |leaves|))
      ensures found ==> CutCap(old(store.cap), store.cap, |leaves|)
    {
      hide FlagsAt, TruncateTo, UpTo, CapOk, HashesEndBy, ShardOk, CheckpointOk, Merkle.Root, Filled, Recorded, Start,
        InOrder, Above, EndsAt, FlagAt, Computes, Least;
      found := id in store.checkpoints;
      NilCap(hs, depth, shardHeight, leaves);
      if !found { return; }
      var c := store.checkpoints[id];
      ghost var was := store.Contents();
      FitsMono(depth - shardHeight, depth, store.cap);
      match c.treeState {
        case Empty =>
          EmptyKeeps(hs, depth, shardHeight, leaves, saved, was, id);
          NilCap(hs, depth, shardHeight, saved[id]);
          store.TruncateShards(0);
          store.TruncateCheckpointsRetaining(id);
          store.PutCap(Nil);
        case AtPosition(position) =>
          StartZero(depth);
          var newCap := if Address(depth, 0).ContainsPosition(position)
            then TruncateTo(hs, depth, 0, store.cap, position) else None;
          TruncateFits(hs, depth, 0, store.cap, position, depth - shardHeight);
          var cap := if newCap.Some? then newCap.value else store.cap;
          TruncateKeeps(hs, depth, shardHeight, leaves, saved, was, id, position, cap);
          TruncateNil(hs, depth, 0, position);
          NilCap(hs, depth, shardHeight, saved[id]);
          if CapTrue() { CapAfter(hs, depth, shardHeight, leaves, store.cap, position); }
          var index := Above(shardHeight, position);
          AboveRange(shardHeight, position);
          if Address(depth, 0).ContainsPosition(position) {
            Insertions.TruncateKeeps(hs, depth, 0, store.cap, position, position, Address(depth, 0));
          }
          var shard := store.GetShard(Address(shardHeight, index));
          var truncated := TruncateTo(hs, shardHeight, index, shard.value.root, position);
          if newCap.Some? { store.PutCap(newCap.value); }
          store.TruncateShards(index);
          store.PutShard(Located(Address(shardHeight, index), truncated.value));
          store.TruncateCheckpointsRetaining(id);
      }
      leaves, saved := saved[id], UpTo(saved, id);
    }

    /** `truncate_to_checkpoint_depth` */
    method TruncateToCheckpointDepth(checkpointDepth: nat) returns (found: bool)
      requires Valid()
      modifies this, store
      ensures Valid() && found == (checkpointDepth < |old(store.checkpoints)|)
      ensures !found ==> leaves == old(leaves) && saved == old(saved) && store.Contents() == old(store.Contents())
      ensures found ==>
        && var id := IdAtDepth(old(store.checkpoints).Keys, checkpointDepth);
           && id.Some? && id.value in old(saved) && leaves == old(saved)[id.value]
           && saved == UpTo(old(saved), id.value)
           && store.checkpoints == old(store.Contents()).TruncateCheckpointsRetaining(id.value).checkpoints
      ensures found ==>
        forall p: nat ::
          FlagsAt(shardHeight, store.shards, p) ==
          (if p < |leaves| then FlagsAt(shardHeight, old(store.shards), p) else EPHEMERAL)
      ensures old(store.cap) == Nil ==> store.cap == Nil
    {
      SameSize(store.checkpoints);
      var at := store.GetCheckpointAtDepth(checkpointDepth);
      if at.None? { return false; }
      found := TruncateToCheckpoint(at.value.0);
    }

    /** `remove_mark`: records the removal in a checkpoint, or clears the mark at once. */
    method RemoveMark(position: nat, asOf: Option<int>) returns (removed: bool)
      requires Valid()
      modifies this, store
      ensures Valid() && leaves == old(leaves) && saved == old(saved) && store.cap == old(store.cap)
      ensures var marked := FlagsAt(shardHeight, old(store.shards), position).marked;
              var defer := Defers(asOf, old(store.checkpoints));
              && removed == (marked && (defer ==> asOf.value in old(store.checkpoints)))
              && (!removed ==> store.Contents() == old(store.Contents()))
              && (removed && defer ==>
                    && store.shards == old(store.shards)
                    && store.checkpoints == WithMarkRemoved(old(store.checkpoints), asOf.value, position))
              && (removed && !defer ==>
                    && store.checkpoints == old(store.checkpoints)
                    && forall p: nat :: FlagsAt(shardHeight, store.shards, p) ==
                         if p == position then FlagsAt(shardHeight, old(store.shards), p).Minus(MARKED)
                           else FlagsAt(shardHeight, old(store.shards), p))
      ensures removed && !Defers(asOf, old(store.checkpoints)) ==>
        && var i := Above(shardHeight, position);
        && i < |old(store.shards)| && Fits(shardHeight, old(store.shards)[i].root)
        && var r := ClearFlags(hs, shardHeight, i, [(position, MARKED)], old(store.shards)[i].root);
           r.Some? && store.shards == old(store.shards)[i := Located(old(store.shards)[i].addr, r.value)]
      ensures old(CapTrue()) ==> CapTrue()
    {
      MarkedIff(hs, shardHeight, leaves, store.shards, position);
      var index := Above(shardHeight, position);
      var shard := store.GetShard(Address(shardHeight, index));
      if shard.None? { return false; }
      var value := ValueAt(shardHeight, index, shard.value.root, position);
      if value.None? || !value.value.1.marked { return false; }
      var earliest := store.MinCheckpointId();
      if asOf.Some? && (earliest.None? || asOf.value >= earliest.value) {
        if asOf.value in store.checkpoints {
          ghost var was := store.Contents();
          removed := store.UpdateCheckpoint(asOf.value,
                                            (c: Checkpoint) => c.(marksRemoved := c.marksRemoved + {position}));
          RecordedFewer(shardHeight, leaves, saved, was.shards, was.checkpoints, store.checkpoints, saved);
        } else {
          removed := false;
        }
      } else {
        UnmarkKeeps(hs, depth, shardHeight, leaves, saved, store.Contents(), position);
        var cleared := ClearFlags(hs, shardHeight, index, [(position, MARKED)], shard.value.root);
        store.PutShard(Located(shard.value.addr, cleared.value));
        removed := true;
      }
    }

    // ---------- Asking the tree ----------

    /** `root`: the root of a node, the tree truncated at a position. */
    method Root(address: Address, truncateAt: nat) returns (r: Result<H, seq<Address>>)
      requires Valid() && Address(depth, 0).Contains(address)
      ensures CapTrue() && r.Ok? ==> r.value == Merkle.Root(hs, Take(leaves, truncateAt), address.level, address.index)
      ensures CapTrue() && shardHeight <= address.level && CutOk(shardHeight, leaves, store.shards, truncateAt) ==>
        r.Ok?
      ensures ShardsFit(store.shards, shardHeight) && Fits(depth, store.cap)
      ensures shardHeight <= address.level ==>
        (r.Ok? <==> AllCovered(hs, store.shards, shardHeight, Address(depth, 0), store.cap, address, truncateAt))
      ensures r.Err? ==> LacksWithin(store.shards, shardHeight, address, truncateAt, r.error)
    {
      hide AllCovered, LacksWithin;
      FilledFits(hs, shardHeight, leaves, store.shards);
      FitsMono(depth - shardHeight, depth, store.cap);
      if shardHeight <= address.level {
        RootInternalIff(hs, store.shards, shardHeight, Address(depth, 0), store.cap, address, truncateAt);
      }
      RootInternalErrors(hs, store.shards, shardHeight, Address(depth, 0), store.cap, address, truncateAt);
      var rooted := RootInternal(hs, store.shards, shardHeight, Address(depth, 0), store.cap, address, truncateAt);
      if CapTrue() {
        RootInternalSound(hs, leaves, store.shards, shardHeight, Address(depth, 0), store.cap, address, truncateAt);
        if shardHeight <= address.level && CutOk(shardHeight, leaves, store.shards, truncateAt) {
          RootAnswered(hs, depth, shardHeight, leaves, store.shards, store.cap, address, truncateAt);
        }
      }
      r := match rooted case Err(e) => Err(e) case Ok(found) => Ok(found.root);
    }

    /** A node of the cap that stands for a hash. */
    ghost predicate CapLeaf(cap: Tree<H>, node: Address)
    {
      Fits(depth, cap) && NodeAt(depth, 0, cap, node).Some? && NodeAt(depth, 0, cap, node).value.Leaf?
    }

    /** Every hash that the cap held in a leaf can be computed from it still. */
    ghost predicate HashesKept(before: Tree<H>, after: Tree<H>)
    {
      forall node | CapLeaf(before, node) :: CapComputes(Address(depth, 0), after, node)
    }

    lemma CachingKeeps(address: Address, truncateAt: nat)
      requires Valid() && Address(depth, 0).Contains(address) && ShardsFit(store.shards, shardHeight)
      requires Fits(depth - shardHeight, store.cap)
      ensures var r := RootInternal(hs, store.shards, shardHeight, Address(depth, 0), store.cap, address, truncateAt);
              && HashesKept(store.cap, store.cap)
              && (r.Ok? ==> HashesKept(store.cap, OrElse(r.value.replacement, store.cap)))
    {
      hide RootInternal;
      FitsMono(depth - shardHeight, depth, store.cap);
      var r := RootInternal(hs, store.shards, shardHeight, Address(depth, 0), store.cap, address, truncateAt);
      forall node | CapLeaf(store.cap, node)
        ensures CapComputes(Address(depth, 0), store.cap, node)
        ensures r.Ok? ==> CapComputes(Address(depth, 0), OrElse(r.value.replacement, store.cap), node)
      {
        HashesStay(hs, store.shards, shardHeight, Address(depth, 0), store.cap, address, truncateAt, node);
      }
    }

    /** `root_caching`: the same, and remembers in the cap what was computed. */
    method RootCaching(address: Address, truncateAt: nat) returns (r: Result<H, seq<Address>>)
      requires Valid() && Address(depth, 0).Contains(address)
      modifies store
      ensures Valid() && store.shards == old(store.shards) && store.checkpoints == old(store.checkpoints)
      ensures old(CapTrue()) && r.Ok? ==>
        r.value == Merkle.Root(hs, Take(leaves, truncateAt), address.level, address.index)
      ensures old(CapTrue()) && shardHeight <= address.level ==>
        (CutOk(shardHeight, leaves, store.shards, truncateAt) ==> r.Ok?)
      ensures r.Err? ==> store.cap == old(store.cap)
      ensures ShardsFit(store.shards, shardHeight)
      ensures r.Err? ==> LacksWithin(store.shards, shardHeight, address, truncateAt, r.error)
      ensures r.Ok? && shardHeight <= address.level && address.RangeEnd() <= truncateAt ==>
        CapComputes(Address(depth, 0), store.cap, address)
      ensures HashesKept(old(store.cap), store.cap)
      ensures old(CapTrue()) && r.Ok? ==>
        (CapTrue() <==> KeepsCap(hs, leaves, shardHeight, Address(depth, 0), old(store.cap), address, truncateAt))
    {
      FilledFits(hs, shardHeight, leaves, store.shards);
      var rooted := RootInternal(hs, store.shards, shardHeight, Address(depth, 0), store.cap, address, truncateAt);
      ReplacementFits(hs, store.shards, shardHeight, Address(depth, 0), store.cap, address, truncateAt);
      RootInternalErrors(hs, store.shards, shardHeight, Address(depth, 0), store.cap, address, truncateAt);
      if shardHeight <= address.level && address.RangeEnd() <= truncateAt {
        CachesAnswer(hs, store.shards, shardHeight, Address(depth, 0), store.cap, address, truncateAt);
      }
      if CapTrue() {
        RootInternalSound(hs, leaves, store.shards, shardHeight, Address(depth, 0), store.cap, address, truncateAt);
        if rooted.Ok? {
          KeepsCapIff(hs, leaves, store.shards, shardHeight, Address(depth, 0), store.cap, address, truncateAt);
        }
        if shardHeight <= address.level && CutOk(shardHeight, leaves, store.shards, truncateAt) {
          RootAnswered(hs, depth, shardHeight, leaves, store.shards, store.cap, address, truncateAt);
        }
      }
      CachingKeeps(address, truncateAt);
      if rooted.Err? { return Err(rooted.error); }
      if rooted.value.replacement.Some? { store.PutCap(rooted.value.replacement.value); }
      r := Ok(rooted.value.root);
    }

    /** `frontier`: that of all the leaves, unless the last one has been pruned with its sibling. */
    method GetFrontier() returns (r: Result<Option<Frontiers.NonEmptyFrontier<H>>, seq<Address>>)
      requires Valid()
      ensures leaves == [] ==> r == Ok(None)
      ensures leaves != [] ==> (r.Ok? <==> LastOnItsOwn(shardHeight, leaves, store.shards))
      ensures CapTrue() && leaves != [] && r.Ok? ==> r == Ok(Some(Frontiers.FrontierOf(hs, leaves)))
    {
      FilledExtracts(hs, leaves, store.Contents(), depth, shardHeight);
      r := ExtractFrontier(hs, store, depth, shardHeight);
    }

    /** The leaves there were at a checkpoint, or all of them. */
    ghost predicate IsSnapshot(checkpointDepth: Option<nat>, snapshot: seq<H>)
      reads this, store
    {
      && Take(leaves, |snapshot|) == snapshot && CutOk(shardHeight, leaves, store.shards, |snapshot|)
      && match checkpointDepth
         case None => snapshot == leaves
         case Some(d) =>
           var id := IdAtDepth(store.checkpoints.Keys, d);
           id.Some? && id.value in saved && snapshot == saved[id.value] && snapshot <= leaves
    }

    /** `max_leaf_position`: `None` if there is no checkpoint at that depth, and otherwise the last position of
        the leaves there were then. */
    method MaxLeafPosition(checkpointDepth: Option<nat>) returns (r: Option<Option<nat>>, ghost snapshot: seq<H>)
      requires Valid()
      ensures r.None? <==> checkpointDepth.Some? && IdAtDepth(store.checkpoints.Keys, checkpointDepth.value).None?
      ensures r.Some? ==> IsSnapshot(checkpointDepth, snapshot) && r.value == LastOf(snapshot)
    {
      hide Merkle.Root, Fits, MaxPosition, FlagsAt, InOrder, ShardOk, Start, End;
      match checkpointDepth {
        case None =>
          LastPosition(hs, shardHeight, leaves, store.shards);
          var last := store.LastShard();
          snapshot := leaves;
          r := Some(if last.None? then None else MaxPosition(shardHeight, last.value.addr.index, last.value.root));
        case Some(d) =>
          var at := store.GetCheckpointAtDepth(d);
          if at.None? { return None, []; }
          assert CheckpointOk(shardHeight, leaves, store.shards, saved[at.value.0], at.value.1);
          CheckpointCut(shardHeight, leaves, saved, store.shards, store.checkpoints, at.value.0);
          snapshot := saved[at.value.0];
          r := Some(at.value.1.Position());
      }
    }

    /** The root over the first leaves, up to a position at which the tree can be truncated. */
    method RootUpTo(position: Option<nat>) returns (r: Result<H, seq<Address>>)
      requires Valid()
      ensures CapTrue() && position.None? ==> r == Ok(Merkle.Root(hs, [], depth, 0))
      ensures CapTrue() && position.Some? && CutOk(shardHeight, leaves, store.shards, position.value + 1) ==>
        r == Ok(Merkle.Root(hs, Take(leaves, position.value + 1), depth, 0))
    {
      if position.None? {
        RootEmpty(hs, [], depth, 0);
        return Ok(EmptyRoot(hs, depth));
      }
      SameLevelContains(Address(depth, 0), Address(depth, 0));
      r := Root(Address(depth, 0), position.value + 1);
    }

    /** `root_at_checkpoint_id`: the root over the leaves there were at the checkpoint. It never fails. */
    method RootAtCheckpointId(id: int) returns (r: Result<Option<H>, seq<Address>>)
      requires Valid()
      ensures id !in store.checkpoints ==> r == Ok(None)
      ensures id in store.checkpoints ==> id in saved && saved[id] <= leaves
      ensures CapTrue() && id in store.checkpoints ==> r == Ok(Some(Merkle.Root(hs, saved[id], depth, 0)))
    {
      if id !in store.checkpoints { return Ok(None); }
      assert CheckpointOk(shardHeight, leaves, store.shards, saved[id], store.checkpoints[id]);
      CheckpointCut(shardHeight, leaves, saved, store.shards, store.checkpoints, id);
      var root := RootUpTo(store.checkpoints[id].Position());
      r := match root case Err(e) => Err(e) case Ok(h) => Ok(Some(h));
    }

    /** `root_at_checkpoint_depth`: the root over the leaves there were at a checkpoint, or over all of them.
        It never fails. */
    method RootAtCheckpointDepth(checkpointDepth: Option<nat>) returns (r: Result<Option<H>, seq<Address>>)
      requires Valid()
      ensures CapTrue() && checkpointDepth.None? ==> r == Ok(Some(Merkle.Root(hs, leaves, depth, 0)))
      ensures CapTrue() && checkpointDepth.Some? ==>
        var id := IdAtDepth(store.checkpoints.Keys, checkpointDepth.value);
        if id.None? then r == Ok(None)
        else
          && id.value in saved && saved[id.value] <= leaves
          && r == Ok(Some(Merkle.Root(hs, saved[id.value], depth, 0)))
    {
      hide Merkle.Root, Fits, Filled, CutOk, Recorded, CapOk;
      var position, snapshot := MaxLeafPosition(checkpointDepth);
      if position.None? { return Ok(None); }
      var root := RootUpTo(position.value);
      assert CapTrue() ==> root == Ok(Merkle.Root(hs, snapshot, depth, 0));
      r := match root case Err(e) => Err(e) case Ok(h) => Ok(Some(h));
    }

    /** What a witness as of a checkpoint is: for leaves up to the checkpoint it exists exactly when the shards
        have a height and the leaf is marked, and folds with the leaf to the checkpoint's root. */
    ghost predicate WitnessedAt(position: nat, id: int, r: Result<Option<seq<H>>, WitnessError>)
      reads this, store
    {
      && id in saved && saved[id] <= leaves
      && (position >= |saved[id]| ==> r == Err(NotInCheckpoint(Address(0, position))))
      && (position < |saved[id]| ==>
            && (r.Ok? ==>
                  && r.value == Some(RefPath(hs, saved[id], position, depth))
                  && PathRoot(hs, leaves[position], r.value.value, position) == Merkle.Root(hs, saved[id], depth, 0))
            && (r.Ok? <==> shardHeight > 0 && FlagsAt(shardHeight, store.shards, position).marked)
            && (r.Err? ==> ReportsMissing(position, |saved[id]|, r.error)))
    }

    /** The error lists exactly what the leaf's own shard lacks for the witness. */
    ghost predicate ReportsMissing(position: nat, cut: nat, error: WitnessError)
      reads this, store
    {
      var i := Above(shardHeight, position);
      && error.TreeIncomplete? && i < |store.shards| && Fits(shardHeight, store.shards[i].root)
      && WitnessReport(shardHeight, i, store.shards[i].root, position, cut, error.missing)
    }

    /** `witness_at_checkpoint_id` */
    method WitnessAtCheckpointId(position: nat, id: int) returns (r: Result<Option<seq<H>>, WitnessError>)
      requires Valid() && CapTrue()
      ensures if id in store.checkpoints then WitnessedAt(position, id, r) else r == Ok(None)
    {
      if id !in store.checkpoints { return Ok(None); }
      assert CheckpointOk(shardHeight, leaves, store.shards, saved[id], store.checkpoints[id]);
      var asOf := store.checkpoints[id].Position();
      if asOf.None? || position > asOf.value { return Err(NotInCheckpoint(Address(0, position))); }
      CheckpointCut(shardHeight, leaves, saved, store.shards, store.checkpoints, id);
      var path := WitnessInternal(position, asOf.value);
      SiblingTop(depth, position);
      PathFolds(hs, saved[id], position, depth);
      r := match path case Err(e) => Err(e) case Ok(w) => Ok(Some(w));
    }

    /** `witness_at_checkpoint_depth` */
    method WitnessAtCheckpointDepth(position: nat, checkpointDepth: nat)
      returns (r: Result<Option<seq<H>>, WitnessError>)
      requires Valid() && CapTrue()
      ensures var id := IdAtDepth(store.checkpoints.Keys, checkpointDepth);
              if id.Some? then WitnessedAt(position, id.value, r) else r == Ok(None)
    {
      var at := store.GetCheckpointAtDepth(checkpointDepth);
      if at.None? { return Ok(None); }
      r := WitnessAtCheckpointId(position, at.value.0);
    }

    /** The part of a witness within the shard of its leaf. */
    method WitnessInShard(position: nat, asOf: nat) returns (r: Result<seq<H>, WitnessError>)
      requires Valid() && position <= asOf < |leaves|
      requires CutOk(shardHeight, leaves, store.shards, asOf + 1)
      ensures r.Ok? ==> r.value == RefPath(hs, Take(leaves, asOf + 1), position, shardHeight)
      ensures r.Ok? <==> shardHeight > 0 && FlagsAt(shardHeight, store.shards, position).marked
      ensures r.Err? ==> ReportsMissing(position, asOf + 1, r.error)
    {
      hide TreeWitness, WitnessReport, Merkle.Root, RefPath;
      var index := Above(shardHeight, position);
      ShardOfPosition(shardHeight, |leaves|, position);
      var shard := store.GetShard(Address(shardHeight, index));
      assert ShardOk(hs, shardHeight, leaves, store.shards[index], index);
      ShardWitness(hs, shardHeight, leaves, store.shards, position, asOf + 1);
      TreeWitnessSound(hs, leaves, shardHeight, index, shard.value.root, position, asOf + 1);
      AboveRange(shardHeight, position);
      WitnessReports(hs, shardHeight, index, shard.value.root, position, asOf + 1);
      r := match TreeWitness(hs, shardHeight, index, shard.value.root, position, asOf + 1)
           case Err(missing) => Err(TreeIncomplete(missing)) case Ok(path) => Ok(path);
    }

    /** `witness_internal`, by way of `witness_helper`: the path within the shard, then the roots of the
        siblings above it. */
    method WitnessInternal(position: nat, asOf: nat) returns (r: Result<seq<H>, WitnessError>)
      requires Valid() && CapTrue() && position <= asOf < |leaves|
      requires CutOk(shardHeight, leaves, store.shards, asOf + 1)
      ensures r.Ok? ==> r.value == RefPath(hs, Take(leaves, asOf + 1), position, depth)
      ensures r.Ok? <==> shardHeight > 0 && FlagsAt(shardHeight, store.shards, position).marked
      ensures r.Err? ==> ReportsMissing(position, asOf + 1, r.error)
    {
      r := WitnessInShard(position, asOf);
      if r.Err? { return; }
      var path, level := r.value, shardHeight;
      while level < depth
        invariant shardHeight <= level <= depth && path == RefPath(hs, Take(leaves, asOf + 1), position, level)
      {
        SiblingWithin(depth, level, position);
        var root := Root(Address(level, SiblingIndex(Above(level, position))), asOf + 1);
        path, level := path + [root.value], level + 1;
      }
      r := Ok(path);
    }
  }

  // ---------- A run that panics ----------

  ghost predicate ExampleTree<H>(t: ShardTree<H>, hs: Hashable<H>, leaves: seq<H>)
    reads t, t.store
  {
    && t.Valid() && t.hs == hs && t.depth == 2 && t.shardHeight == 1 && t.maxCheckpoints == 1
    && t.leaves == leaves && t.CapTrue()
  }

  method OneMarked<H(==)>(hs: Hashable<H>, a: H) returns (t: ShardTree<H>)
    ensures fresh(t) && fresh(t.store) && ExampleTree(t, hs, [a]) && t.store.checkpoints == map[]
    ensures FlagsAt(1, t.store.shards, 0) == MARKED
  {
    assert End(2, 0) == 4;
    t := new ShardTree(hs, 2, 1, 1);
    ghost var before;
    var outcome;
    outcome, before := t.Append(a, Marked);
    WithinMax(1, before.shards, before.checkpoints, 1);
    assert [] + [a] == [a];
  }

  /** A marked leaf, then one with a checkpoint. */
  method MarkedAndCheckpointed<H(==)>(hs: Hashable<H>, a: H, b: H) returns (t: ShardTree<H>)
    ensures fresh(t) && fresh(t.store) && ExampleTree(t, hs, [a, b])
    ensures t.store.checkpoints == map[1 := Checkpoint(AtPosition(1), {})]
    ensures t.store.shards == [Located(Address(1, 0), Parent(None, Leaf(a, MARKED), Leaf(b, CHECKPOINT)))]
    ensures FlagsAt(1, t.store.shards, 0) == MARKED
  {
    assert End(2, 0) == 4;
    t := OneMarked(hs, a);
    ghost var before;
    var outcome;
    outcome, before := t.Append(b, CheckpointAt(1, Unmarked));
    WithinMax(1, before.shards, before.checkpoints, 1);
    assert [a] + [b] == [a, b];
    PairShape(hs, a, b, t.store.shards);
  }

  /** The mark removed as of the checkpoint, and again at once. */
  method RemovedTwice<H(==)>(hs: Hashable<H>, a: H, b: H) returns (t: ShardTree<H>, deferred: bool, direct: bool)
    ensures fresh(t) && fresh(t.store) && ExampleTree(t, hs, [a, b]) && deferred && direct
    ensures t.store.checkpoints == map[1 := Checkpoint(AtPosition(1), {0})]
    ensures t.store.shards == [Located(Address(1, 0), Leaf(hs.combine(0, a, b), CHECKPOINT))]
  {
    t := MarkedAndCheckpointed(hs, a, b);
    PairCleared(hs, a, b);
    assert Above(1, 0) == 0;
    var none: set<nat> := {};
    assert none + {0} == {0};
    deferred := t.RemoveMark(0, Some(1));
    assert t.store.checkpoints == map[1 := Checkpoint(AtPosition(1), {0})];
    direct := t.RemoveMark(0, None);
  }

  /** A run that loses the frontier. Of a marked leaf and a checkpointed one the frontier can be extracted; once
      the mark of the first is removed the two are pruned into one, and it no longer can. */
  method RemovingAMarkLosesFrontier<H(==)>(hs: Hashable<H>, a: H, b: H)
    returns (before: Result<Option<Frontiers.NonEmptyFrontier<H>>, seq<Address>>, removed: bool,
             after: Result<Option<Frontiers.NonEmptyFrontier<H>>, seq<Address>>)
    ensures before == Ok(Some(Frontiers.FrontierOf(hs, [a, b]))) && removed && after.Err?
  {
    var t := MarkedAndCheckpointed(hs, a, b);
    PairCleared(hs, a, b);
    assert Above(1, 0) == 0 && Above(1, 1) == 0;
    before := t.GetFrontier();
    removed := t.RemoveMark(0, None);
    after := t.GetFrontier();
  }

  /** A run that panics. With shards of height 1 and one checkpoint to keep, append a marked leaf and a
      checkpointed one, remove the mark as of the checkpoint and again at once: the two leaves are pruned into
      one, but the checkpoint still lists both positions when the next one makes it go. */
  method RemovingAMarkTwicePanics<H(==)>(hs: Hashable<H>, a: H, b: H, c: H)
    returns (deferred: bool, direct: bool, outcome: Outcome)
    ensures deferred && direct && outcome == Panicked
  {
    var t;
    t, deferred, direct := RemovedTwice(hs, a, b);
    ghost var before;
    assert End(2, 0) == 4 && Above(1, 2) == 1;
    outcome, before := t.Append(c, CheckpointAt(2, Unmarked));
    assert before.checkpoints == map[1 := Checkpoint(AtPosition(1), {0}), 2 := Checkpoint(AtPosition(2), {})];
    PairCollides(before.shards, hs.combine(0, a, b), before.checkpoints);
  }
}
