/** The shard tree against the reference tree: run side by side as the repository's own tests run them, with
    marks removed as of the latest checkpoint, pruning never panics, both answer every root alike, and the shard
    tree gives every witness that the reference tree gives, and no other if every mark is removed once. */
module Agreements {

  import opened Basics
  import opened Merkle
  import opened PrunableTrees
  import opened Pruning
  import opened Stores
  import DenseTrees
  import opened ExcessCheckpoints
  import opened ShardStates
  import opened ShardTrees
  import opened CompleteTrees
  import opened SharedMarks
  import opened ReferenceRuns
  import opened KeptMarks

  // ---------- Why pruning does not panic ----------

  ghost predicate ListedHeld<H>(sh: nat, leaves: seq<H>, shards: seq<Located<H>>, c: Checkpoint)
  {
    forall p | p in c.marksRemoved :: p < |leaves| && FlagsAt(sh, shards, p).marked
  }

  ghost predicate ListedBefore(c: Checkpoint, bound: nat)
  {
    forall p | p in c.marksRemoved :: p < bound
  }

  /** Every mark that a checkpoint lists as removed is still there, and belongs to a leaf from before the next
      checkpoint. */
  ghost predicate MarksHeld<H>(sh: nat, leaves: seq<H>, saved: map<int, seq<H>>, shards: seq<Located<H>>,
                               checkpoints: map<int, Checkpoint>)
  {
    && (forall id | id in checkpoints :: ListedHeld(sh, leaves, shards, checkpoints[id]))
    && (forall i, j | i in checkpoints && j in saved && i < j :: ListedBefore(checkpoints[i], |saved[j]|))
  }

  lemma HeldNoPanic<H>(sh: nat, leaves: seq<H>, saved: map<int, seq<H>>, shards: seq<Located<H>>,
                       checkpoints: map<int, Checkpoint>, max: nat)
    requires Recorded(sh, leaves, saved, shards, checkpoints) && MarksHeld(sh, leaves, saved, shards, checkpoints)
    ensures !WillPanic(sh, shards, checkpoints, max)
  {
    forall p: nat | Cleared(checkpoints, max, p) != EPHEMERAL ensures FlagsAt(sh, shards, p) != EPHEMERAL {
      OwedIsHeld(sh, leaves, saved, shards, checkpoints, Removed(checkpoints, max), p);
    }
    NoPanicWhenFlagged(sh, shards, checkpoints, max);
  }

  /** Whatever some checkpoints owe at a position is flagged there. */
  lemma OwedIsHeld<H>(sh: nat, leaves: seq<H>, saved: map<int, seq<H>>, shards: seq<Located<H>>,
                      checkpoints: map<int, Checkpoint>,
                      ids: seq<int>, p: nat)
    requires Recorded(sh, leaves, saved, shards, checkpoints) && MarksHeld(sh, leaves, saved, shards, checkpoints)
    requires AllIn(ids, checkpoints) && OwedBy(checkpoints, ids, p) != EPHEMERAL
    ensures FlagsAt(sh, shards, p) != EPHEMERAL
  {
    OwedIff(checkpoints, ids, p);
    if OwedBy(checkpoints, ids, p).checkpoint {
      var i :| 0 <= i < |ids| && checkpoints[ids[i]].treeState == AtPosition(p);
      var id := ids[i];
      assert id in checkpoints && id in saved && CheckpointOk(sh, leaves, shards, saved[id], checkpoints[id]);
    } else {
      var i :| 0 <= i < |ids| && p in checkpoints[ids[i]].marksRemoved;
      var id := ids[i];
      assert id in checkpoints && ListedHeld(sh, leaves, shards, checkpoints[id]);
    }
  }

  /** Pruning takes no mark that a retained checkpoint lists. */
  lemma HeldAfterPrune<H>(sh: nat, leaves: seq<H>, saved: map<int, seq<H>>, shards: seq<Located<H>>,
                          checkpoints: map<int, Checkpoint>, max: nat, after: seq<Located<H>>)
    requires MarksHeld(sh, leaves, saved, shards, checkpoints)
    requires FlagsCleared(sh, checkpoints, max, shards, after)
    ensures MarksHeld(sh, leaves, KeptOnly(saved, checkpoints, max), after, KeptOnly(checkpoints, checkpoints, max))
  {
    var kept := KeptOnly(checkpoints, checkpoints, max);
    forall id | id in kept ensures ListedHeld(sh, leaves, after, kept[id]) {
      assert ListedHeld(sh, leaves, shards, checkpoints[id]);
      forall p | p in kept[id].marksRemoved ensures FlagsAt(sh, after, p).marked { KeptMark(checkpoints, max, id, p); }
    }
  }

  lemma KeptMark(checkpoints: map<int, Checkpoint>, max: nat, id: int, p: nat)
    requires id in checkpoints && id !in Removed(checkpoints, max) && p in checkpoints[id].marksRemoved
    ensures !Cleared(checkpoints, max, p).marked
  {
    KeptIff(checkpoints, max, id);
    var ids := Kept(checkpoints, max);
    var i :| 0 <= i < |ids| && ids[i] == id;
    OwedIff(checkpoints, ids, p);
  }

  lemma HeldAfterAppend<H>(sh: nat, leaves: seq<H>, saved: map<int, seq<H>>, shards: seq<Located<H>>,
                           checkpoints: map<int, Checkpoint>,
                           value: H, retention: Retention, after: seq<Located<H>>)
    requires MarksHeld(sh, leaves, saved, shards, checkpoints) && !OutOfSequence(retention, checkpoints)
    requires forall p: nat :: p < |leaves| ==> FlagsAt(sh, after, p) == FlagsAt(sh, shards, p)
    ensures MarksHeld(sh, leaves + [value], WithCheckpoint(saved, retention, leaves + [value]), after,
                      WithCheckpoint(checkpoints, retention, Checkpoint(AtPosition(|leaves|), {})))
  {
    var all := WithCheckpoint(checkpoints, retention, Checkpoint(AtPosition(|leaves|), {}));
    forall id | id in all ensures ListedHeld(sh, leaves + [value], after, all[id]) {
      if id in checkpoints { assert ListedHeld(sh, leaves, shards, checkpoints[id]); }
    }
  }

  lemma HeldAfterCheckpoint<H>(sh: nat, leaves: seq<H>, saved: map<int, seq<H>>, shards: seq<Located<H>>,
                               checkpoints: map<int, Checkpoint>,
                               id: int, c: Checkpoint, after: seq<Located<H>>)
    requires MarksHeld(sh, leaves, saved, shards, checkpoints) && (forall i | i in checkpoints :: i < id)
      && c.marksRemoved == {}
    requires forall p: nat :: FlagsAt(sh, shards, p).marked ==> FlagsAt(sh, after, p).marked
    ensures MarksHeld(sh, leaves, saved[id := leaves], after, checkpoints[id := c])
  {
    var all := checkpoints[id := c];
    forall i | i in all ensures ListedHeld(sh, leaves, after, all[i]) {
      if i in checkpoints { assert ListedHeld(sh, leaves, shards, checkpoints[i]); }
    }
  }

  lemma HeldAfterRewind<H>(sh: nat, leaves: seq<H>, saved: map<int, seq<H>>, shards: seq<Located<H>>,
                           checkpoints: map<int, Checkpoint>,
                           id: int, after: seq<Located<H>>, cap: Tree<H>)
    requires MarksHeld(sh, leaves, saved, shards, checkpoints) && id in checkpoints && id in saved
    requires forall p: nat :: p < |saved[id]| ==> FlagsAt(sh, after, p) == FlagsAt(sh, shards, p)
    ensures MarksHeld(sh, saved[id], UpTo(saved, id), after,
                      Store(shards, checkpoints, cap).TruncateCheckpointsRetaining(id).checkpoints)
  {
    var fewer := Store(shards, checkpoints, cap).TruncateCheckpointsRetaining(id).checkpoints;
    forall i | i in fewer ensures ListedHeld(sh, saved[id], after, fewer[i]) {
      assert ListedHeld(sh, leaves, shards, checkpoints[i]);
      if i < id { assert ListedBefore(checkpoints[i], |saved[id]|); }
    }
  }

  /** Removing a mark as of the latest checkpoint. */
  lemma HeldAfterRemoval<H>(sh: nat, leaves: seq<H>, saved: map<int, seq<H>>, shards: seq<Located<H>>,
                            checkpoints: map<int, Checkpoint>,
                            id: int, position: nat)
    requires MarksHeld(sh, leaves, saved, shards, checkpoints) && id in checkpoints
      && (forall i | i in saved :: i <= id)
    requires position < |leaves| && FlagsAt(sh, shards, position).marked
    ensures MarksHeld(sh, leaves, saved, shards, WithMarkRemoved(checkpoints, id, position))
  {
    var c := checkpoints[id].(marksRemoved := checkpoints[id].marksRemoved + {position});
    var all := checkpoints[id := c];
    assert ListedHeld(sh, leaves, shards, checkpoints[id]);
    forall i | i in all ensures ListedHeld(sh, leaves, shards, all[i]) {
      if i != id { assert ListedHeld(sh, leaves, shards, checkpoints[i]); }
    }
  }

  /** Only appended positions carry flags. */
  lemma FlagsWithin<H>(hs: Hashable<H>, sh: nat, leaves: seq<H>, shards: seq<Located<H>>, p: nat)
    requires Filled(hs, sh, leaves, shards) && FlagsAt(sh, shards, p) != EPHEMERAL
    ensures p < |leaves|
  {
    var i := Above(sh, p);
    assert ShardOk(hs, sh, leaves, shards[i], i);
    AboveRange(sh, p);
    FlagWithin(sh, i, |leaves|, shards[i].root, p);
  }

  lemma {:induction false} FlagWithin<H>(level: nat, index: nat, n: nat, t: Tree<H>, p: nat)
    requires DenseTrees.Dense(level, index, n, t) && Fits(level, t) && FlagAt(level, index, t, p) != EPHEMERAL
    ensures p < n
    decreases t
  {
    if t.Parent? {
      if p < End(level - 1, 2 * index) { FlagWithin(level - 1, 2 * index, n, t.left, p); }
      else { FlagWithin(level - 1, 2 * index + 1, n, t.right, p); }
    }
  }

  // ---------- Side by side ----------

  /** What ties the two trees together beside their leaves. */
  ghost predicate Linked<H>(sh: nat, max: nat, leaves: seq<H>, saved: map<int, seq<H>>, s: Store<H>, r: RefTree<H>)
  {
    && MarksHeld(sh, leaves, saved, s.shards, s.checkpoints)
    && MarksKnown(sh, |leaves|, s.shards, s.checkpoints, r.marks, r.checkpoints)
    && saved.Keys == s.checkpoints.Keys == r.checkpoints.Keys && |r.checkpoints| <= max && r.leaves == leaves
  }

  /** Both trees hold the same leaves and the same checkpoints. */
  ghost predicate Alike<H>(shardTree: ShardTree<H>, complete: CompleteTree<H>)
    reads shardTree, shardTree.store, complete
  {
    && shardTree.Valid() && complete.Valid()
    && shardTree.hs == complete.hs && shardTree.depth == complete.depth
      && shardTree.maxCheckpoints == complete.maxCheckpoints
    && shardTree.leaves == complete.leaves && shardTree.saved == complete.saved
    && shardTree.store.cap == Nil
    && Linked(shardTree.shardHeight, shardTree.maxCheckpoints, shardTree.leaves, shardTree.saved,
              shardTree.store.Contents(), ContentsOf(complete))
  }

  /** Pruning when there is no checkpoint too many. */
  lemma MarksAfterPrune<H>(sh: nat, n: nat, shards: seq<Located<H>>, checkpoints: Checkpoints, marks: set<nat>,
                           refs: References, max: nat, after: seq<Located<H>>)
    requires MarksKnown(sh, n, shards, checkpoints, marks, refs) && checkpoints.Keys == refs.Keys && |refs| <= max
    requires FlagsCleared(sh, checkpoints, max, shards, after)
    ensures MarksKnown(sh, n, after, KeptOnly(checkpoints, checkpoints, max), marks, refs)
  {
    KnownAfterDrop(sh, n, shards, checkpoints, marks, refs, max, after);
    OneTooMany(refs, max);
    OldestGoes(refs, max);
  }

  /** The marks after the next leaf and the pruning that follows, in both trees. */
  lemma MarksAfterAppend<H>(sh: nat, n: nat, s: Store<H>, marks: set<nat>, refs: References, retention: Retention,
                            max: nat, before: Store<H>, after: seq<Located<H>>,
                            newMarks: set<nat>, newRefs: References)
    requires MarksKnown(sh, n, s.shards, s.checkpoints, marks, refs) && s.checkpoints.Keys == refs.Keys && |refs| <= max
    requires !OutOfSequence(retention, s.checkpoints)
    requires before.checkpoints == WithCheckpoint(s.checkpoints, retention, Checkpoint(AtPosition(n), {}))
    requires forall id | id in s.checkpoints :: n !in s.checkpoints[id].marksRemoved
    requires forall p: nat ::
      FlagsAt(sh, before.shards, p) == if p == n then FlagsOf(retention) else FlagsAt(sh, s.shards, p)
    requires FlagsCleared(sh, before.checkpoints, max, before.shards, after)
    requires AppendedMarks(marks, refs, retention, n, max, newMarks, newRefs)
    ensures MarksKnown(sh, n + 1, after, KeptOnly(before.checkpoints, before.checkpoints, max), newMarks, newRefs)
  {
    MarksWithLeaf(sh, n, s, marks, refs, retention, before.shards);
    if retention.CheckpointAt? {
      assert retention.id !in refs.Keys;
      MarksAfterCheckpoint(sh, n + 1, Store(before.shards, s.checkpoints, s.cap), MarksWith(marks, retention, n),
                           MarkedAs(marks, refs, retention, n),
                           retention.id, Checkpoint(AtPosition(n), {}), max, before, after);
    } else {
      MarksAfterPrune(sh, n + 1, before.shards, before.checkpoints, newMarks, newRefs, max, after);
    }
  }

  lemma MarksWithLeaf<H>(sh: nat, n: nat, s: Store<H>, marks: set<nat>, refs: References, retention: Retention,
                         shards: seq<Located<H>>)
    requires MarksKnown(sh, n, s.shards, s.checkpoints, marks, refs) && s.checkpoints.Keys == refs.Keys
    requires forall id | id in s.checkpoints :: n !in s.checkpoints[id].marksRemoved
    requires forall p: nat :: FlagsAt(sh, shards, p) == if p == n then FlagsOf(retention) else FlagsAt(sh, s.shards, p)
    ensures MarksKnown(sh, n + 1, shards, s.checkpoints, MarksWith(marks, retention, n),
                       MarkedAs(marks, refs, retention, n))
    ensures MarkedAs(marks, refs, retention, n).Keys == refs.Keys && |MarkedAs(marks, refs, retention, n)| == |refs|
  {
    KnownAfterLeaf(sh, n, s.shards, s.checkpoints, marks, refs, MarksLeaf(retention), shards);
    MarkedAsKeys(marks, refs, retention, n);
  }

  lemma MarkedAsKeys(marks: set<nat>, refs: References, retention: Retention, n: nat)
    ensures MarkedAs(marks, refs, retention, n).Keys == refs.Keys && |MarkedAs(marks, refs, retention, n)| == |refs|
  {
    SameSizes(MarkedAs(marks, refs, retention, n), refs);
  }

  lemma OneMore<V>(m: map<int, V>, id: int, v: V)
    requires id !in m
    ensures m[id := v].Keys == m.Keys + {id} && |m[id := v]| == |m| + 1
  {
    assert m[id := v].Keys == m.Keys + {id};
    SameSize(m);
    SameSize(m[id := v]);
  }

  lemma MarksAfterCheckpoint<H>(sh: nat, n: nat, s: Store<H>, marks: set<nat>, refs: References, id: int, c: Checkpoint,
                                max: nat, before: Store<H>, after: seq<Located<H>>)
    requires MarksKnown(sh, n, s.shards, s.checkpoints, marks, refs) && s.checkpoints.Keys == refs.Keys && |refs| <= max
      && id !in refs
    requires before.checkpoints == s.checkpoints[id := c] && c.marksRemoved == {}
    requires forall p: nat :: FlagsAt(sh, s.shards, p).marked ==> FlagsAt(sh, before.shards, p).marked
    requires FlagsCleared(sh, before.checkpoints, max, before.shards, after)
    ensures var all := refs[id := CompleteCheckpoint(n, {}, {})];
            MarksKnown(sh, n, after, KeptOnly(before.checkpoints, before.checkpoints, max),
                       marks - DroppedMarks(all, max), Latest(all, max))
  {
    KnownAfterRecord(sh, n, s.shards, s.checkpoints, marks, refs, id, c, before.shards);
    OneMore(refs, id, CompleteCheckpoint(n, {}, {}));
    KnownAfterDrop(sh, n, before.shards, before.checkpoints, marks, refs[id := CompleteCheckpoint(n, {}, {})],
                   max, after);
  }

  /** The marks and checkpoints of the reference tree after the leaf at position `n`. */
  ghost predicate AppendedMarks(marks: set<nat>, refs: References, retention: Retention, n: nat, max: nat,
                                newMarks: set<nat>, newRefs: References)
  {
    var marked := MarkedAs(marks, refs, retention, n);
    if retention.CheckpointAt? then
      var all := marked[retention.id := CompleteCheckpoint(n + 1, {}, {})];
      newRefs == Latest(all, max) && newMarks == MarksWith(marks, retention, n) - DroppedMarks(all, max)
    else newMarks == MarksWith(marks, retention, n) && newRefs == marked
  }

  lemma SameKeys<H>(sh: nat, leaves: seq<H>, saved: map<int, seq<H>>, shards: seq<Located<H>>,
                    checkpoints: map<int, Checkpoint>)
    requires Recorded(sh, leaves, saved, shards, checkpoints)
    ensures saved.Keys == checkpoints.Keys && |saved| == |checkpoints|
  {
    forall id ensures id in saved.Keys <==> id in checkpoints.Keys { assert id in saved <==> id in checkpoints; }
    SameSizes(saved, checkpoints);
  }

  ghost function MarksOf<H>(shardTree: ShardTree<H>): MarkTree
    reads shardTree, shardTree.store
  {
    InShards(shardTree.shardHeight, |shardTree.leaves|, shardTree.store.Contents())
  }

  /** Both trees have the same marks, listed as removed by the same checkpoints. */
  ghost predicate SameMarks<H>(shardTree: ShardTree<H>, complete: CompleteTree<H>)
    reads shardTree, shardTree.store, complete
  {
    Twins(MarksOf(shardTree), ContentsOf(complete), complete.maxCheckpoints)
  }

  /** What one operation makes of the marks in the shard tree, and whether it was accepted there. */
  twostate predicate KeptStepped<H>(shardTree: ShardTree<H>, op: TreeOp<H>, ok: bool)
    reads shardTree, shardTree.store
  {
    && (ok <==> Takes(old(MarksOf(shardTree)), shardTree.depth, op))
    && MarksOf(shardTree) == MarksAfter(old(MarksOf(shardTree)), shardTree.depth, shardTree.maxCheckpoints, op)
  }

  /** What one operation on both trees makes of the reference tree, and whether it was accepted there. */
  twostate predicate Stepped<H>(complete: CompleteTree<H>, op: TreeOp<H>, ok: bool)
    reads complete
  {
    && (ok <==> Accepts(old(ContentsOf(complete)), complete.depth, op))
    && ContentsOf(complete) == After(old(ContentsOf(complete)), complete.depth, complete.maxCheckpoints, op)
  }

  lemma StepSame<H>(shardTree: ShardTree<H>, complete: CompleteTree<H>, op: TreeOp<H>)
    ensures var t, depth, max := MarksOf(shardTree), complete.depth, complete.maxCheckpoints;
            !Takes(t, depth, op) ==> MarksAfter(t, depth, max, op) == t
    ensures var r, depth, max := ContentsOf(complete), complete.depth, complete.maxCheckpoints;
            !Accepts(r, depth, op) ==> After(r, depth, max, op) == r
    ensures SameMarks(shardTree, complete) ==>
      var t, r, depth, max := MarksOf(shardTree), ContentsOf(complete), complete.depth, complete.maxCheckpoints;
      && (Takes(t, depth, op) <==> Accepts(r, depth, op))
      && (Twins(MarksAfter(t, depth, max, op), After(r, depth, max, op), max) <==> DropsClean(r, depth, max, op))
  {
    if SameMarks(shardTree, complete) {
      StepTwins(MarksOf(shardTree), ContentsOf(complete), complete.depth, complete.maxCheckpoints, op);
    }
  }

  /** Appending to both: pruning does not panic, and both accept or both refuse. */
  method AppendBoth<H>(shardTree: ShardTree<H>, complete: CompleteTree<H>, value: H, retention: Retention)
    returns (outcome: Outcome, ok: bool)
    requires Alike(shardTree, complete)
    modifies shardTree, shardTree.store, complete
    ensures Alike(shardTree, complete)
    ensures outcome != Panicked && (outcome == Done <==> ok)
    ensures Stepped(complete, AppendOp(value, retention), ok)
    ensures KeptStepped(shardTree, AppendOp(value, retention), outcome == Done)
    ensures old(SameMarks(shardTree, complete)) ==>
      (SameMarks(shardTree, complete) <==>
        DropsClean(old(ContentsOf(complete)), complete.depth, complete.maxCheckpoints, AppendOp(value, retention)))
  {
    hide FlagsAt, FlagsOf, MarksAfter, After, DropsClean, Twins, Recorded, WillPanic, MarksHeld, MarksKnown,
      Filled, Fits,
      KeptOnly, Cleared, Latest, OthersSame;
    ghost var leaves, saved, s, r := shardTree.leaves, shardTree.saved, shardTree.store.Contents(),
      ContentsOf(complete);
    StepSame(shardTree, complete, AppendOp(value, retention));
    ghost var before;
    outcome, before := shardTree.Append(value, retention);
    ok := Perform(complete, AppendOp(value, retention));
    LaterThanAll(s.checkpoints, r.checkpoints, retention);
    if !ok { return; }
    AppendLinks(shardTree.shardHeight, shardTree.depth, shardTree.maxCheckpoints, leaves, saved, s, r, value,
                retention, before,
                shardTree.saved, shardTree.store.Contents(), ContentsOf(complete));
  }

  lemma LaterThanAll(checkpoints: Checkpoints, refs: References, retention: Retention)
    requires checkpoints.Keys == refs.Keys
    ensures OutOfSequence(retention, checkpoints) <==> retention.CheckpointAt? && !Later(refs, retention.id)
  {
    if retention.CheckpointAt? { assert forall i :: i in checkpoints <==> i in refs.Keys; }
  }

  /** What the shard tree's store is after pruning, unless that panics. */
  ghost predicate PrunedTo<H>(sh: nat, max: nat, more: map<int, seq<H>>, before: Store<H>, newSaved: map<int, seq<H>>,
                              after: Store<H>)
  {
    && newSaved == KeptOnly(more, before.checkpoints, max)
    && after.checkpoints == KeptOnly(before.checkpoints, before.checkpoints, max)
    && FlagsCleared(sh, before.checkpoints, max, before.shards, after.shards)
  }

  lemma PrunedKeys<V>(more: map<int, V>, checkpoints: Checkpoints, refs: References, max: nat)
    requires more.Keys == checkpoints.Keys == refs.Keys && |refs| <= max + 1
    ensures KeptOnly(more, checkpoints, max).Keys == KeptOnly(checkpoints, checkpoints, max).Keys ==
      Latest(refs, max).Keys
    ensures |Latest(refs, max)| <= max
    ensures |refs| <= max ==> Latest(refs, max) == refs
  {
    KeptIsLatest(refs, checkpoints, max);
    OneTooMany(refs, max);
    forall i ensures i in more <==> i in refs { assert i in more.Keys <==> i in refs.Keys; }
    forall i ensures i in checkpoints <==> i in refs { assert i in checkpoints.Keys <==> i in refs.Keys; }
    forall i ensures i in KeptOnly(more, checkpoints, max).Keys <==> i in KeptOnly(refs, checkpoints, max).Keys { }
    forall i ensures i in KeptOnly(checkpoints, checkpoints, max).Keys <==> i in KeptOnly(refs, checkpoints, max).Keys {
    }
  }

  /** The checkpoints of both trees after a new one. */
  lemma CheckpointedKeys<V>(saved: map<int, V>, checkpoints: Checkpoints, refs: References, max: nat, id: int, v: V,
                            c: Checkpoint, n: nat)
    requires saved.Keys == checkpoints.Keys == refs.Keys && |refs| <= max && id !in refs
    ensures var more, all, marked := saved[id := v], checkpoints[id := c], refs[id := CompleteCheckpoint(n, {}, {})];
            && KeptOnly(more, all, max).Keys == KeptOnly(all, all, max).Keys == Latest(marked, max).Keys
            && |Latest(marked, max)| <= max
  {
    OneMore(refs, id, CompleteCheckpoint(n, {}, {}));
    assert id !in refs.Keys;
    OneMore(checkpoints, id, c);
    OneMore(saved, id, v);
    PrunedKeys(saved[id := v], checkpoints[id := c], refs[id := CompleteCheckpoint(n, {}, {})], max);
  }

  /** What an accepted append makes of the reference tree. */
  lemma AppendedReference<H>(r: RefTree<H>, depth: nat, max: nat, value: H, retention: Retention)
    requires Accepts(r, depth, AppendOp(value, retention))
    ensures var r2 := After(r, depth, max, AppendOp(value, retention));
            && r2.leaves == r.leaves + [value]
            && AppendedMarks(r.marks, r.checkpoints, retention, |r.leaves|, max, r2.marks, r2.checkpoints)
  {
  }

  lemma AppendedKeys<H>(leaves: seq<H>, saved: map<int, seq<H>>, checkpoints: Checkpoints, marks: set<nat>,
                        refs: References, max: nat, value: H,
                        retention: Retention, newMarks: set<nat>, newRefs: References)
    requires saved.Keys == checkpoints.Keys == refs.Keys && |refs| <= max
    requires retention.CheckpointAt? ==> retention.id !in refs
    requires AppendedMarks(marks, refs, retention, |leaves|, max, newMarks, newRefs)
    ensures var more, all := WithCheckpoint(saved, retention, leaves + [value]),
      WithCheckpoint(checkpoints, retention, Checkpoint(AtPosition(|leaves|), {}));
            KeptOnly(more, all, max).Keys == KeptOnly(all, all, max).Keys == newRefs.Keys && |newRefs| <= max
  {
    var marked := MarkedAs(marks, refs, retention, |leaves|);
    MarkedAsKeys(marks, refs, retention, |leaves|);
    if retention.CheckpointAt? {
      assert retention.id !in refs.Keys;
      CheckpointedKeys(saved, checkpoints, marked, max, retention.id, leaves + [value],
                       Checkpoint(AtPosition(|leaves|), {}), |leaves| + 1);
    } else {
      PrunedKeys(saved, checkpoints, marked, max);
    }
  }

  /** A new leaf cannot make pruning panic, and afterwards the two trees are tied together as before. */
  lemma AppendLinks<H>(sh: nat, depth: nat, max: nat, leaves: seq<H>, saved: map<int, seq<H>>, s: Store<H>,
                       r: RefTree<H>, value: H, retention: Retention,
                       before: Store<H>, newSaved: map<int, seq<H>>, after: Store<H>, r2: RefTree<H>)
    requires Linked(sh, max, leaves, saved, s, r)
    requires Accepts(r, depth, AppendOp(value, retention)) && r2 == After(r, depth, max, AppendOp(value, retention))
    requires before.checkpoints == WithCheckpoint(s.checkpoints, retention, Checkpoint(AtPosition(|leaves|), {}))
    requires Recorded(sh, leaves + [value], WithCheckpoint(saved, retention, leaves + [value]), before.shards,
                      before.checkpoints)
    requires forall p: nat ::
      FlagsAt(sh, before.shards, p) == if p == |leaves| then FlagsOf(retention) else FlagsAt(sh, s.shards, p)
    requires !WillPanic(sh, before.shards, before.checkpoints, max) ==>
      PrunedTo(sh, max, WithCheckpoint(saved, retention, leaves + [value]), before, newSaved, after)
    ensures !WillPanic(sh, before.shards, before.checkpoints, max)
    ensures newSaved == SavedAfter(leaves, saved, max, AppendOp(value, retention))
    ensures Linked(sh, max, leaves + [value], newSaved, after, r2)
    ensures InShards(sh, |leaves| + 1, after) == MarksAfter(InShards(sh, |leaves|, s), depth, max,
                                                            AppendOp(value, retention))
  {
    hide FlagsAt, FlagsOf, Recorded, Cleared;
    LaterThanAll(s.checkpoints, r.checkpoints, retention);
    AppendedReference(r, depth, max, value, retention);
    AppendedKeys(leaves, saved, s.checkpoints, r.marks, r.checkpoints, max, value, retention, r2.marks, r2.checkpoints);
    AppendHeld(sh, leaves, saved, s, value, retention, before, max);
    AppendedAlike(sh, leaves, saved, s, value, retention, before, max, r.marks, r.checkpoints, after.shards, r2.marks,
                  r2.checkpoints);
    SameSizes(s.checkpoints, r.checkpoints);
    AppendedInShards(sh, |leaves|, depth, max, s, value, retention, before, after);
  }

  lemma AppendedAlike<H>(sh: nat, leaves: seq<H>, saved: map<int, seq<H>>, s: Store<H>, value: H, retention: Retention,
                         before: Store<H>, max: nat,
                         marks: set<nat>, refs: References, after: seq<Located<H>>, newMarks: set<nat>,
                         newRefs: References)
    requires var more := WithCheckpoint(saved, retention, leaves + [value]);
             MarksHeld(sh, leaves, saved, s.shards, s.checkpoints)
               && MarksHeld(sh, leaves + [value], more, before.shards, before.checkpoints)
    requires !OutOfSequence(retention, s.checkpoints)
    requires before.checkpoints == WithCheckpoint(s.checkpoints, retention, Checkpoint(AtPosition(|leaves|), {}))
    requires MarksKnown(sh, |leaves|, s.shards, s.checkpoints, marks, refs) && s.checkpoints.Keys == refs.Keys
      && |refs| <= max
    requires forall p: nat ::
      FlagsAt(sh, before.shards, p) == if p == |leaves| then FlagsOf(retention) else FlagsAt(sh, s.shards, p)
    requires FlagsCleared(sh, before.checkpoints, max, before.shards, after)
    requires AppendedMarks(marks, refs, retention, |leaves|, max, newMarks, newRefs)
    ensures var more, kept := WithCheckpoint(saved, retention, leaves + [value]),
      KeptOnly(before.checkpoints, before.checkpoints, max);
            && MarksHeld(sh, leaves + [value], KeptOnly(more, before.checkpoints, max), after, kept)
            && MarksKnown(sh, |leaves + [value]|, after, kept, newMarks, newRefs)
  {
    HeldAfterPrune(sh, leaves + [value], WithCheckpoint(saved, retention, leaves + [value]), before.shards,
                   before.checkpoints, max, after);
    NextUnlisted(sh, leaves, saved, s.shards, s.checkpoints);
    MarksAfterAppend(sh, |leaves|, s, marks, refs, retention, max, before, after, newMarks, newRefs);
  }

  lemma NextUnlisted<H>(sh: nat, leaves: seq<H>, saved: map<int, seq<H>>, shards: seq<Located<H>>,
                        checkpoints: Checkpoints)
    requires MarksHeld(sh, leaves, saved, shards, checkpoints)
    ensures forall id | id in checkpoints :: |leaves| !in checkpoints[id].marksRemoved
  {
    forall id | id in checkpoints ensures |leaves| !in checkpoints[id].marksRemoved {
      assert ListedHeld(sh, leaves, shards, checkpoints[id]);
    }
  }

  /** A new leaf keeps the listed marks, cannot make pruning panic, and leaves the latest checkpoints. */
  lemma AppendHeld<H>(sh: nat, leaves: seq<H>, saved: map<int, seq<H>>, s: Store<H>, value: H, retention: Retention,
                      before: Store<H>, max: nat)
    requires MarksHeld(sh, leaves, saved, s.shards, s.checkpoints) && !OutOfSequence(retention, s.checkpoints)
    requires before.checkpoints == WithCheckpoint(s.checkpoints, retention, Checkpoint(AtPosition(|leaves|), {}))
    requires Recorded(sh, leaves + [value], WithCheckpoint(saved, retention, leaves + [value]), before.shards,
                      before.checkpoints)
    requires forall p: nat :: p < |leaves| ==> FlagsAt(sh, before.shards, p) == FlagsAt(sh, s.shards, p)
    ensures var more := WithCheckpoint(saved, retention, leaves + [value]);
            && MarksHeld(sh, leaves + [value], more, before.shards, before.checkpoints)
            && !WillPanic(sh, before.shards, before.checkpoints, max)
            && KeptOnly(more, before.checkpoints, max) == Latest(more, max)
            && (|more| <= max ==> KeptOnly(more, before.checkpoints, max) == more)
  {
    var grown := leaves + [value];
    var more := WithCheckpoint(saved, retention, grown);
    HeldAfterAppend(sh, leaves, saved, s.shards, s.checkpoints, value, retention, before.shards);
    HeldNoPanic(sh, grown, more, before.shards, before.checkpoints, max);
    SameKeys(sh, grown, more, before.shards, before.checkpoints);
    KeptIsLatest(more, before.checkpoints, max);
  }

  /** A new checkpoint keeps the listed marks, cannot make pruning panic, and leaves the latest checkpoints. */
  lemma CheckpointHeld<H>(sh: nat, leaves: seq<H>, saved: map<int, seq<H>>, s: Store<H>, id: int, c: Checkpoint,
                          before: Store<H>, max: nat)
    requires MarksHeld(sh, leaves, saved, s.shards, s.checkpoints) && forall i | i in s.checkpoints :: i < id
    requires before.checkpoints == s.checkpoints[id := c] && c.marksRemoved == {}
    requires Recorded(sh, leaves, saved[id := leaves], before.shards, before.checkpoints)
    requires forall p: nat :: FlagsAt(sh, s.shards, p).marked ==> FlagsAt(sh, before.shards, p).marked
    ensures MarksHeld(sh, leaves, saved[id := leaves], before.shards, before.checkpoints)
    ensures !WillPanic(sh, before.shards, before.checkpoints, max)
    ensures KeptOnly(saved[id := leaves], before.checkpoints, max) == Latest(saved[id := leaves], max)
  {
    HeldAfterCheckpoint(sh, leaves, saved, s.shards, s.checkpoints, id, c, before.shards);
    HeldNoPanic(sh, leaves, saved[id := leaves], before.shards, before.checkpoints, max);
    SameKeys(sh, leaves, saved[id := leaves], before.shards, before.checkpoints);
    KeptIsLatest(saved[id := leaves], before.checkpoints, max);
  }

  lemma LaterIff(checkpoints: Checkpoints, refs: References, id: int)
    requires checkpoints.Keys == refs.Keys
    ensures (exists i :: i in checkpoints && i >= id) <==> !Later(refs, id)
  {
    assert forall i :: i in checkpoints <==> i in refs.Keys;
  }

  /** Checkpointing both. */
  method CheckpointBoth<H>(shardTree: ShardTree<H>, complete: CompleteTree<H>, id: int)
    returns (outcome: Outcome, ok: bool)
    requires Alike(shardTree, complete)
    modifies shardTree, shardTree.store, complete
    ensures Alike(shardTree, complete)
    ensures outcome != Panicked && (outcome == Done <==> ok)
    ensures Stepped(complete, CheckpointOp(id), ok)
    ensures KeptStepped(shardTree, CheckpointOp(id), outcome == Done)
    ensures old(SameMarks(shardTree, complete)) ==>
      (SameMarks(shardTree, complete) <==>
        DropsClean(old(ContentsOf(complete)), complete.depth, complete.maxCheckpoints, CheckpointOp(id)))
  {
    hide FlagsAt, FlagsOf, MarksAfter, After, DropsClean, Twins, Recorded, WillPanic, MarksHeld, MarksKnown,
      Filled, Fits,
      KeptOnly, Cleared, Latest, OthersSame;
    ghost var leaves, saved, s, r := shardTree.leaves, shardTree.saved, shardTree.store.Contents(),
      ContentsOf(complete);
    StepSame(shardTree, complete, CheckpointOp(id));
    ghost var before;
    outcome, before := shardTree.AddCheckpoint(id);
    ok := Perform(complete, CheckpointOp(id));
    LaterIff(s.checkpoints, r.checkpoints, id);
    if !ok { return; }
    CheckpointLinks(shardTree.shardHeight, shardTree.depth, shardTree.maxCheckpoints, leaves, saved, s, r, id, before,
                    shardTree.saved, shardTree.store.Contents(), ContentsOf(complete));
  }

  /** What a new checkpoint makes of both trees before pruning. */
  ghost predicate CheckpointedTo<H>(sh: nat, leaves: seq<H>, s: Store<H>, id: int, before: Store<H>)
  {
    && before.checkpoints == s.checkpoints[id := CheckpointOf(leaves)]
    && forall p: nat :: TipFlag(leaves, p, FlagsAt(sh, s.shards, p), FlagsAt(sh, before.shards, p))
  }

  ghost predicate TipFlag<H>(leaves: seq<H>, p: nat, before: Flags, after: Flags)
  {
    after == if p + 1 == |leaves| then before.Or(CHECKPOINT) else before
  }

  /** A new checkpoint cannot make pruning panic. */
  lemma CheckpointedHeld<H>(sh: nat, max: nat, leaves: seq<H>, saved: map<int, seq<H>>, s: Store<H>, r: RefTree<H>,
                            id: int, before: Store<H>)
    requires Linked(sh, max, leaves, saved, s, r) && Later(r.checkpoints, id)
      && CheckpointedTo(sh, leaves, s, id, before)
    requires Recorded(sh, leaves, saved[id := leaves], before.shards, before.checkpoints)
    ensures MarksHeld(sh, leaves, saved[id := leaves], before.shards, before.checkpoints)
    ensures !WillPanic(sh, before.shards, before.checkpoints, max)
    ensures KeptOnly(saved[id := leaves], before.checkpoints, max) == Latest(saved[id := leaves], max)
  {
    forall i | i in s.checkpoints ensures i < id { assert i in s.checkpoints.Keys && i in r.checkpoints.Keys; }
    forall p: nat ensures FlagsAt(sh, s.shards, p).marked ==> FlagsAt(sh, before.shards, p).marked {
      assert TipFlag(leaves, p, FlagsAt(sh, s.shards, p), FlagsAt(sh, before.shards, p));
    }
    CheckpointHeld(sh, leaves, saved, s, id, CheckpointOf(leaves), before, max);
  }

  lemma CheckpointedKnown<H>(sh: nat, max: nat, leaves: seq<H>, saved: map<int, seq<H>>, s: Store<H>,
                             r: RefTree<H>, id: int,
                             before: Store<H>, after: Store<H>)
    requires Linked(sh, max, leaves, saved, s, r) && Later(r.checkpoints, id)
      && CheckpointedTo(sh, leaves, s, id, before)
    requires FlagsCleared(sh, before.checkpoints, max, before.shards, after.shards)
    requires after.checkpoints == KeptOnly(before.checkpoints, before.checkpoints, max)
    ensures var r2 := Checkpointed(r, max, id);
            MarksKnown(sh, |leaves|, after.shards, after.checkpoints, r2.marks, r2.checkpoints)
  {
    forall p: nat ensures FlagsAt(sh, s.shards, p).marked ==> FlagsAt(sh, before.shards, p).marked {
      assert TipFlag(leaves, p, FlagsAt(sh, s.shards, p), FlagsAt(sh, before.shards, p));
    }
    MarksAfterCheckpoint(sh, |leaves|, s, r.marks, r.checkpoints, id, CheckpointOf(leaves), max, before, after.shards);
  }

  lemma CheckpointedLinked<H>(sh: nat, max: nat, leaves: seq<H>, saved: map<int, seq<H>>, s: Store<H>,
                              r: RefTree<H>, id: int,
                              before: Store<H>, newSaved: map<int, seq<H>>, after: Store<H>)
    requires Linked(sh, max, leaves, saved, s, r) && Later(r.checkpoints, id)
      && CheckpointedTo(sh, leaves, s, id, before)
    requires MarksHeld(sh, leaves, saved[id := leaves], before.shards, before.checkpoints)
    requires PrunedTo(sh, max, saved[id := leaves], before, newSaved, after)
    ensures Linked(sh, max, leaves, newSaved, after, Checkpointed(r, max, id))
  {
    CheckpointedKeys(saved, s.checkpoints, r.checkpoints, max, id, leaves, CheckpointOf(leaves), |leaves|);
    HeldAfterPrune(sh, leaves, saved[id := leaves], before.shards, before.checkpoints, max, after.shards);
    CheckpointedKnown(sh, max, leaves, saved, s, r, id, before, after);
  }

  lemma CheckpointedInShards<H>(sh: nat, depth: nat, max: nat, leaves: seq<H>, saved: map<int, seq<H>>, s: Store<H>,
                                r: RefTree<H>, id: int,
                                before: Store<H>, newSaved: map<int, seq<H>>, after: Store<H>)
    requires Linked(sh, max, leaves, saved, s, r) && Later(r.checkpoints, id)
      && CheckpointedTo(sh, leaves, s, id, before)
    requires PrunedTo(sh, max, saved[id := leaves], before, newSaved, after)
    ensures InShards(sh, |leaves|, after) == MarksAfter<H>(InShards(sh, |leaves|, s), depth, max, CheckpointOp(id))
  {
    hide MarksHeld, MarksKnown, FlagsCleared, KeptOnly, MarksAfter, InShards;
    SameSizes(s.checkpoints, r.checkpoints);
    SameKeysIn(s.checkpoints, r.checkpoints);
    forall p: nat ensures FlagsAt(sh, s.shards, p).marked <==> FlagsAt(sh, before.shards, p).marked {
      assert TipFlag(leaves, p, FlagsAt(sh, s.shards, p), FlagsAt(sh, before.shards, p));
    }
    NotedInShards(sh, |leaves|, depth, max, s, id, before, after);
  }

  lemma CheckpointedLinks<H>(sh: nat, depth: nat, max: nat, leaves: seq<H>, saved: map<int, seq<H>>, s: Store<H>,
                             r: RefTree<H>, id: int,
                             before: Store<H>, newSaved: map<int, seq<H>>, after: Store<H>)
    requires Linked(sh, max, leaves, saved, s, r) && Later(r.checkpoints, id)
      && CheckpointedTo(sh, leaves, s, id, before)
    requires Recorded(sh, leaves, saved[id := leaves], before.shards, before.checkpoints)
    requires !WillPanic(sh, before.shards, before.checkpoints, max) ==>
      PrunedTo(sh, max, saved[id := leaves], before, newSaved, after)
    ensures !WillPanic(sh, before.shards, before.checkpoints, max)
    ensures newSaved == Latest(saved[id := leaves], max)
    ensures Linked(sh, max, leaves, newSaved, after, Checkpointed(r, max, id))
    ensures InShards(sh, |leaves|, after) == MarksAfter<H>(InShards(sh, |leaves|, s), depth, max, CheckpointOp(id))
  {
    CheckpointedHeld(sh, max, leaves, saved, s, r, id, before);
    CheckpointedLinked(sh, max, leaves, saved, s, r, id, before, newSaved, after);
    CheckpointedInShards(sh, depth, max, leaves, saved, s, r, id, before, newSaved, after);
  }

  /** Likewise for a new checkpoint. */
  lemma CheckpointLinks<H>(sh: nat, depth: nat, max: nat, leaves: seq<H>, saved: map<int, seq<H>>, s: Store<H>,
                           r: RefTree<H>, id: int,
                           before: Store<H>, newSaved: map<int, seq<H>>, after: Store<H>, r2: RefTree<H>)
    requires Linked(sh, max, leaves, saved, s, r)
    requires Accepts(r, depth, CheckpointOp(id)) && r2 == After(r, depth, max, CheckpointOp(id))
    requires before.checkpoints == s.checkpoints[id := CheckpointOf(leaves)]
    requires Recorded(sh, leaves, saved[id := leaves], before.shards, before.checkpoints)
    requires forall p: nat :: FlagsAt(sh, before.shards, p) ==
                              (if p + 1 == |leaves| then FlagsAt(sh, s.shards, p).Or(CHECKPOINT)
                               else FlagsAt(sh, s.shards, p))
    requires !WillPanic(sh, before.shards, before.checkpoints, max) ==>
      PrunedTo(sh, max, saved[id := leaves], before, newSaved, after)
    ensures !WillPanic(sh, before.shards, before.checkpoints, max)
    ensures newSaved == SavedAfter(leaves, saved, max, CheckpointOp(id))
    ensures Linked(sh, max, leaves, newSaved, after, r2)
    ensures InShards(sh, |leaves|, after) == MarksAfter<H>(InShards(sh, |leaves|, s), depth, max, CheckpointOp(id))
  {
    CheckpointedToIs(sh, leaves, s, id, before);
    CheckpointedLinks(sh, depth, max, leaves, saved, s, r, id, before, newSaved, after);
  }

  lemma CheckpointedToIs<H>(sh: nat, leaves: seq<H>, s: Store<H>, id: int, before: Store<H>)
    requires before.checkpoints == s.checkpoints[id := CheckpointOf(leaves)]
    requires forall p: nat :: FlagsAt(sh, before.shards, p) ==
                              (if p + 1 == |leaves| then FlagsAt(sh, s.shards, p).Or(CHECKPOINT)
                               else FlagsAt(sh, s.shards, p))
    ensures CheckpointedTo(sh, leaves, s, id, before)
  {
    forall p: nat ensures TipFlag(leaves, p, FlagsAt(sh, s.shards, p), FlagsAt(sh, before.shards, p)) { }
  }

  /** Going back to the checkpoint at a depth in both. */
  method RewindBoth<H>(shardTree: ShardTree<H>, complete: CompleteTree<H>, checkpointDepth: nat)
    returns (found: bool, ok: bool)
    requires Alike(shardTree, complete)
    modifies shardTree, shardTree.store, complete
    ensures Alike(shardTree, complete) && found == ok
    ensures Stepped(complete, RewindOp(checkpointDepth), ok)
    ensures KeptStepped(shardTree, RewindOp(checkpointDepth), found)
    ensures old(SameMarks(shardTree, complete)) ==>
      (SameMarks(shardTree, complete) <==>
        DropsClean(old(ContentsOf(complete)), complete.depth, complete.maxCheckpoints, RewindOp(checkpointDepth)))
  {
    hide FlagsAt, MarksAfter, After, DropsClean, Twins, Recorded, UpTo, InOrder, MarkedSince, KeptUpTo,
      IdAtDepth, MarksHeld,
      MarksKnown, Filled;
    ghost var leaves, saved, s, r := shardTree.leaves, shardTree.saved, shardTree.store.Contents(),
      ContentsOf(complete);
    StepSame(shardTree, complete, RewindOp(checkpointDepth));
    SameDepth(saved, s.checkpoints, r.checkpoints, checkpointDepth);
    found := shardTree.TruncateToCheckpointDepth(checkpointDepth);
    ok := Perform(complete, RewindOp(checkpointDepth));
    if !ok { return; }
    SavedIs(leaves, saved, r.checkpoints, IdAtDepth(saved.Keys, checkpointDepth).value);
    RewindLinks(shardTree.shardHeight, shardTree.depth, shardTree.maxCheckpoints, leaves, saved, s, r, checkpointDepth,
                shardTree.store.Contents(), ContentsOf(complete));
  }

  lemma SameDepth<V>(saved: map<int, V>, checkpoints: Checkpoints, refs: References, d: nat)
    requires saved.Keys == checkpoints.Keys == refs.Keys
    ensures d < |checkpoints| <==> IdAtDepth(refs.Keys, d).Some?
    ensures IdAtDepth(refs.Keys, d).Some? ==> IdAtDepth(refs.Keys, d).value in refs
  {
    SameSize(checkpoints);
    AllKeys(refs);
  }

  /** Likewise for going back. */
  lemma RewindLinks<H>(sh: nat, depth: nat, max: nat, leaves: seq<H>, saved: map<int, seq<H>>, s: Store<H>,
                       r: RefTree<H>, d: nat, after: Store<H>, r2: RefTree<H>)
    requires Linked(sh, max, leaves, saved, s, r)
    requires Recorded(sh, leaves, saved, s.shards, s.checkpoints)
    requires Accepts(r, depth, RewindOp(d)) && r2 == After(r, depth, max, RewindOp(d))
    requires var id := IdAtDepth(saved.Keys, d).value;
             && |saved[id]| == r.checkpoints[id].leavesLen && Take(leaves, |saved[id]|) == saved[id]
             && after.checkpoints == s.TruncateCheckpointsRetaining(id).checkpoints
             && forall p: nat ::
               FlagsAt(sh, after.shards, p) == (if p < |saved[id]| then FlagsAt(sh, s.shards, p) else EPHEMERAL)
    ensures var id := IdAtDepth(saved.Keys, d).value;
            Linked(sh, max, saved[id], UpTo(saved, id), after, r2)
    ensures InShards(sh, |saved[IdAtDepth(saved.Keys, d).value]|, after) ==
      MarksAfter<H>(InShards(sh, |leaves|, s), depth, max, RewindOp(d))
  {
    var id := IdAtDepth(saved.Keys, d).value;
    HeldAfterRewind(sh, leaves, saved, s.shards, s.checkpoints, id, after.shards, s.cap);
    KnownAfterRewind(sh, |leaves|, s.shards, s.checkpoints, r.marks, r.checkpoints, id, r2.marks, after.shards, s.cap);
    RewoundKeys(saved, s, r.checkpoints, id);
    SavedSize(sh, leaves, saved, s.shards, s.checkpoints, id);
    RewoundInShards(sh, |leaves|, depth, max, s, d, after);
  }

  lemma SavedSize<H>(sh: nat, leaves: seq<H>, saved: map<int, seq<H>>, shards: seq<Located<H>>,
                     checkpoints: Checkpoints, id: int)
    requires Recorded(sh, leaves, saved, shards, checkpoints) && id in checkpoints
    ensures id in saved && SizeOf(checkpoints[id]) == |saved[id]| <= |leaves|
  {
    assert CheckpointOk(sh, leaves, shards, saved[id], checkpoints[id]);
  }

  lemma RewoundKeys<H>(saved: map<int, seq<H>>, s: Store<H>, refs: References, id: int)
    requires saved.Keys == s.checkpoints.Keys == refs.Keys && id in refs
    ensures UpTo(saved, id).Keys == s.TruncateCheckpointsRetaining(id).checkpoints.Keys == KeptUpTo(refs, id).Keys
    ensures |KeptUpTo(refs, id)| <= |refs|
  {
    forall i ensures i in saved <==> i in refs { assert i in saved.Keys <==> i in refs.Keys; }
    forall i ensures i in s.checkpoints <==> i in refs { assert i in s.checkpoints.Keys <==> i in refs.Keys; }
    forall i ensures i in UpTo(saved, id).Keys <==> i in KeptUpTo(refs, id).Keys { }
    forall i ensures i in s.TruncateCheckpointsRetaining(id).checkpoints.Keys <==> i in KeptUpTo(refs, id).Keys { }
    Fewer(KeptUpTo(refs, id), refs);
  }

  /** Removing a mark from both, as of the latest checkpoint if there is one: the shard tree removes every mark
      that the reference tree removes, and no other if each mark was removed once. */
  method RemoveMarkBoth<H>(shardTree: ShardTree<H>, complete: CompleteTree<H>, position: nat)
    returns (removed: bool, ok: bool)
    requires Alike(shardTree, complete)
    modifies shardTree, shardTree.store, complete
    ensures Alike(shardTree, complete) && (ok ==> removed)
    ensures Stepped(complete, RemoveMarkOp(position), ok)
    ensures KeptStepped(shardTree, RemoveMarkOp(position), removed)
    ensures old(SameMarks(shardTree, complete)) ==> removed == ok && SameMarks(shardTree, complete)
  {
    ghost var leaves, saved, s, r := shardTree.leaves, shardTree.saved, shardTree.store.Contents(),
      ContentsOf(complete);
    StepSame(shardTree, complete, RemoveMarkOp(position));
    var latest := shardTree.store.MaxCheckpointId();
    removed := shardTree.RemoveMark(position, latest);
    ok := Perform(complete, RemoveMarkOp(position));
    KnownIsFlagged(shardTree.shardHeight, |leaves|, s.shards, s.checkpoints, r.marks, r.checkpoints, position);
    if !removed { return; }
    FlagsWithin(shardTree.hs, shardTree.shardHeight, leaves, s.shards, position);
    RemovalLinks(shardTree.shardHeight, shardTree.depth, shardTree.maxCheckpoints, leaves, saved, s, r,
                 position, latest,
                 shardTree.store.Contents(), ContentsOf(complete));
  }

  /** Likewise for removing a mark. */
  lemma RemovalLinks<H>(sh: nat, depth: nat, max: nat, leaves: seq<H>, saved: map<int, seq<H>>, s: Store<H>,
                        r: RefTree<H>, position: nat, latest: Option<int>,
                        after: Store<H>, r2: RefTree<H>)
    requires Linked(sh, max, leaves, saved, s, r)
    requires r2 == After(r, depth, max, RemoveMarkOp(position)) && position < |leaves|
      && FlagsAt(sh, s.shards, position).marked
    requires latest.None? <==> s.checkpoints == map[]
    requires latest.Some? ==> DeferredTo(s, position, latest.value, after)
    requires latest.None? ==> after.checkpoints == s.checkpoints && UnmarkedAt(sh, s.shards, after.shards, position)
    ensures Linked(sh, max, leaves, saved, after, r2)
    ensures InShards(sh, |leaves|, after) ==
      MarksAfter<H>(InShards(sh, |leaves|, s), depth, max, RemoveMarkOp(position))
  {
    if latest.Some? {
      DeferredLinks(sh, depth, max, leaves, saved, s, r, position, latest.value, after);
    } else {
      DirectLinks(sh, depth, max, leaves, saved, s, r, position, after, r2);
    }
  }

  ghost predicate IsLatest(checkpoints: Checkpoints, id: int)
  {
    id in checkpoints && forall i | i in checkpoints :: i <= id
  }

  /** The latest checkpoint is the same in both trees, and lists the position afterwards. */
  ghost predicate DeferredTo<H>(s: Store<H>, position: nat, latest: int, after: Store<H>)
  {
    && IsLatest(s.checkpoints, latest) && after.shards == s.shards
    && after.checkpoints == WithMarkRemoved(s.checkpoints, latest, position)
  }

  lemma SameLatest(checkpoints: Checkpoints, refs: References, latest: int)
    requires checkpoints.Keys == refs.Keys && IsLatest(checkpoints, latest)
    ensures refs.Keys != {} && refs != map[] && Greatest(refs.Keys) == latest
  {
    assert latest in checkpoints.Keys;
    assert forall i | i in refs.Keys :: i in checkpoints.Keys && i <= latest;
  }

  lemma LatestIs(checkpoints: Checkpoints, latest: int)
    requires IsLatest(checkpoints, latest)
    ensures checkpoints.Keys != {} && Greatest(checkpoints.Keys) == latest
  {
    assert latest in checkpoints.Keys;
    assert forall i | i in checkpoints.Keys :: i in checkpoints && i <= latest;
  }

  lemma DeferredHeld<H>(sh: nat, max: nat, leaves: seq<H>, saved: map<int, seq<H>>, s: Store<H>, r: RefTree<H>,
                        position: nat, latest: int, after: Store<H>)
    requires Linked(sh, max, leaves, saved, s, r) && DeferredTo(s, position, latest, after)
    requires position < |leaves| && FlagsAt(sh, s.shards, position).marked
    ensures MarksHeld(sh, leaves, saved, after.shards, after.checkpoints)
    ensures after.checkpoints.Keys == s.checkpoints.Keys
  {
    forall i | i in saved ensures i <= latest { assert i in saved.Keys && i in s.checkpoints.Keys; }
    HeldAfterRemoval(sh, leaves, saved, s.shards, s.checkpoints, latest, position);
  }

  /** The reference tree after a removal that it defers, or refuses. */
  ghost function Deferred<H>(r: RefTree<H>, position: nat): RefTree<H>
  {
    if position in r.marks then r.(checkpoints := ForgottenInLatest(r.checkpoints, position)) else r
  }

  lemma DeferredLinked<H>(sh: nat, max: nat, leaves: seq<H>, saved: map<int, seq<H>>, s: Store<H>, r: RefTree<H>,
                          position: nat, latest: int, after: Store<H>)
    requires Linked(sh, max, leaves, saved, s, r) && DeferredTo(s, position, latest, after)
    requires position < |leaves| && FlagsAt(sh, s.shards, position).marked
    ensures Linked(sh, max, leaves, saved, after, Deferred(r, position))
  {
    SameLatest(s.checkpoints, r.checkpoints, latest);
    DeferredHeld(sh, max, leaves, saved, s, r, position, latest, after);
    KnownAfterRemoval(sh, |leaves|, s.shards, s.checkpoints, r.marks, r.checkpoints, position);
    ForgottenKeys(r.checkpoints, position);
  }

  lemma DeferredLinks<H>(sh: nat, depth: nat, max: nat, leaves: seq<H>, saved: map<int, seq<H>>, s: Store<H>,
                         r: RefTree<H>,
                         position: nat, latest: int, after: Store<H>)
    requires Linked(sh, max, leaves, saved, s, r) && DeferredTo(s, position, latest, after)
    requires position < |leaves| && FlagsAt(sh, s.shards, position).marked
    ensures r.checkpoints != map[] && Linked(sh, max, leaves, saved, after, Deferred(r, position))
    ensures InShards(sh, |leaves|, after) ==
      MarksAfter<H>(InShards(sh, |leaves|, s), depth, max, RemoveMarkOp(position))
  {
    SameLatest(s.checkpoints, r.checkpoints, latest);
    DeferredLinked(sh, max, leaves, saved, s, r, position, latest, after);
    LatestIs(s.checkpoints, latest);
  }

  lemma ForgottenKeys(refs: References, position: nat)
    ensures ForgottenInLatest(refs, position).Keys == refs.Keys && |ForgottenInLatest(refs, position)| == |refs|
  {
    SameSizes(ForgottenInLatest(refs, position), refs);
  }

  lemma DirectLinks<H>(sh: nat, depth: nat, max: nat, leaves: seq<H>, saved: map<int, seq<H>>, s: Store<H>,
                       r: RefTree<H>, position: nat,
                       after: Store<H>, r2: RefTree<H>)
    requires Linked(sh, max, leaves, saved, s, r)
    requires r2 == After(r, depth, max, RemoveMarkOp(position))
    requires position < |leaves| && FlagsAt(sh, s.shards, position).marked
    requires s.checkpoints == map[] && after.checkpoints == s.checkpoints
      && UnmarkedAt(sh, s.shards, after.shards, position)
    ensures Linked(sh, max, leaves, saved, after, r2)
    ensures InShards(sh, |leaves|, after) ==
      MarksAfter<H>(InShards(sh, |leaves|, s), depth, max, RemoveMarkOp(position))
  {
    assert r.checkpoints.Keys == {} && r.checkpoints == map[];
    KnownAfterUnmark(sh, |leaves|, s.shards, s.checkpoints, r.marks, r.checkpoints, position, after.shards);
    if position !in r.marks { assert r.marks - {position} == r.marks; }
    UnmarkedInShards(sh, |leaves|, depth, max, s, position, after);
  }

  lemma KnownIsFlagged<H>(sh: nat, n: nat, shards: seq<Located<H>>, checkpoints: Checkpoints, marks: set<nat>,
                          refs: References, position: nat)
    requires MarksKnown(sh, n, shards, checkpoints, marks, refs)
    ensures position in marks ==> FlagsAt(sh, shards, position).marked
  {
    assert position in marks ==> MarkKnown(sh, n, shards, checkpoints, refs, position);
  }

  // ---------- Whole runs ----------

  /** One operation on both: the two answers, and whether pruning panicked. */
  method PerformBoth<H>(shardTree: ShardTree<H>, complete: CompleteTree<H>, op: TreeOp<H>)
    returns (here: bool, there: bool, panicked: bool)
    requires Alike(shardTree, complete)
    modifies shardTree, shardTree.store, complete
    ensures Alike(shardTree, complete) && !panicked
    ensures Stepped(complete, op, there) && KeptStepped(shardTree, op, here)
    ensures (there ==> here) && (!op.RemoveMarkOp? ==> here == there)
    ensures old(SameMarks(shardTree, complete)) ==>
      here == there
      && (SameMarks(shardTree, complete) <==>
            DropsClean(old(ContentsOf(complete)), complete.depth, complete.maxCheckpoints, op))
  {
    var outcome;
    panicked := false;
    match op {
      case AppendOp(value, retention) =>
        outcome, there := AppendBoth(shardTree, complete, value, retention);
        here, panicked := outcome == Done, outcome == Panicked;
      case CheckpointOp(id) =>
        outcome, there := CheckpointBoth(shardTree, complete, id);
        here, panicked := outcome == Done, outcome == Panicked;
      case RewindOp(d) =>
        here, there := RewindBoth(shardTree, complete, d);
      case RemoveMarkOp(position) =>
        here, there := RemoveMarkBoth(shardTree, complete, position);
    }
  }

  /** The answers of a run agree, except that the shard tree may have removed a mark again. */
  ghost predicate AnswersAgree<H>(ops: seq<TreeOp<H>>, here: seq<bool>, there: seq<bool>)
  {
    && |here| == |there| == |ops|
    && forall i | 0 <= i < |ops| :: (there[i] ==> here[i]) && (!ops[i].RemoveMarkOp? ==> here[i] == there[i])
  }

  lemma OneMoreAnswer<H>(ops: seq<TreeOp<H>>, i: nat, here: seq<bool>, there: seq<bool>, a: bool, b: bool)
    requires i < |ops| && AnswersAgree(ops[..i], here, there)
    requires (b ==> a) && (!ops[i].RemoveMarkOp? ==> a == b)
    ensures AnswersAgree(ops[..i + 1], here + [a], there + [b])
  {
  }

  /** Each answer of a run, from the state before that operation. */
  ghost predicate Answered<H>(t: MarkTree, r: RefTree<H>, depth: nat, max: nat, ops: seq<TreeOp<H>>, here: seq<bool>,
                              there: seq<bool>)
  {
    && |here| == |there| == |ops|
    && forall i | 0 <= i < |ops| ::
         && (here[i] <==> Takes(KeptOf(t, depth, max, ops[..i]), depth, ops[i]))
         && (there[i] <==> Accepts(RunOf(r, depth, max, ops[..i]), depth, ops[i]))
  }

  lemma OneMoreAnswered<H>(t: MarkTree, r: RefTree<H>, depth: nat, max: nat, ops: seq<TreeOp<H>>, i: nat,
                           here: seq<bool>, there: seq<bool>, a: bool, b: bool)
    requires i < |ops| && Answered(t, r, depth, max, ops[..i], here, there)
    requires a <==> Takes(KeptOf(t, depth, max, ops[..i]), depth, ops[i])
    requires b <==> Accepts(RunOf(r, depth, max, ops[..i]), depth, ops[i])
    ensures Answered(t, r, depth, max, ops[..i + 1], here + [a], there + [b])
  {
    hide KeptOf, RunOf, Takes, Accepts;
    var more := ops[..i + 1];
    forall k | 0 <= k < |more| ensures more[..k] == ops[..i][..if k < i then k else i] && more[k] == ops[k] { }
    assert ops[..i][..i] == ops[..i];
  }

  /** Any sequence of operations on both. */
  method RunBoth<H>(shardTree: ShardTree<H>, complete: CompleteTree<H>, ops: seq<TreeOp<H>>)
    returns (here: seq<bool>, there: seq<bool>, panicked: bool)
    requires Alike(shardTree, complete)
    modifies shardTree, shardTree.store, complete
    ensures Alike(shardTree, complete) && !panicked
    ensures ContentsOf(complete) == RunOf(old(ContentsOf(complete)), complete.depth, complete.maxCheckpoints, ops)
    ensures MarksOf(shardTree) == KeptOf(old(MarksOf(shardTree)), complete.depth, complete.maxCheckpoints, ops)
    ensures AnswersAgree(ops, here, there)
    ensures Answered(old(MarksOf(shardTree)), old(ContentsOf(complete)), complete.depth, complete.maxCheckpoints, ops,
                     here, there)
    ensures old(SameMarks(shardTree, complete)) ==>
      var t, r, depth, max :=
        old(MarksOf(shardTree)), old(ContentsOf(complete)), complete.depth, complete.maxCheckpoints;
      && (CleanRun(r, depth, max, ops) <==> SameThroughout(t, r, depth, max, ops))
      && (CleanRun(r, depth, max, ops) ==> SameMarks(shardTree, complete) && here == there)
  {
    ghost var t0, r0, same := MarksOf(shardTree), ContentsOf(complete), SameMarks(shardTree, complete);
    ghost var depth, max := complete.depth, complete.maxCheckpoints;
    here, there, panicked := [], [], false;
    for i := 0 to |ops|
      invariant Alike(shardTree, complete) && !panicked
      invariant complete.depth == depth && complete.maxCheckpoints == max
      invariant ContentsOf(complete) == RunOf(r0, depth, max, ops[..i])
      invariant MarksOf(shardTree) == KeptOf(t0, depth, max, ops[..i])
      invariant AnswersAgree(ops[..i], here, there) && Answered(t0, r0, depth, max, ops[..i], here, there)
      invariant same && CleanRun(r0, depth, max, ops[..i]) ==> SameMarks(shardTree, complete) && here == there
    {
      OneMoreOp(r0, depth, max, ops, i);
      OneMoreKept(t0, depth, max, ops, i);
      var a, b, p := PerformBoth(shardTree, complete, ops[i]);
      OneMoreAnswer(ops, i, here, there, a, b);
      OneMoreAnswered(t0, r0, depth, max, ops, i, here, there, a, b);
      here, there, panicked := here + [a], there + [b], panicked || p;
    }
    assert ops[..|ops|] == ops;
    if same { CleanIff(t0, r0, depth, max, ops); }
  }

  // ---------- The two trees answer alike ----------

  /** The witness there is, if any: what the repository's own adapter returns. */
  function Given<H>(r: Result<Option<seq<H>>, WitnessError>): Option<seq<H>>
  {
    match r case Err(_) => None case Ok(path) => path
  }

  /** The root and the witness of both trees: what they are is a matter of the leaves, the checkpoints and the marks
      that each of them has. */
  method AskBoth<H>(shardTree: ShardTree<H>, complete: CompleteTree<H>, rootDepth: Option<nat>, position: nat,
                    witnessDepth: nat)
    returns (roots: (Result<Option<H>, seq<Address>>, Option<H>),
             witnesses: (Result<Option<seq<H>>, WitnessError>, Option<seq<H>>))
    requires Alike(shardTree, complete)
    ensures roots.0 == Ok(roots.1) && roots.1 == RootIn(complete.hs, complete.depth, ContentsOf(complete), rootDepth)
    ensures Given(witnesses.0) ==
      if shardTree.shardHeight == 0 then None
      else WitnessIn(complete.hs, complete.depth, ContentsOf(complete), MarksOf(shardTree).marks, position,
                     witnessDepth)
    ensures witnesses.1 ==
      WitnessIn(complete.hs, complete.depth, ContentsOf(complete), complete.marks, position, witnessDepth)
    ensures complete.marks <= MarksOf(shardTree).marks
  {
    hide RefPath, PathRoot, Root, IdAtDepth, MarksKnown, MarksHeld, Recorded, Filled;
    KnownAreMarks(shardTree.shardHeight, |shardTree.leaves|, shardTree.store.Contents(), complete.marks,
                  complete.checkpoints);
    if rootDepth.Some? { SnapshotIs(complete, rootDepth.value); }
    SnapshotIs(complete, witnessDepth);
    SameKeys(shardTree.shardHeight, shardTree.leaves, shardTree.saved, shardTree.store.shards,
             shardTree.store.checkpoints);
    var here := shardTree.RootAtCheckpointDepth(rootDepth);
    var there := complete.GetRoot(rootDepth);
    var path := shardTree.WitnessAtCheckpointDepth(position, witnessDepth);
    var reference := complete.GetWitness(position, witnessDepth);
    roots, witnesses := (here, there), (path, reference);
  }

  lemma KnownAreMarks<H>(sh: nat, n: nat, s: Store<H>, marks: set<nat>, refs: References)
    requires MarksKnown(sh, n, s.shards, s.checkpoints, marks, refs)
    ensures marks <= InShards(sh, n, s).marks
  {
    forall p | p in marks ensures p in MarksIn(sh, n, s.shards) {
      assert MarkKnown(sh, n, s.shards, s.checkpoints, refs, p);
    }
  }

  ghost function EmptyMarks(): MarkTree { MarkTree(0, {}, map[]) }

  /** Over every run from empty trees: pruning never panics; the leaves, the checkpoints and the marks that each tree
      has are those of a run of plain values; they say what each operation, each root and each witness answers. The
      shard tree has every mark of the reference tree. The two have the same marks after every operation exactly if no
      checkpoint drops a mark that another stored one still lists as removed; then all answers and all witnesses are
      the same. */
  method RunsAgree<H(==)>(hs: Hashable<H>, depth: nat, shardHeight: nat, max: nat, ops: seq<TreeOp<H>>,
                          rootDepth: Option<nat>, position: nat, witnessDepth: nat)
    returns (here: seq<bool>, there: seq<bool>, panicked: bool,
             roots: (Result<Option<H>, seq<Address>>, Option<H>),
             witnesses: (Result<Option<seq<H>>, WitnessError>, Option<seq<H>>))
    requires shardHeight <= depth
    ensures !panicked && AnswersAgree(ops, here, there)
    ensures Answered(EmptyMarks(), EmptyRef(), depth, max, ops, here, there)
    ensures var r := RunOf(EmptyRef(), depth, max, ops);
            && roots.0 == Ok(roots.1) && roots.1 == RootIn(hs, depth, r, rootDepth)
            && witnesses.1 == WitnessIn(hs, depth, r, r.marks, position, witnessDepth)
    ensures var r, t := RunOf(EmptyRef(), depth, max, ops), KeptOf(EmptyMarks(), depth, max, ops);
            && r.marks <= t.marks
            && Given(witnesses.0) ==
                 if shardHeight == 0 then None else WitnessIn(hs, depth, r, t.marks, position, witnessDepth)
    ensures shardHeight > 0 && witnesses.1.Some? ==> Given(witnesses.0) == witnesses.1
    ensures CleanRun<H>(EmptyRef(), depth, max, ops) <==> SameThroughout(EmptyMarks(), EmptyRef(), depth, max, ops)
    ensures CleanRun<H>(EmptyRef(), depth, max, ops) ==>
      here == there && (shardHeight > 0 ==> Given(witnesses.0) == witnesses.1)
  {
    hide RunOf, KeptOf, SameThroughout, CleanRun, Root, RefPath, IdAtDepth;
    var shardTree := new ShardTree(hs, depth, shardHeight, max);
    var complete := new CompleteTree(hs, depth, max);
    EmptyInShards(shardHeight, shardTree.store.Contents());
    StartTwins<H>(max);
    CleanIff<H>(EmptyMarks(), EmptyRef(), depth, max, ops);
    here, there, panicked := RunBoth(shardTree, complete, ops);
    roots, witnesses := AskBoth(shardTree, complete, rootDepth, position, witnessDepth);
  }

  lemma StartTwins<H>(max: nat)
    ensures Twins<H>(EmptyMarks(), EmptyRef(), max)
  {
  }

  lemma EmptyInShards<H>(sh: nat, s: Store<H>)
    requires s.shards == [] && s.checkpoints == map[]
    ensures InShards(sh, 0, s) == EmptyMarks()
  {
  }

  // ---------- A mark removed again ----------

  function ExampleOps<H>(a: H): seq<TreeOp<H>>
  {
    [AppendOp(a, Marked), CheckpointOp(1), RemoveMarkOp(0), CheckpointOp(2), RemoveMarkOp(0), CheckpointOp(3)]
  }

  lemma ExampleStart<H>(a: H)
    ensures After(EmptyRef(), 1, 2, AppendOp(a, Marked)) == RefTree([a], {0}, map[])
  {
    assert End(1, 0) == 2;
    var none: set<nat> := {};
    assert none + {0} == {0} && [] + [a] == [a];
  }

  lemma ExampleFirst<H>(a: H)
    ensures After(RefTree([a], {0}, map[]), 1, 2, CheckpointOp(1)) ==
      RefTree([a], {0}, map[1 := CompleteCheckpoint(1, {}, {})])
  {
    var all: References := map[1 := CompleteCheckpoint(1, {}, {})];
    SameSize(all);
    assert all.Keys == {1};
    OneTooMany(all, 2);
    OldestGoes(all, 2);
  }

  lemma ExampleRemoval<H>(a: H)
    ensures var refs := map[1 := CompleteCheckpoint(1, {}, {})];
            After(RefTree([a], {0}, refs), 1, 2, RemoveMarkOp(0)) ==
              RefTree([a], {0}, map[1 := CompleteCheckpoint(1, {}, {0})])
  {
    var refs: References := map[1 := CompleteCheckpoint(1, {}, {})];
    assert refs.Keys == {1} && refs != map[] && Greatest(refs.Keys) == 1;
    var none: set<nat> := {};
    assert none + {0} == {0};
  }

  lemma ExampleSecond<H>(a: H)
    ensures After(RefTree([a], {0}, map[1 := CompleteCheckpoint(1, {}, {0})]), 1, 2, CheckpointOp(2)) ==
            RefTree([a], {0}, map[1 := CompleteCheckpoint(1, {}, {0}), 2 := CompleteCheckpoint(1, {}, {})])
  {
    var all: References := map[1 := CompleteCheckpoint(1, {}, {0}), 2 := CompleteCheckpoint(1, {}, {})];
    SameSize(all);
    assert all.Keys == {1, 2};
    OneTooMany(all, 2);
    OldestGoes(all, 2);
  }

  lemma ExampleAgain<H>(a: H)
    ensures var refs := map[1 := CompleteCheckpoint(1, {}, {0}), 2 := CompleteCheckpoint(1, {}, {})];
            After(RefTree([a], {0}, refs), 1, 2, RemoveMarkOp(0)) ==
            RefTree([a], {0}, map[1 := CompleteCheckpoint(1, {}, {0}), 2 := CompleteCheckpoint(1, {}, {0})])
  {
    var refs: References := map[1 := CompleteCheckpoint(1, {}, {0}), 2 := CompleteCheckpoint(1, {}, {})];
    assert refs.Keys == {1, 2} && refs != map[] && Greatest(refs.Keys) == 2;
    var none: set<nat> := {};
    assert none + {0} == {0};
  }

  /** With fewer checkpoints than may be kept, none is dropped. */
  lemma FewDropNone<H>(r: RefTree<H>, max: nat, id: int)
    requires |r.checkpoints| < max
    ensures NoneStillListed(r, max, id)
  {
    var all := r.checkpoints[id := CompleteCheckpoint(|r.leaves|, {}, {})];
    SameSize(r.checkpoints);
    SameSize(all);
    assert all.Keys == r.checkpoints.Keys + {id};
  }

  lemma FewClean<H>(r: RefTree<H>, depth: nat, max: nat, op: TreeOp<H>)
    requires |r.checkpoints| < max || op.RemoveMarkOp?
    ensures DropsClean(r, depth, max, op)
  {
    hide NoneStillListed;
    match op
    case AppendOp(value, retention) =>
      MarkedAsKeys(r.marks, r.checkpoints, retention, |r.leaves|);
      if retention.CheckpointAt? { FewDropNone(Grown(r, value, retention), max, retention.id); }
    case CheckpointOp(id) => FewDropNone(r, max, id);
    case RewindOp(_) =>
    case RemoveMarkOp(_) =>
  }

  lemma OneCheckpoint(c: CompleteCheckpoint)
    ensures |map[1 := c]| == 1
  {
  }

  /** The run up to the second removal: nothing has been dropped yet. */
  lemma ExampleRun<H>(a: H)
    ensures RunOf(EmptyRef(), 1, 2, ExampleOps(a)[..5]) ==
            RefTree([a], {0}, map[1 := CompleteCheckpoint(1, {}, {0}), 2 := CompleteCheckpoint(1, {}, {0})])
    ensures CleanRun(EmptyRef(), 1, 2, ExampleOps(a)[..5])
  {
    hide After, DropsClean;
    var ops := ExampleOps(a);
    assert ops[..0] == [];
    OneMoreOp(EmptyRef(), 1, 2, ops, 0);
    OneMoreOp(EmptyRef(), 1, 2, ops, 1);
    OneMoreOp(EmptyRef(), 1, 2, ops, 2);
    OneMoreOp(EmptyRef(), 1, 2, ops, 3);
    OneMoreOp(EmptyRef(), 1, 2, ops, 4);
    ExampleStart(a);
    ExampleFirst(a);
    ExampleRemoval(a);
    ExampleSecond(a);
    ExampleAgain(a);
    OneCheckpoint(CompleteCheckpoint(1, {}, {}));
    OneCheckpoint(CompleteCheckpoint(1, {}, {0}));
    forall i | 0 <= i < 5 ensures DropsClean(RunOf(EmptyRef(), 1, 2, ops[..i]), 1, 2, ops[i]) {
      FewClean(RunOf(EmptyRef(), 1, 2, ops[..i]), 1, 2, ops[i]);
    }
  }

  ghost predicate IsTop(ids: set<int>, id: int)
  {
    id in ids && forall i | i in ids :: i <= id
  }

  lemma ThreeKeys<V>(m: map<int, V>)
    requires m.Keys == {1, 2, 3}
    ensures |m| == 3 && Least(m.Keys) == 1 && IsTop(m.Keys, 3)
  {
    SameSize(m);
  }

  lemma ThirdDrops(refs: References, all: References)
    requires refs == map[1 := CompleteCheckpoint(1, {}, {0}), 2 := CompleteCheckpoint(1, {}, {0})]
    requires all == refs[3 := CompleteCheckpoint(1, {}, {})]
    ensures |all| == 3 && 0 in DroppedMarks(all, 2) && StillListed(all, 2, 0) && IsTop(Latest(all, 2).Keys, 3)
  {
    assert all.Keys == {1, 2, 3};
    ThreeKeys(all);
    OldestGoes(all, 2);
    StaysListed(all);
    StaysTop(all);
  }

  lemma StaysTop(all: References)
    requires IsTop(all.Keys, 3) && |all| == 3 && Least(all.Keys) == 1
    ensures IsTop(Latest(all, 2).Keys, 3)
  {
    OldestOrLatest(all, 2, 3);
    forall i | i in Latest(all, 2).Keys ensures i <= 3 { assert i in all.Keys; }
  }

  lemma StaysListed(all: References)
    requires 2 in all && 0 in all[2].forgotten && 1 in all && |all| == 3 && Least(all.Keys) == 1
    ensures StillListed(all, 2, 0)
  {
    OldestOrLatest(all, 2, 2);
    assert 2 in Latest(all, 2) && 0 in Latest(all, 2)[2].forgotten;
  }

  lemma LastId(ids: set<int>, id: int)
    requires id in ids && forall i | i in ids :: i <= id
    ensures IdAtDepth(ids, 0) == Some(id)
  {
    var all := InOrder(ids);
    assert id in all && all[|all| - 1] in ids;
  }

  lemma BeforeThird(refs: References)
    requires refs == map[1 := CompleteCheckpoint(1, {}, {0}), 2 := CompleteCheckpoint(1, {}, {0})]
    ensures Later(refs, 3)
  {
    assert refs.Keys == {1, 2};
    assert forall i | i in refs :: i in refs.Keys;
  }

  /** The third checkpoint makes the first one go, and with it the mark in the reference tree, although the second
      one still lists it. */
  lemma ExampleThird<H>(r: RefTree<H>, a: H)
    requires r == RefTree([a], {0}, map[1 := CompleteCheckpoint(1, {}, {0}), 2 := CompleteCheckpoint(1, {}, {0})])
    ensures !DropsClean(r, 1, 2, CheckpointOp(3))
    ensures var after := After(r, 1, 2, CheckpointOp(3));
            && after.leaves == [a] && after.marks == {}
            && IdAtDepth(after.checkpoints.Keys, 0) == Some(3) && after.checkpoints[3].leavesLen == 1
  {
    hide IdAtDepth, StillListed, DroppedMarks, Latest;
    var all := r.checkpoints[3 := CompleteCheckpoint(1, {}, {})];
    BeforeThird(r.checkpoints);
    ThirdDrops(r.checkpoints, all);
    LastId(Latest(all, 2).Keys, 3);
    LatestValue(all, 2, 3);
    OnlyGone(DroppedMarks(all, 2));
  }

  lemma LatestValue(refs: References, max: nat, id: int)
    requires id in Latest(refs, max).Keys
    ensures id in refs && id in Latest(refs, max) && Latest(refs, max)[id] == refs[id]
  {
  }

  lemma OnlyGone(gone: set<nat>)
    requires 0 in gone
    ensures {0} - gone == {}
  {
  }

  /** So in the shard tree the mark stays. */
  lemma ExampleKept<H>(t: MarkTree, r: RefTree<H>)
    requires Twins(t, r, 2) && r.marks == {0} && !DropsClean(r, 1, 2, CheckpointOp(3))
    requires After(r, 1, 2, CheckpointOp(3)).marks == {}
    ensures 0 in MarksAfter<H>(t, 1, 2, CheckpointOp(3)).marks
  {
    hide DropsClean, After, Listed, SameLists, EqualSizes, Timely;
    StepTwins(t, r, 1, 2, CheckpointOp(3));
    var left := MarksAfter<H>(t, 1, 2, CheckpointOp(3)).marks;
    assert left != {};
    var p :| p in left;
  }

  /** Where the run ends: the reference tree has dropped the mark, the shard tree has kept it. */
  lemma ExampleEnds<H>(a: H)
    ensures var r := RunOf(EmptyRef(), 1, 2, ExampleOps(a));
            && r.leaves == [a] && r.marks == {}
            && IdAtDepth(r.checkpoints.Keys, 0) == Some(3) && r.checkpoints[3].leavesLen == 1
    ensures 0 in KeptOf(EmptyMarks(), 1, 2, ExampleOps(a)).marks
  {
    hide After, MarksAfter, DropsClean, SameThroughout, IdAtDepth;
    var ops := ExampleOps(a);
    var r, t := RunOf(EmptyRef(), 1, 2, ops[..5]), KeptOf(EmptyMarks(), 1, 2, ops[..5]);
    ExampleRun(a);
    StartTwins<H>(2);
    CleanIff<H>(EmptyMarks(), EmptyRef(), 1, 2, ops[..5]);
    OneMoreOp(EmptyRef(), 1, 2, ops, 5);
    OneMoreKept(EmptyMarks(), 1, 2, ops, 5);
    assert ops[..6] == ops;
    ExampleThird(r, a);
    ExampleKept(t, r);
  }

  lemma ExampleWitness<H>(hs: Hashable<H>, a: H, r: RefTree<H>, marks: set<nat>)
    requires r.leaves == [a] && IdAtDepth(r.checkpoints.Keys, 0) == Some(3) && r.checkpoints[3].leavesLen == 1
    ensures WitnessIn(hs, 1, r, marks, 0, 0) == if 0 in marks then Some(RefPath(hs, [a], 0, 1)) else None
  {
    assert Take([a], 1) == [a];
  }

  /** A mark removed again under a second checkpoint before the first one goes: the reference tree drops it, the shard
      tree keeps it and still gives its witness. */
  method RemovedAgainDiffers<H(==)>(hs: Hashable<H>, a: H)
    returns (here: Result<Option<seq<H>>, WitnessError>, there: Option<seq<H>>)
    ensures here == Ok(Some(RefPath(hs, [a], 0, 1)))
    ensures there == None
  {
    hide RunOf, KeptOf, RefPath, IdAtDepth, WitnessIn, RootIn, CleanRun, SameThroughout, Answered, AnswersAgree;
    var ops := ExampleOps(a);
    ghost var r, t := RunOf(EmptyRef(), 1, 2, ops), KeptOf(EmptyMarks(), 1, 2, ops);
    ExampleEnds(a);
    ExampleWitness(hs, a, r, r.marks);
    ExampleWitness(hs, a, r, t.marks);
    var answersHere, answersThere, panicked, roots, witnesses := RunsAgree(hs, 1, 1, 2, ops, None, 0, 0);
    here, there := witnesses.0, witnesses.1;
  }
}
