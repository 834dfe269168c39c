/** The marks of the shard tree against those of the reference tree: whatever the reference tree still counts
    as marked, the shard tree still has flagged. */
module SharedMarks {

  import opened Basics
  import opened PrunableTrees
  import opened Pruning
  import opened Stores
  import opened ExcessCheckpoints
  import opened ShardStates
  import opened ShardTrees
  import opened CompleteTrees

  type Checkpoints = map<int, Checkpoint>
  type References = map<int, CompleteCheckpoint>

  /** The checkpoints that list a mark as removed are among those that do so in the reference tree. */
  ghost predicate ListedAlike(checkpoints: Checkpoints, refs: References, p: nat)
  {
    forall id | id in checkpoints && p in checkpoints[id].marksRemoved :: id in refs && p in refs[id].forgotten
  }

  /** A mark on a leaf from after a checkpoint was recorded since that checkpoint. */
  ghost predicate RecordedSince(refs: References, p: nat)
  {
    forall id | id in refs && refs[id].leavesLen <= p :: MarkedSince(refs, id, p)
  }

  ghost predicate MarkKnown<H>(sh: nat, n: nat, shards: seq<Located<H>>, checkpoints: Checkpoints,
                               refs: References, p: nat)
  {
    p < n && FlagsAt(sh, shards, p).marked && ListedAlike(checkpoints, refs, p) && RecordedSince(refs, p)
  }

  ghost predicate MarksKnown<H>(sh: nat, n: nat, shards: seq<Located<H>>, checkpoints: Checkpoints, marks: set<nat>,
                                refs: References)
  {
    forall p | p in marks :: MarkKnown(sh, n, shards, checkpoints, refs, p)
  }

  /** What pruning does to the flags. */
  ghost predicate FlagsCleared<H>(sh: nat, checkpoints: Checkpoints, max: nat, shards: seq<Located<H>>,
                                  after: seq<Located<H>>)
  {
    forall p: nat :: FlagsAt(sh, after, p) == FlagsAt(sh, shards, p).Minus(Cleared(checkpoints, max, p))
  }

  // ---------- A new leaf ----------

  lemma SinceAfterMark(refs: References, position: nat, p: nat)
    requires RecordedSince(refs, p) || p == position
    ensures RecordedSince(MarkedInLatest(refs, position), p)
  {
    var all := MarkedInLatest(refs, position);
    forall id | id in all && all[id].leavesLen <= p ensures MarkedSince(all, id, p) {
      if p == position {
        var latest := Greatest(refs.Keys);
        assert id in refs.Keys && latest in all && latest >= id && p in all[latest].marked;
      } else {
        var i :| i in refs && i >= id && p in refs[i].marked;
        assert i in all && p in all[i].marked;
      }
    }
  }

  lemma ListedAfterMark(checkpoints: Checkpoints, refs: References, position: nat, p: nat)
    requires ListedAlike(checkpoints, refs, p)
    ensures ListedAlike(checkpoints, MarkedInLatest(refs, position), p)
  {
  }

  /** Appending a leaf and, if asked to, marking it. */
  lemma KnownAfterLeaf<H>(sh: nat, n: nat, shards: seq<Located<H>>, checkpoints: Checkpoints, marks: set<nat>,
                          refs: References,
                          marking: bool, after: seq<Located<H>>)
    requires MarksKnown(sh, n, shards, checkpoints, marks, refs)
    requires forall id | id in checkpoints :: n !in checkpoints[id].marksRemoved
    requires forall p: nat :: p < n ==> FlagsAt(sh, after, p) == FlagsAt(sh, shards, p)
    requires marking ==> FlagsAt(sh, after, n).marked
    ensures MarksKnown(sh, n + 1, after, checkpoints, if marking then marks + {n}
                       else marks, if marking then AfterMark(marks, refs, n) else refs)
  {
    var newMarks, newRefs := if marking then marks + {n}
      else marks, if marking then AfterMark(marks, refs, n) else refs;
    assert n in marks ==> MarkKnown(sh, n, shards, checkpoints, refs, n);
    forall p | p in newMarks ensures MarkKnown(sh, n + 1, after, checkpoints, newRefs, p) {
      if p in marks { assert MarkKnown(sh, n, shards, checkpoints, refs, p); }
      if marking {
        SinceAfterMark(refs, n, p);
        ListedAfterMark(checkpoints, refs, n, p);
      }
    }
  }

  // ---------- A new checkpoint ----------

  lemma KnownAfterRecord<H>(sh: nat, n: nat, shards: seq<Located<H>>, checkpoints: Checkpoints, marks: set<nat>,
                            refs: References,
                            id: int, c: Checkpoint, after: seq<Located<H>>)
    requires MarksKnown(sh, n, shards, checkpoints, marks, refs)
    requires id !in refs && c.marksRemoved == {}
    requires forall p: nat :: FlagsAt(sh, shards, p).marked ==> FlagsAt(sh, after, p).marked
    ensures MarksKnown(sh, n, after, checkpoints[id := c], marks, refs[id := CompleteCheckpoint(n, {}, {})])
  {
    var all := refs[id := CompleteCheckpoint(n, {}, {})];
    forall p | p in marks ensures MarkKnown(sh, n, after, checkpoints[id := c], all, p) {
      assert MarkKnown(sh, n, shards, checkpoints, refs, p);
      forall i | i in all && all[i].leavesLen <= p ensures MarkedSince(all, i, p) {
        assert MarkedSince(refs, i, p);
        var j :| j in refs && j >= i && p in refs[j].marked;
        assert j in all && p in all[j].marked;
      }
    }
  }

  // ---------- Dropping the oldest checkpoint ----------

  /** With at most one checkpoint too many, pruning removes just the oldest. */
  lemma OnlyOldestRemoved(checkpoints: Checkpoints, max: nat)
    requires |checkpoints| <= max + 1
    ensures |checkpoints| <= max ==> Removed(checkpoints, max) == []
    ensures |checkpoints| > max ==> checkpoints.Keys != {} && Removed(checkpoints, max) == [Least(checkpoints.Keys)]
  {
    SameSize(checkpoints);
    OldestOfOneTooMany(checkpoints.Keys, max);
    assert Removed(checkpoints, max) == OldestOver(checkpoints.Keys, max);
  }

  /** The checkpoints that pruning removes owe a mark only if the oldest one lists it. */
  lemma OwedByOldest(checkpoints: Checkpoints, max: nat, p: nat)
    requires |checkpoints| <= max + 1 && Cleared(checkpoints, max, p).marked
    ensures |checkpoints| > max && checkpoints.Keys != {} && p in checkpoints[Least(checkpoints.Keys)].marksRemoved
  {
    OnlyOldestRemoved(checkpoints, max);
    OwedIff(checkpoints, Removed(checkpoints, max), p);
  }

  /** Pruning clears a mark only if the reference tree drops it too. */
  lemma ClearedIsDropped(checkpoints: Checkpoints, refs: References, max: nat, p: nat)
    requires checkpoints.Keys == refs.Keys && |refs| <= max + 1 && ListedAlike(checkpoints, refs, p)
    ensures Cleared(checkpoints, max, p).marked ==> p in DroppedMarks(refs, max)
  {
    SameSizes(checkpoints, refs);
    SameSize(refs);
    if Cleared(checkpoints, max, p).marked { OwedByOldest(checkpoints, max, p); }
  }

  lemma SinceAfterDrop(refs: References, max: nat, p: nat)
    requires |refs| <= max + 1 && RecordedSince(refs, p)
    ensures RecordedSince(Latest(refs, max), p)
  {
    OneTooMany(refs, max);
    if |refs| > max { SinceWithoutLeast(refs, p); }
  }

  lemma SinceWithoutLeast(refs: References, p: nat)
    requires refs.Keys != {} && RecordedSince(refs, p)
    ensures RecordedSince(refs - {Least(refs.Keys)}, p)
  {
    var least := Least(refs.Keys);
    var fewer := refs - {least};
    forall id | id in fewer && fewer[id].leavesLen <= p ensures MarkedSince(fewer, id, p) {
      var i :| i in refs && i >= id && p in refs[i].marked;
      assert id in refs.Keys && least < id && i in fewer;
    }
  }

  lemma KnownAfterDrop<H>(sh: nat, n: nat, shards: seq<Located<H>>, checkpoints: Checkpoints, marks: set<nat>,
                          refs: References,
                          max: nat, after: seq<Located<H>>)
    requires MarksKnown(sh, n, shards, checkpoints, marks, refs)
    requires checkpoints.Keys == refs.Keys && |refs| <= max + 1
    requires FlagsCleared(sh, checkpoints, max, shards, after)
    ensures MarksKnown(sh, n, after, KeptOnly(checkpoints, checkpoints, max), marks - DroppedMarks(refs, max),
                       Latest(refs, max))
  {
    var fewer := KeptOnly(checkpoints, checkpoints, max);
    KeptIsLatest(refs, checkpoints, max);
    forall p | p in marks - DroppedMarks(refs, max) ensures MarkKnown(sh, n, after, fewer, Latest(refs, max), p) {
      assert MarkKnown(sh, n, shards, checkpoints, refs, p);
      ClearedIsDropped(checkpoints, refs, max, p);
      SinceAfterDrop(refs, max, p);
    }
  }

  lemma KeptIsLatest<V>(m: map<int, V>, checkpoints: Checkpoints, max: nat)
    requires m.Keys == checkpoints.Keys
    ensures KeptOnly(m, checkpoints, max) == Latest(m, max)
    ensures |m| <= max ==> KeptOnly(m, checkpoints, max) == m
  {
    SameSize(checkpoints);
    SameSize(m);
    assert Removed(checkpoints, max) == OldestOver(m.Keys, max);
    if |m| <= max { OneTooMany(m, max); }
  }

  // ---------- Going back, and removing marks ----------

  lemma SinceAfterRewind(refs: References, id: int, p: nat)
    requires id in refs && RecordedSince(refs, p) && !MarkedSince(refs, id, p)
    ensures RecordedSince(KeptUpTo(refs, id), p)
  {
    var fewer := KeptUpTo(refs, id);
    forall i | i in fewer && fewer[i].leavesLen <= p ensures MarkedSince(fewer, i, p) {
      var j :| j in refs && j >= i && p in refs[j].marked;
      assert j < id && j in fewer && fewer[j] == refs[j];
    }
  }

  lemma KnownAfterRewind<H>(sh: nat, n: nat, shards: seq<Located<H>>, checkpoints: Checkpoints, marks: set<nat>,
                            refs: References,
                            id: int, left: set<nat>, after: seq<Located<H>>, cap: Tree<H>)
    requires MarksKnown(sh, n, shards, checkpoints, marks, refs) && id in refs
    requires forall p :: p in left <==> p in marks && !MarkedSince(refs, id, p)
    requires forall p: nat :: p < refs[id].leavesLen ==> FlagsAt(sh, after, p) == FlagsAt(sh, shards, p)
    ensures MarksKnown(sh, refs[id].leavesLen, after,
                       Store(shards, checkpoints, cap).TruncateCheckpointsRetaining(id).checkpoints, left,
                       KeptUpTo(refs, id))
  {
    var fewer := Store(shards, checkpoints, cap).TruncateCheckpointsRetaining(id).checkpoints;
    forall p | p in left ensures MarkKnown(sh, refs[id].leavesLen, after, fewer, KeptUpTo(refs, id), p) {
      assert MarkKnown(sh, n, shards, checkpoints, refs, p);
      SinceAfterRewind(refs, id, p);
      assert ListedAlike(fewer, KeptUpTo(refs, id), p);
    }
  }

  /** Removing a mark as of the latest checkpoint, in both trees. */
  lemma KnownAfterRemoval<H>(sh: nat, n: nat, shards: seq<Located<H>>, checkpoints: Checkpoints, marks: set<nat>,
                             refs: References,
                             position: nat)
    requires MarksKnown(sh, n, shards, checkpoints, marks, refs) && checkpoints.Keys == refs.Keys != {}
    ensures var latest := Greatest(refs.Keys);
            MarksKnown(sh, n, shards, WithMarkRemoved(checkpoints, latest, position), marks,
                       if position in marks then ForgottenInLatest(refs, position) else refs)
  {
    var latest := Greatest(refs.Keys);
    var listed := WithMarkRemoved(checkpoints, latest, position);
    var newRefs := if position in marks then ForgottenInLatest(refs, position) else refs;
    forall p | p in marks ensures MarkKnown(sh, n, shards, listed, newRefs, p) {
      assert MarkKnown(sh, n, shards, checkpoints, refs, p);
      SinceAfterForgetting(refs, position, p);
    }
  }

  lemma SinceAfterForgetting(refs: References, position: nat, p: nat)
    requires RecordedSince(refs, p)
    ensures RecordedSince(ForgottenInLatest(refs, position), p)
  {
    var all := ForgottenInLatest(refs, position);
    forall id | id in all && all[id].leavesLen <= p ensures MarkedSince(all, id, p) {
      var i :| i in refs && i >= id && p in refs[i].marked;
      assert i in all && p in all[i].marked;
    }
  }

  /** Without checkpoints the mark goes at once, in both trees. */
  lemma KnownAfterUnmark<H>(sh: nat, n: nat, shards: seq<Located<H>>, checkpoints: Checkpoints, marks: set<nat>,
                            refs: References,
                            position: nat, after: seq<Located<H>>)
    requires MarksKnown(sh, n, shards, checkpoints, marks, refs)
    requires forall p: nat :: p != position ==> FlagsAt(sh, after, p) == FlagsAt(sh, shards, p)
    ensures MarksKnown(sh, n, after, checkpoints, marks - {position}, refs)
  {
    forall p | p in marks - {position} ensures MarkKnown(sh, n, after, checkpoints, refs, p) {
      assert MarkKnown(sh, n, shards, checkpoints, refs, p);
    }
  }

  // ---------- When both trees have the same marks ----------

  ghost predicate SameLists(checkpoints: Checkpoints, refs: References)
  {
    forall id, p | id in checkpoints && id in refs :: p in checkpoints[id].marksRemoved <==> p in refs[id].forgotten
  }

  /** No mark is listed as removed by two checkpoints. */
  ghost predicate ListedOnce(refs: References)
  {
    forall i, j, p | i in refs && j in refs && p in refs[i].forgotten && p in refs[j].forgotten :: i == j
  }

  /** A checkpoint records marks of later leaves only, and no checkpoint has fewer leaves than an earlier one. */
  ghost predicate LateRecords(n: nat, refs: References)
  {
    && (forall i, p | i in refs && p in refs[i].marked :: refs[i].leavesLen <= p)
    && (forall i, j | i in refs && j in refs && i <= j :: refs[i].leavesLen <= refs[j].leavesLen)
    && (forall i | i in refs :: refs[i].leavesLen <= n)
  }

  lemma LateAfterMark(n: nat, refs: References)
    requires LateRecords(n, refs)
    ensures LateRecords(n + 1, MarkedInLatest(refs, n))
  {
  }

  /** Whether a checkpoint that stays after the oldest has been dropped lists a mark as removed. */
  ghost predicate StillListed(refs: References, max: nat, p: nat)
  {
    exists id :: id in Latest(refs, max) && p in refs[id].forgotten
  }

  lemma OldestOrLatest(refs: References, max: nat, id: int)
    requires |refs| <= max + 1 && id in refs
    ensures id in Latest(refs, max) <==> |refs| <= max || id != Least(refs.Keys)
  {
    OneTooMany(refs, max);
  }

  /** Of at most one checkpoint too many, exactly the others are kept. */
  lemma OthersKept(checkpoints: Checkpoints, max: nat, id: int)
    requires |checkpoints| <= max + 1 && id in checkpoints
    ensures id in Kept(checkpoints, max) <==> |checkpoints| <= max || id != Least(checkpoints.Keys)
  {
    OnlyOldestRemoved(checkpoints, max);
    KeptIff(checkpoints, max, id);
  }

  lemma OwedByKept(checkpoints: Checkpoints, max: nat, p: nat)
    ensures OwedBy(checkpoints, Kept(checkpoints, max), p).marked <==>
      exists id :: id in Kept(checkpoints, max) && id in checkpoints && p in checkpoints[id].marksRemoved
  {
    var ids := Kept(checkpoints, max);
    OwedIff(checkpoints, ids, p);
    if id :| id in ids && id in checkpoints && p in checkpoints[id].marksRemoved {
      var i :| 0 <= i < |ids| && ids[i] == id;
      assert p in checkpoints[ids[i]].marksRemoved;
    }
    if i :| 0 <= i < |ids| && p in checkpoints[ids[i]].marksRemoved { assert ids[i] in ids; }
  }

  lemma StillListedIff(checkpoints: Checkpoints, refs: References, max: nat, p: nat)
    requires checkpoints.Keys == refs.Keys && |refs| <= max + 1 && SameLists(checkpoints, refs)
    ensures OwedBy(checkpoints, Kept(checkpoints, max), p).marked <==> StillListed(refs, max, p)
  {
    SameSizes(checkpoints, refs);
    OwedByKept(checkpoints, max, p);
    forall id | id in checkpoints ensures id in Kept(checkpoints, max) <==> id in Latest(refs, max) {
      assert id in refs.Keys;
      OthersKept(checkpoints, max, id);
      OldestOrLatest(refs, max, id);
    }
    if id :| id in Kept(checkpoints, max) && id in checkpoints && p in checkpoints[id].marksRemoved {
      assert id in checkpoints.Keys && id in Latest(refs, max) && p in refs[id].forgotten;
    }
    if id :| id in Latest(refs, max) && p in refs[id].forgotten {
      assert id in refs.Keys && id in checkpoints;
    }
  }

  lemma OwedByRemoved(checkpoints: Checkpoints, refs: References, max: nat, p: nat)
    requires checkpoints.Keys == refs.Keys && |refs| <= max + 1 && SameLists(checkpoints, refs)
    ensures OwedBy(checkpoints, Removed(checkpoints, max), p).marked <==> p in DroppedMarks(refs, max)
  {
    SameSizes(checkpoints, refs);
    SameSize(refs);
    OnlyOldestRemoved(checkpoints, max);
    OwedIff(checkpoints, Removed(checkpoints, max), p);
    if |refs| > max {
      var least := Least(refs.Keys);
      assert Removed(checkpoints, max)[0] == least && least in checkpoints.Keys && least in refs;
    }
  }

  /** Exactly when pruning clears a mark that the reference tree drops: unless a checkpoint that stays lists it
      as well. */
  lemma ClearedIff(checkpoints: Checkpoints, refs: References, max: nat, p: nat)
    requires checkpoints.Keys == refs.Keys && |refs| <= max + 1 && SameLists(checkpoints, refs)
    ensures Cleared(checkpoints, max, p).marked <==> p in DroppedMarks(refs, max) && !StillListed(refs, max, p)
  {
    OwedByRemoved(checkpoints, refs, max, p);
    StillListedIff(checkpoints, refs, max, p);
  }

  /** The shard tree keeps a mark that the reference tree drops exactly if a checkpoint that stays lists it too. */
  lemma KeptIffStillListed<H>(sh: nat, shards: seq<Located<H>>, checkpoints: Checkpoints, refs: References, max: nat,
                              after: seq<Located<H>>, p: nat)
    requires checkpoints.Keys == refs.Keys && |refs| <= max + 1 && SameLists(checkpoints, refs)
    requires FlagsCleared(sh, checkpoints, max, shards, after)
    requires FlagsAt(sh, shards, p).marked && p in DroppedMarks(refs, max)
    ensures FlagsAt(sh, after, p).marked <==> StillListed(refs, max, p)
  {
    ClearedIff(checkpoints, refs, max, p);
  }

  /** The marks made since a checkpoint are those of the leaves appended since. */
  lemma MarkedSinceIsLate(n: nat, refs: References, id: int, p: nat)
    requires LateRecords(n, refs) && RecordedSince(refs, p) && id in refs
    ensures MarkedSince(refs, id, p) <==> refs[id].leavesLen <= p
  {
    if MarkedSince(refs, id, p) {
      var i :| i in refs && i >= id && p in refs[i].marked;
      assert refs[id].leavesLen <= refs[i].leavesLen <= p;
    }
  }

  /** No checkpoint but the latest lists a mark as removed. */
  ghost predicate NotListedBefore(refs: References, position: nat)
  {
    forall i, j | i in refs && j in refs && position in refs[i].forgotten :: j <= i
  }
}
