/** The marks of the shard tree as a value, and what each of its operations makes of them, beside those of the
    reference tree: when the two have the same marks, step by step and over whole runs. */
module KeptMarks {

  import opened Basics
  import opened Merkle
  import opened PrunableTrees
  import opened Pruning
  import opened Stores
  import opened ExcessCheckpoints
  import opened ShardStates
  import opened ShardTrees
  import opened CompleteTrees
  import opened SharedMarks
  import opened ReferenceRuns

  /** The number of leaves, the marked positions and the checkpoints of a shard tree. */
  datatype MarkTree = MarkTree(size: nat, marks: set<nat>, checkpoints: Checkpoints)

  function SizeOf(c: Checkpoint): nat
  {
    match c.treeState case Empty => 0 case AtPosition(p) => p + 1
  }

  function CheckpointAtSize(size: nat): Checkpoint
  {
    Checkpoint(if size == 0 then TreeState.Empty else AtPosition(size - 1), {})
  }

  /** Whether some checkpoint lists a mark as removed. */
  ghost predicate Listed(checkpoints: Checkpoints, p: nat)
  {
    exists id :: id in checkpoints && p in checkpoints[id].marksRemoved
  }

  /** Pruning: the latest checkpoints stay, and a listed mark stays only if one of them lists it. */
  ghost function Pruned(size: nat, marks: set<nat>, all: Checkpoints, max: nat): MarkTree
  {
    var latest := Latest(all, max);
    MarkTree(size, (set p | p in marks && (Listed(all, p) ==> Listed(latest, p))), latest)
  }

  /** A new checkpoint, and the pruning that follows. */
  ghost function Noted(t: MarkTree, max: nat, id: int): MarkTree
  {
    Pruned(t.size, t.marks, t.checkpoints[id := CheckpointAtSize(t.size)], max)
  }

  /** Whether the shard tree accepts the operation. */
  ghost predicate Takes<H>(t: MarkTree, depth: nat, op: TreeOp<H>)
  {
    match op
    case AppendOp(_, retention) => !OutOfSequence(retention, t.checkpoints) && t.size < End(depth, 0)
    case CheckpointOp(id) => forall i | i in t.checkpoints :: i < id
    case RewindOp(d) => IdAtDepth(t.checkpoints.Keys, d).Some?
    case RemoveMarkOp(position) => position in t.marks
  }

  /** What an operation makes of the marks and checkpoints of the shard tree, marks being removed as of the latest
      checkpoint. */
  ghost function MarksAfter<H>(t: MarkTree, depth: nat, max: nat, op: TreeOp<H>): MarkTree
  {
    if !Takes(t, depth, op) then t
    else
      match op
      case AppendOp(_, retention) =>
        var grown := MarkTree(t.size + 1, MarksWith(t.marks, retention, t.size), t.checkpoints);
        if retention.CheckpointAt? then Noted(grown, max, retention.id) else grown
      case CheckpointOp(id) => Noted(t, max, id)
      case RewindOp(d) =>
        var id := IdAtDepth(t.checkpoints.Keys, d).value;
        var size := SizeOf(t.checkpoints[id]);
        MarkTree(size, (set p | p in t.marks && p < size),
                 UpTo(t.checkpoints, id)[id := t.checkpoints[id].(marksRemoved := {})])
      case RemoveMarkOp(position) =>
        if t.checkpoints.Keys == {} then t.(marks := t.marks - {position})
        else t.(checkpoints := WithMarkRemoved(t.checkpoints, Greatest(t.checkpoints.Keys), position))
  }

  ghost function KeptOf<H>(t: MarkTree, depth: nat, max: nat, ops: seq<TreeOp<H>>): MarkTree
  {
    if ops == [] then t else MarksAfter(KeptOf(t, depth, max, ops[..|ops| - 1]), depth, max, ops[|ops| - 1])
  }

  lemma OneMoreKept<H>(t: MarkTree, depth: nat, max: nat, ops: seq<TreeOp<H>>, i: nat)
    requires i < |ops|
    ensures KeptOf(t, depth, max, ops[..i + 1]) == MarksAfter(KeptOf(t, depth, max, ops[..i]), depth, max, ops[i])
  {
    assert ops[..i + 1][..i] == ops[..i];
  }

  // ---------- When both trees have the same marks ----------

  ghost predicate EqualSizes(checkpoints: Checkpoints, refs: References)
  {
    forall id | id in checkpoints && id in refs :: SizeOf(checkpoints[id]) == refs[id].leavesLen
  }

  /** Marks are on leaves, and one on a leaf from after a checkpoint was recorded since. */
  ghost predicate Timely(n: nat, marks: set<nat>, refs: References)
  {
    LateRecords(n, refs) && forall p | p in marks :: p < n && RecordedSince(refs, p)
  }

  /** The same marks in both trees, listed alike. */
  ghost predicate Twins<H>(t: MarkTree, r: RefTree<H>, max: nat)
  {
    && t.size == |r.leaves| && t.marks == r.marks
    && t.checkpoints.Keys == r.checkpoints.Keys && |r.checkpoints| <= max
    && SameLists(t.checkpoints, r.checkpoints) && EqualSizes(t.checkpoints, r.checkpoints)
    && Timely(|r.leaves|, r.marks, r.checkpoints)
  }

  lemma SameKeysIn(checkpoints: Checkpoints, refs: References)
    requires checkpoints.Keys == refs.Keys
    ensures forall i :: i in checkpoints <==> i in refs
  {
    assert forall i :: i in checkpoints.Keys <==> i in refs.Keys;
  }

  lemma SameIds(refs: References, others: References)
    requires refs.Keys == others.Keys
    ensures forall i :: i in refs <==> i in others
  {
    assert forall i :: i in refs.Keys <==> i in others.Keys;
  }

  lemma BothAccept<H>(t: MarkTree, r: RefTree<H>, depth: nat, max: nat, op: TreeOp<H>)
    requires Twins(t, r, max)
    ensures Takes(t, depth, op) <==> Accepts(r, depth, op)
  {
    SameKeysIn(t.checkpoints, r.checkpoints);
  }

  lemma MarkedAlike(checkpoints: Checkpoints, marks: set<nat>, refs: References, retention: Retention, n: nat)
    requires checkpoints.Keys == refs.Keys && SameLists(checkpoints, refs) && EqualSizes(checkpoints, refs)
    ensures var more := MarkedAs(marks, refs, retention, n);
            checkpoints.Keys == more.Keys && |more| == |refs| && SameLists(checkpoints, more)
              && EqualSizes(checkpoints, more)
  {
    SameSizes(MarkedAs(marks, refs, retention, n), refs);
  }

  lemma MarkedTimely(n: nat, marks: set<nat>, refs: References, retention: Retention)
    requires Timely(n, marks, refs)
    ensures Timely(n + 1, MarksWith(marks, retention, n), MarkedAs(marks, refs, retention, n))
  {
    if MarksLeaf(retention) {
      var more := MarkedInLatest(refs, n);
      assert n !in marks;
      LateAfterMark(n, refs);
      forall p | p in marks + {n} ensures p < n + 1 && RecordedSince(more, p) { SinceAfterMark(refs, n, p); }
    }
  }

  /** A new leaf. */
  lemma GrownTwins<H>(t: MarkTree, r: RefTree<H>, max: nat, value: H, retention: Retention)
    requires Twins(t, r, max)
    ensures Twins(MarkTree(t.size + 1, MarksWith(t.marks, retention, t.size), t.checkpoints),
                  Grown(r, value, retention), max)
    ensures Grown(r, value, retention).checkpoints.Keys == r.checkpoints.Keys
  {
    hide SameLists, EqualSizes, Timely, MarksWith, MarkedAs;
    MarkedAlike(t.checkpoints, r.marks, r.checkpoints, retention, t.size);
    MarkedTimely(t.size, r.marks, r.checkpoints, retention);
  }

  lemma LatestKeys(all: Checkpoints, refs: References, max: nat)
    requires all.Keys == refs.Keys
    ensures Latest(all, max).Keys == Latest(refs, max).Keys
    ensures forall id | id in Latest(all, max) :: id in all && Latest(all, max)[id] == all[id]
    ensures forall id | id in Latest(refs, max) :: id in refs && Latest(refs, max)[id] == refs[id]
  {
    SameKeysIn(all, refs);
    forall id ensures id in Latest(all, max).Keys <==> id in Latest(refs, max).Keys { }
  }

  lemma ListedIffIn(all: Checkpoints, refs: References, p: nat)
    requires all.Keys == refs.Keys && SameLists(all, refs)
    ensures Listed(all, p) <==> exists id :: id in refs && p in refs[id].forgotten
  {
    SameKeysIn(all, refs);
    if id :| id in all && p in all[id].marksRemoved { assert id in refs && p in refs[id].forgotten; }
    if id :| id in refs && p in refs[id].forgotten { assert id in all && p in all[id].marksRemoved; }
  }

  /** With the oldest of one too many gone, a mark that was listed is listed no more exactly if the reference tree
      drops it and no checkpoint that stays lists it. */
  lemma ListedIff(all: Checkpoints, refs: References, max: nat, p: nat)
    requires all.Keys == refs.Keys && |refs| <= max + 1 && SameLists(all, refs)
    ensures Listed(Latest(all, max), p) <==> StillListed(refs, max, p)
    ensures Listed(all, p) <==> p in DroppedMarks(refs, max) || StillListed(refs, max, p)
  {
    hide Latest, Listed, DroppedMarks;
    LatestKeys(all, refs, max);
    ListedIffIn(all, refs, p);
    ListedIffIn(Latest(all, max), Latest(refs, max), p);
    OldestGoes(refs, max);
    if id :| id in refs && p in refs[id].forgotten { OldestOrLatest(refs, max, id); }
    if id :| id in Latest(refs, max) && p in Latest(refs, max)[id].forgotten { assert id in refs; }
    if p in DroppedMarks(refs, max) { assert Least(refs.Keys) in refs.Keys; }
  }

  lemma NewestTimely(size: nat, marks: set<nat>, refs: References, id: int)
    requires Timely(size, marks, refs) && Later(refs, id)
    ensures Timely(size, marks, refs[id := CompleteCheckpoint(size, {}, {})])
  {
    var more := refs[id := CompleteCheckpoint(size, {}, {})];
    LateNewest(size, refs, id);
    forall p | p in marks ensures RecordedSince(more, p) { SinceNewest(size, refs, id, p); }
  }

  lemma LateNewest(size: nat, refs: References, id: int)
    requires LateRecords(size, refs) && Later(refs, id)
    ensures LateRecords(size, refs[id := CompleteCheckpoint(size, {}, {})])
  {
  }

  lemma SinceNewest(size: nat, refs: References, id: int, p: nat)
    requires RecordedSince(refs, p) && Later(refs, id) && p < size
    ensures RecordedSince(refs[id := CompleteCheckpoint(size, {}, {})], p)
  {
    var more := refs[id := CompleteCheckpoint(size, {}, {})];
    forall i | i in more && more[i].leavesLen <= p ensures MarkedSince(more, i, p) {
      assert MarkedSince(refs, i, p);
      var j :| j in refs && j >= i && p in refs[j].marked;
      assert j in more && p in more[j].marked;
    }
  }

  lemma NewestAlike(checkpoints: Checkpoints, size: nat, refs: References, max: nat, id: int)
    requires checkpoints.Keys == refs.Keys && |refs| <= max
    requires SameLists(checkpoints, refs) && EqualSizes(checkpoints, refs)
    ensures var all, more := checkpoints[id := CheckpointAtSize(size)], refs[id := CompleteCheckpoint(size, {}, {})];
            && all.Keys == more.Keys && |more| <= max + 1 && SameLists(all, more) && EqualSizes(all, more)
  {
    var more := refs[id := CompleteCheckpoint(size, {}, {})];
    SameSize(refs);
    SameSize(more);
    assert more.Keys == refs.Keys + {id};
  }

  lemma LatestTimely(size: nat, marks: set<nat>, fewer: set<nat>, refs: References, max: nat)
    requires |refs| <= max + 1 && fewer <= marks && Timely(size, marks, refs)
    ensures Timely(size, fewer, Latest(refs, max)) && |Latest(refs, max)| <= max
  {
    hide LateRecords, RecordedSince, Latest;
    LateLatest(size, refs, max);
    forall p | p in fewer ensures RecordedSince(Latest(refs, max), p) { SinceAfterDrop(refs, max, p); }
  }

  lemma LateLatest(size: nat, refs: References, max: nat)
    requires |refs| <= max + 1 && LateRecords(size, refs)
    ensures LateRecords(size, Latest(refs, max)) && |Latest(refs, max)| <= max
  {
    OneTooMany(refs, max);
  }

  lemma LatestAlike(all: Checkpoints, refs: References, max: nat)
    requires all.Keys == refs.Keys && SameLists(all, refs) && EqualSizes(all, refs)
    ensures Latest(all, max).Keys == Latest(refs, max).Keys
    ensures SameLists(Latest(all, max), Latest(refs, max)) && EqualSizes(Latest(all, max), Latest(refs, max))
  {
    hide Latest;
    LatestKeys(all, refs, max);
  }

  /** Exactly when a new checkpoint leaves the trees with the same marks: if no mark that goes with the oldest one is
      still listed by a checkpoint that stays. */
  lemma NotedTwins<H>(t: MarkTree, r: RefTree<H>, max: nat, id: int)
    requires Twins(t, r, max) && Later(r.checkpoints, id)
    ensures Noted(t, max, id).marks == Checkpointed(r, max, id).marks <==> NoneStillListed(r, max, id)
    ensures NoneStillListed(r, max, id) ==> Twins(Noted(t, max, id), Checkpointed(r, max, id), max)
  {
    var n := |r.leaves|;
    var all, refs := t.checkpoints[id := CheckpointAtSize(n)], r.checkpoints[id := CompleteCheckpoint(n, {}, {})];
    NewestAlike(t.checkpoints, n, r.checkpoints, max, id);
    NewestTimely(n, r.marks, r.checkpoints, id);
    forall p ensures p in Noted(t, max, id).marks <==>
        p in r.marks && (p in DroppedMarks(refs, max) ==> StillListed(refs, max, p))
    {
      if p in r.marks { ListedIff(all, refs, max, p); }
    }
    LeftOfDropped(r.marks, refs, max, Noted(t, max, id).marks);
    LatestAlike(all, refs, max);
    LatestTimely(n, r.marks, r.marks - DroppedMarks(refs, max), refs, max);
  }

  lemma LeftOfDropped(marks: set<nat>, refs: References, max: nat, left: set<nat>)
    requires forall p ::
      p in left <==> p in marks && (p in DroppedMarks(refs, max) ==> StillListed(refs, max, p))
    ensures left == marks - DroppedMarks(refs, max) <==>
      forall p | p in marks && p in DroppedMarks(refs, max) :: !StillListed(refs, max, p)
  {
    var gone := DroppedMarks(refs, max);
    if forall p | p in marks && p in gone :: !StillListed(refs, max, p) {
      assert forall p :: p in left <==> p in marks - gone;
    }
    if left == marks - gone {
      forall p | p in marks && p in gone ensures !StillListed(refs, max, p) { assert p !in left; }
    }
  }

  lemma RewoundAlike(checkpoints: Checkpoints, refs: References, id: int)
    requires checkpoints.Keys == refs.Keys && SameLists(checkpoints, refs) && EqualSizes(checkpoints, refs)
    requires id in checkpoints && id in refs
    ensures var fewer, others := UpTo(checkpoints, id)[id := checkpoints[id].(marksRemoved := {})], KeptUpTo(refs, id);
            && fewer.Keys == others.Keys && |others| <= |refs|
            && SameLists(fewer, others) && EqualSizes(fewer, others)
  {
    SameKeysIn(checkpoints, refs);
    var fewer, others := UpTo(checkpoints, id)[id := checkpoints[id].(marksRemoved := {})], KeptUpTo(refs, id);
    forall i ensures i in fewer.Keys <==> i in others.Keys { }
    Fewer(others, refs);
  }

  lemma RewoundTimely(n: nat, marks: set<nat>, left: set<nat>, refs: References, id: int)
    requires Timely(n, marks, refs) && id in refs
    requires forall p :: p in left <==> p in marks && !MarkedSince(refs, id, p)
    ensures Timely(refs[id].leavesLen, left, KeptUpTo(refs, id)) && refs[id].leavesLen <= n
    ensures forall p :: p in left <==> p in marks && p < refs[id].leavesLen
  {
    forall p | p in marks ensures MarkedSince(refs, id, p) <==> refs[id].leavesLen <= p {
      MarkedSinceIsLate(n, refs, id, p);
    }
    forall p | p in left ensures RecordedSince(KeptUpTo(refs, id), p) { SinceAfterRewind(refs, id, p); }
    LateAfterRewind(n, refs, id);
  }

  lemma LateAfterRewind(n: nat, refs: References, id: int)
    requires LateRecords(n, refs) && id in refs
    ensures LateRecords(refs[id].leavesLen, KeptUpTo(refs, id))
  {
  }

  /** Going back to the same checkpoint. */
  lemma RewoundTwins<H>(t: MarkTree, r: RefTree<H>, depth: nat, max: nat, d: nat)
    requires Twins(t, r, max) && IdAtDepth(r.checkpoints.Keys, d).Some?
    ensures Twins(MarksAfter<H>(t, depth, max, RewindOp(d)), After(r, depth, max, RewindOp(d)), max)
  {
    hide SameLists, EqualSizes, Timely, UpTo, KeptUpTo, MarkedSince, IdAtDepth;
    var id := IdAtDepth(r.checkpoints.Keys, d).value;
    var t2, r2 := MarksAfter<H>(t, depth, max, RewindOp(d)), After(r, depth, max, RewindOp(d));
    RewoundAlike(t.checkpoints, r.checkpoints, id);
    RewoundTimely(|r.leaves|, r.marks, r2.marks, r.checkpoints, id);
    SizesAt(t.checkpoints, r.checkpoints, id);
    assert forall p :: p in t2.marks <==> p in r2.marks;
  }

  lemma SizesAt(checkpoints: Checkpoints, refs: References, id: int)
    requires EqualSizes(checkpoints, refs) && id in checkpoints && id in refs
    ensures SizeOf(checkpoints[id]) == refs[id].leavesLen
  {
  }

  lemma ForgottenAlike(checkpoints: Checkpoints, refs: References, position: nat)
    requires checkpoints.Keys == refs.Keys != {} && SameLists(checkpoints, refs) && EqualSizes(checkpoints, refs)
    ensures var listed, forgotten := WithMarkRemoved(checkpoints, Greatest(refs.Keys), position),
              ForgottenInLatest(refs, position);
            && listed.Keys == forgotten.Keys && |forgotten| == |refs|
            && SameLists(listed, forgotten) && EqualSizes(listed, forgotten)
  {
    SameSizes(ForgottenInLatest(refs, position), refs);
    SameKeysIn(checkpoints, refs);
  }

  lemma ForgottenTimely(n: nat, marks: set<nat>, refs: References, position: nat)
    requires Timely(n, marks, refs)
    ensures Timely(n, marks, ForgottenInLatest(refs, position))
  {
    forall p | p in marks ensures RecordedSince(ForgottenInLatest(refs, position), p) {
      SinceAfterForgetting(refs, position, p);
    }
  }

  /** Removing a mark as of the latest checkpoint, or at once. */
  lemma UnmarkedTwins<H>(t: MarkTree, r: RefTree<H>, depth: nat, max: nat, position: nat)
    requires Twins(t, r, max) && position in r.marks
    ensures Twins(MarksAfter<H>(t, depth, max, RemoveMarkOp(position)),
                  After(r, depth, max, RemoveMarkOp(position)), max)
  {
    hide SameLists, EqualSizes, LateRecords, RecordedSince, WithMarkRemoved, ForgottenInLatest;
    if r.checkpoints.Keys != {} {
      ForgottenAlike(t.checkpoints, r.checkpoints, position);
      ForgottenTimely(|r.leaves|, r.marks, r.checkpoints, position);
    }
  }

  /** One operation: accepted by both trees or by neither, and afterwards they have the same marks exactly if it drops
      no mark that is still listed. */
  lemma StepTwins<H>(t: MarkTree, r: RefTree<H>, depth: nat, max: nat, op: TreeOp<H>)
    requires Twins(t, r, max)
    ensures Takes(t, depth, op) <==> Accepts(r, depth, op)
    ensures MarksAfter(t, depth, max, op).marks == After(r, depth, max, op).marks <==> DropsClean(r, depth, max, op)
    ensures DropsClean(r, depth, max, op) ==> Twins(MarksAfter(t, depth, max, op), After(r, depth, max, op), max)
  {
    hide Noted, Checkpointed, NoneStillListed, Grown, SameLists, EqualSizes, Timely;
    BothAccept(t, r, depth, max, op);
    if Accepts(r, depth, op) {
      match op
      case AppendOp(value, retention) =>
        GrownTwins(t, r, max, value, retention);
        if retention.CheckpointAt? {
          SameIds(Grown(r, value, retention).checkpoints, r.checkpoints);
          NotedTwins(MarkTree(t.size + 1, MarksWith(t.marks, retention, t.size), t.checkpoints),
                     Grown(r, value, retention), max, retention.id);
        }
      case CheckpointOp(id) => NotedTwins(t, r, max, id);
      case RewindOp(d) => RewoundTwins(t, r, depth, max, d);
      case RemoveMarkOp(position) => UnmarkedTwins(t, r, depth, max, position);
    }
  }

  /** The same marks in both trees after every operation of a run. */
  ghost predicate SameThroughout<H>(t: MarkTree, r: RefTree<H>, depth: nat, max: nat, ops: seq<TreeOp<H>>)
  {
    forall i | 0 <= i <= |ops| :: SameAt(t, r, depth, max, ops, i)
  }

  ghost predicate SameAt<H>(t: MarkTree, r: RefTree<H>, depth: nat, max: nat, ops: seq<TreeOp<H>>, i: nat)
    requires i <= |ops|
  {
    KeptOf(t, depth, max, ops[..i]).marks == RunOf(r, depth, max, ops[..i]).marks
  }

  lemma SameOnce<H>(t: MarkTree, r: RefTree<H>, depth: nat, max: nat, ops: seq<TreeOp<H>>)
    requires ops != []
    ensures SameThroughout(t, r, depth, max, ops) <==>
      && SameThroughout(t, r, depth, max, ops[..|ops| - 1])
      && KeptOf(t, depth, max, ops).marks == RunOf(r, depth, max, ops).marks
  {
    hide KeptOf, RunOf;
    var k := |ops| - 1;
    assert ops[..k + 1] == ops;
    forall i: nat | i <= k ensures SameAt(t, r, depth, max, ops, i) <==> SameAt(t, r, depth, max, ops[..k], i) {
      assert ops[..k][..i] == ops[..i];
    }
    if SameThroughout(t, r, depth, max, ops) { assert SameAt(t, r, depth, max, ops, k + 1); }
  }

  /** Over whole runs: the two trees have the same marks after every operation exactly if no checkpoint drops a mark
      that another one still lists. */
  lemma {:induction false} CleanIff<H>(t: MarkTree, r: RefTree<H>, depth: nat, max: nat, ops: seq<TreeOp<H>>)
    requires Twins(t, r, max)
    ensures CleanRun(r, depth, max, ops) <==> SameThroughout(t, r, depth, max, ops)
    ensures CleanRun(r, depth, max, ops) ==> Twins(KeptOf(t, depth, max, ops), RunOf(r, depth, max, ops), max)
  {
    hide Twins, After, MarksAfter, DropsClean, SameThroughout;
    if ops == [] {
      StartsSame(t, r, depth, max, ops);
    } else {
      var before, last := ops[..|ops| - 1], ops[|ops| - 1];
      CleanIff(t, r, depth, max, before);
      SameOnce(t, r, depth, max, ops);
      if CleanRun(r, depth, max, before) {
        StepTwins(KeptOf(t, depth, max, before), RunOf(r, depth, max, before), depth, max, last);
      }
    }
  }

  lemma StartsSame<H>(t: MarkTree, r: RefTree<H>, depth: nat, max: nat, ops: seq<TreeOp<H>>)
    requires Twins(t, r, max) && ops == []
    ensures SameThroughout(t, r, depth, max, ops)
  {
    assert ops[..0] == ops;
  }

  // ---------- Runs that remove every mark once ----------

  lemma OnceMarked(marks: set<nat>, refs: References, retention: Retention, n: nat)
    requires ListedOnce(refs)
    ensures ListedOnce(MarkedAs(marks, refs, retention, n)) && MarkedAs(marks, refs, retention, n).Keys == refs.Keys
  {
  }

  lemma OnceWithNewest(refs: References, n: nat, id: int)
    requires ListedOnce(refs) && Later(refs, id)
    ensures var all := refs[id := CompleteCheckpoint(n, {}, {})];
            ListedOnce(all) && |all| <= |refs| + 1
  {
    var all := refs[id := CompleteCheckpoint(n, {}, {})];
    assert all.Keys == refs.Keys + {id};
    SameSize(refs);
    SameSize(all);
  }

  lemma OnceLatest(all: References, max: nat)
    requires ListedOnce(all) && |all| <= max + 1
    ensures ListedOnce(Latest(all, max)) && |Latest(all, max)| <= max
  {
    OneTooMany(all, max);
  }

  lemma OnceNotStill(all: References, max: nat, p: nat)
    requires ListedOnce(all) && |all| <= max + 1 && p in DroppedMarks(all, max)
    ensures !StillListed(all, max, p)
  {
    OldestGoes(all, max);
    forall id | id in Latest(all, max) ensures p !in all[id].forgotten { OldestOrLatest(all, max, id); }
  }

  lemma OnceNoted<H>(r: RefTree<H>, max: nat, id: int)
    requires ListedOnce(r.checkpoints) && |r.checkpoints| <= max && Later(r.checkpoints, id)
    ensures NoneStillListed(r, max, id)
    ensures ListedOnce(Checkpointed(r, max, id).checkpoints) && |Checkpointed(r, max, id).checkpoints| <= max
  {
    hide ListedOnce, DroppedMarks, StillListed, Latest;
    var all := r.checkpoints[id := CompleteCheckpoint(|r.leaves|, {}, {})];
    OnceWithNewest(r.checkpoints, |r.leaves|, id);
    OnceLatest(all, max);
    forall p | p in r.marks && p in DroppedMarks(all, max) ensures !StillListed(all, max, p) {
      OnceNotStill(all, max, p);
    }
  }

  lemma OnceForgotten(refs: References, position: nat)
    requires ListedOnce(refs) && NotListedBefore(refs, position)
    ensures ListedOnce(ForgottenInLatest(refs, position)) && |ForgottenInLatest(refs, position)| == |refs|
  {
    var all := ForgottenInLatest(refs, position);
    SameSizes(all, refs);
    if refs.Keys != {} {
      var latest := Greatest(refs.Keys);
      forall i, j, p | i in all && j in all && p in all[i].forgotten && p in all[j].forgotten ensures i == j {
        assert i in refs.Keys && j in refs.Keys && latest in refs;
        if p == position { assert i != latest ==> latest <= i; assert j != latest ==> latest <= j; }
      }
    }
  }

  lemma OnceRewound(refs: References, id: int)
    requires ListedOnce(refs) && id in refs
    ensures ListedOnce(KeptUpTo(refs, id)) && |KeptUpTo(refs, id)| <= |refs|
  {
    Fewer(KeptUpTo(refs, id), refs);
  }

  lemma OnceStep<H>(r: RefTree<H>, depth: nat, max: nat, op: TreeOp<H>)
    requires ListedOnce(r.checkpoints) && |r.checkpoints| <= max && RemovesAnew(r, op)
    ensures DropsClean(r, depth, max, op)
    ensures ListedOnce(After(r, depth, max, op).checkpoints) && |After(r, depth, max, op).checkpoints| <= max
  {
    hide ListedOnce, NoneStillListed, Checkpointed, KeptUpTo, ForgottenInLatest, MarkedAs, IdAtDepth;
    if Accepts(r, depth, op) {
      match op
      case AppendOp(value, retention) =>
        OnceMarked(r.marks, r.checkpoints, retention, |r.leaves|);
        SameSizes(Grown(r, value, retention).checkpoints, r.checkpoints);
        SameIds(Grown(r, value, retention).checkpoints, r.checkpoints);
        if retention.CheckpointAt? { OnceNoted(Grown(r, value, retention), max, retention.id); }
      case CheckpointOp(id) => OnceNoted(r, max, id);
      case RewindOp(d) => OnceRewound(r.checkpoints, IdAtDepth(r.checkpoints.Keys, d).value);
      case RemoveMarkOp(position) =>
        if r.checkpoints != map[] { OnceForgotten(r.checkpoints, position); }
    }
  }

  /** It is enough that no mark is removed again while an older stored checkpoint lists it. */
  lemma {:induction false} OnceIsClean<H>(r: RefTree<H>, depth: nat, max: nat, ops: seq<TreeOp<H>>)
    requires ListedOnce(r.checkpoints) && |r.checkpoints| <= max && RemovesOnce(r, depth, max, ops)
    ensures CleanRun(r, depth, max, ops)
    ensures ListedOnce(RunOf(r, depth, max, ops).checkpoints) && |RunOf(r, depth, max, ops).checkpoints| <= max
  {
    hide ListedOnce, RemovesAnew, DropsClean, After;
    if ops != [] {
      var before := ops[..|ops| - 1];
      OnceIsClean(r, depth, max, before);
      OnceStep(RunOf(r, depth, max, before), depth, max, ops[|ops| - 1]);
    }
  }

  // ---------- The marks in the shards ----------

  /** The marked positions in the shards. */
  ghost function MarksIn<H>(sh: nat, n: nat, shards: seq<Located<H>>): set<nat>
  {
    set p: nat | p < n && FlagsAt(sh, shards, p).marked
  }

  ghost function InShards<H>(sh: nat, n: nat, s: Store<H>): MarkTree
  {
    MarkTree(n, MarksIn(sh, n, s.shards), s.checkpoints)
  }

  /** The lists of removed marks alone. */
  ghost function ListsOf(checkpoints: Checkpoints): (refs: References)
    ensures checkpoints.Keys == refs.Keys && SameLists(checkpoints, refs)
  {
    map id | id in checkpoints :: CompleteCheckpoint(0, {}, checkpoints[id].marksRemoved)
  }

  lemma ClearedIs(all: Checkpoints, max: nat, p: nat)
    requires |all| <= max + 1
    ensures Cleared(all, max, p).marked <==> Listed(all, p) && !Listed(Latest(all, max), p)
  {
    var refs := ListsOf(all);
    SameSizes(all, refs);
    ClearedIff(all, refs, max, p);
    ListedIff(all, refs, max, p);
  }

  /** What pruning makes of the marks in the shards. */
  lemma PrunedMarks<H>(sh: nat, n: nat, before: Store<H>, max: nat, after: Store<H>)
    requires |before.checkpoints| <= max + 1 && FlagsCleared(sh, before.checkpoints, max, before.shards, after.shards)
    requires after.checkpoints == KeptOnly(before.checkpoints, before.checkpoints, max)
    ensures InShards(sh, n, after) == Pruned(n, MarksIn(sh, n, before.shards), before.checkpoints, max)
  {
    hide FlagsAt, Listed, Latest, Cleared, KeptOnly;
    KeptIsLatest(before.checkpoints, before.checkpoints, max);
    forall p: nat ensures FlagsAt(sh, after.shards, p).marked <==>
        (FlagsAt(sh, before.shards, p).marked
         && (Listed(before.checkpoints, p) ==> Listed(Latest(before.checkpoints, max), p)))
    {
      ClearedIs(before.checkpoints, max, p);
    }
  }

  lemma NothingPruned(size: nat, marks: set<nat>, all: Checkpoints, max: nat)
    requires |all| <= max
    ensures Pruned(size, marks, all, max) == MarkTree(size, marks, all)
  {
    OneTooMany(all, max);
    assert (set p | p in marks && (Listed(all, p) ==> Listed(Latest(all, max), p))) == marks;
  }

  lemma AppendedMarksIn<H>(sh: nat, n: nat, shards: seq<Located<H>>, retention: Retention, after: seq<Located<H>>)
    requires forall p: nat :: FlagsAt(sh, after, p) == if p == n then FlagsOf(retention) else FlagsAt(sh, shards, p)
    ensures MarksIn(sh, n + 1, after) == MarksWith(MarksIn(sh, n, shards), retention, n)
  {
  }

  /** A leaf appended to the shards, and the pruning that follows. */
  lemma AppendedInShards<H>(sh: nat, n: nat, depth: nat, max: nat, s: Store<H>, value: H, retention: Retention,
                            before: Store<H>, after: Store<H>)
    requires |s.checkpoints| <= max && n < End(depth, 0) && !OutOfSequence(retention, s.checkpoints)
    requires before.checkpoints == WithCheckpoint(s.checkpoints, retention, Checkpoint(AtPosition(n), {}))
    requires forall p: nat ::
      FlagsAt(sh, before.shards, p) == if p == n then FlagsOf(retention) else FlagsAt(sh, s.shards, p)
    requires FlagsCleared(sh, before.checkpoints, max, before.shards, after.shards)
    requires after.checkpoints == KeptOnly(before.checkpoints, before.checkpoints, max)
    ensures InShards(sh, n + 1, after) == MarksAfter(InShards(sh, n, s), depth, max, AppendOp(value, retention))
  {
    hide FlagsAt, FlagsOf, Pruned, MarksWith, MarksIn, FlagsCleared, KeptOnly;
    OneMoreAtMost(s.checkpoints, before.checkpoints, retention, Checkpoint(AtPosition(n), {}));
    AppendedMarksIn(sh, n, s.shards, retention, before.shards);
    PrunedMarks(sh, n + 1, before, max, after);
    if !retention.CheckpointAt? { NothingPruned(n + 1, MarksIn(sh, n + 1, before.shards), before.checkpoints, max); }
  }

  lemma OneMoreAtMost(checkpoints: Checkpoints, more: Checkpoints, retention: Retention, c: Checkpoint)
    requires more == WithCheckpoint(checkpoints, retention, c)
    ensures |more| <= |checkpoints| + 1
    ensures !retention.CheckpointAt? ==> more == checkpoints
  {
    SameSize(checkpoints);
    SameSize(more);
    if retention.CheckpointAt? { assert more.Keys == checkpoints.Keys + {retention.id}; }
  }

  /** A checkpoint of the shards, and the pruning that follows. */
  lemma NotedInShards<H>(sh: nat, n: nat, depth: nat, max: nat, s: Store<H>, id: int, before: Store<H>, after: Store<H>)
    requires |s.checkpoints| <= max && forall i | i in s.checkpoints :: i < id
    requires before.checkpoints == s.checkpoints[id := CheckpointAtSize(n)]
    requires forall p: nat :: FlagsAt(sh, s.shards, p).marked <==> FlagsAt(sh, before.shards, p).marked
    requires FlagsCleared(sh, before.checkpoints, max, before.shards, after.shards)
    requires after.checkpoints == KeptOnly(before.checkpoints, before.checkpoints, max)
    ensures InShards(sh, n, after) == MarksAfter<H>(InShards(sh, n, s), depth, max, CheckpointOp(id))
  {
    hide FlagsAt, Pruned, FlagsCleared, KeptOnly;
    SameSize(s.checkpoints);
    SameSize(before.checkpoints);
    assert before.checkpoints.Keys == s.checkpoints.Keys + {id};
    assert MarksIn(sh, n, before.shards) == MarksIn(sh, n, s.shards);
    PrunedMarks(sh, n, before, max, after);
  }

  /** Going back in the shards. */
  lemma RewoundInShards<H>(sh: nat, n: nat, depth: nat, max: nat, s: Store<H>, d: nat, after: Store<H>)
    requires IdAtDepth(s.checkpoints.Keys, d).Some?
    requires var id := IdAtDepth(s.checkpoints.Keys, d).value;
             && SizeOf(s.checkpoints[id]) <= n
             && after.checkpoints == s.TruncateCheckpointsRetaining(id).checkpoints
             && forall p: nat :: FlagsAt(sh, after.shards, p) ==
                  (if p < SizeOf(s.checkpoints[id]) then FlagsAt(sh, s.shards, p) else EPHEMERAL)
    ensures var id := IdAtDepth(s.checkpoints.Keys, d).value;
            InShards(sh, SizeOf(s.checkpoints[id]), after) == MarksAfter<H>(InShards(sh, n, s), depth, max, RewindOp(d))
  {
    hide FlagsAt, SizeOf, IdAtDepth, UpTo;
    var id := IdAtDepth(s.checkpoints.Keys, d).value;
    RetainedUpTo(s, id);
  }

  lemma RetainedUpTo<H>(s: Store<H>, id: int)
    requires id in s.checkpoints
    ensures s.TruncateCheckpointsRetaining(id).checkpoints ==
      UpTo(s.checkpoints, id)[id := s.checkpoints[id].(marksRemoved := {})]
  {
  }

  ghost predicate UnmarkedAt<H>(sh: nat, before: seq<Located<H>>, after: seq<Located<H>>, position: nat)
  {
    forall p: nat ::
      FlagsAt(sh, after, p) == if p == position then FlagsAt(sh, before, p).Minus(MARKED) else FlagsAt(sh, before, p)
  }

  /** Removing a mark at once, without any checkpoint. */
  lemma UnmarkedInShards<H>(sh: nat, n: nat, depth: nat, max: nat, s: Store<H>, position: nat, after: Store<H>)
    requires position in MarksIn(sh, n, s.shards) && s.checkpoints == map[] && after.checkpoints == s.checkpoints
    requires UnmarkedAt(sh, s.shards, after.shards, position)
    ensures InShards(sh, n, after) == MarksAfter<H>(InShards(sh, n, s), depth, max, RemoveMarkOp(position))
  {
  }
}
