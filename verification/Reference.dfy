/** The reference tree as a value, and what each of its operations makes of it: the history of a run, against
    which conditions on whole runs are stated. */
module ReferenceRuns {

  import opened Basics
  import opened Merkle
  import opened Stores
  import opened ShardTrees
  import opened CompleteTrees
  import opened SharedMarks

  datatype TreeOp<H> =
    | AppendOp(value: H, retention: Retention)
    | CheckpointOp(id: int)
    | RewindOp(checkpointDepth: nat)
    | RemoveMarkOp(position: nat)

  datatype RefTree<H> = RefTree(leaves: seq<H>, marks: set<nat>, checkpoints: References)

  ghost function EmptyRef<H>(): RefTree<H> { RefTree([], {}, map[]) }

  ghost predicate Later(checkpoints: References, id: int)
  {
    forall i | i in checkpoints :: i < id
  }

  /** Whether the operation is accepted. */
  ghost predicate Accepts<H>(r: RefTree<H>, depth: nat, op: TreeOp<H>)
  {
    match op
    case AppendOp(_, retention) =>
      (retention.CheckpointAt? ==> Later(r.checkpoints, retention.id)) && |r.leaves| < End(depth, 0)
    case CheckpointOp(id) => Later(r.checkpoints, id)
    case RewindOp(d) => IdAtDepth(r.checkpoints.Keys, d).Some?
    case RemoveMarkOp(position) => position in r.marks
  }

  /** A new checkpoint of the present leaves, the oldest going if there is one too many. */
  ghost function Checkpointed<H>(r: RefTree<H>, max: nat, id: int): RefTree<H>
  {
    var all := r.checkpoints[id := CompleteCheckpoint(|r.leaves|, {}, {})];
    RefTree(r.leaves, r.marks - DroppedMarks(all, max), Latest(all, max))
  }

  /** A new leaf, marked if asked to. */
  ghost function Grown<H>(r: RefTree<H>, value: H, retention: Retention): RefTree<H>
  {
    var n := |r.leaves|;
    RefTree(r.leaves + [value], MarksWith(r.marks, retention, n), MarkedAs(r.marks, r.checkpoints, retention, n))
  }

  ghost function After<H>(r: RefTree<H>, depth: nat, max: nat, op: TreeOp<H>): RefTree<H>
  {
    if !Accepts(r, depth, op) then r
    else
      match op
      case AppendOp(value, retention) =>
        var grown := Grown(r, value, retention);
        if retention.CheckpointAt? then Checkpointed(grown, max, retention.id) else grown
      case CheckpointOp(id) => Checkpointed(r, max, id)
      case RewindOp(d) =>
        var id := IdAtDepth(r.checkpoints.Keys, d).value;
        RefTree(Take(r.leaves, r.checkpoints[id].leavesLen),
                (set p | p in r.marks && !MarkedSince(r.checkpoints, id, p)),
                  KeptUpTo(r.checkpoints, id))
      case RemoveMarkOp(position) =>
        if r.checkpoints == map[] then r.(marks := r.marks - {position})
        else r.(checkpoints := ForgottenInLatest(r.checkpoints, position))
  }

  ghost function RunOf<H>(r: RefTree<H>, depth: nat, max: nat, ops: seq<TreeOp<H>>): RefTree<H>
  {
    if ops == [] then r else After(RunOf(r, depth, max, ops[..|ops| - 1]), depth, max, ops[|ops| - 1])
  }

  /** Whether a new checkpoint drops no mark that a checkpoint that stays still lists as removed. */
  ghost predicate NoneStillListed<H>(r: RefTree<H>, max: nat, id: int)
  {
    var all := r.checkpoints[id := CompleteCheckpoint(|r.leaves|, {}, {})];
    forall p | p in r.marks && p in DroppedMarks(all, max) :: !StillListed(all, max, p)
  }

  ghost predicate DropsClean<H>(r: RefTree<H>, depth: nat, max: nat, op: TreeOp<H>)
  {
    Accepts(r, depth, op) ==>
      match op
      case AppendOp(value, retention) =>
        retention.CheckpointAt? ==> NoneStillListed(Grown(r, value, retention), max, retention.id)
      case CheckpointOp(id) => NoneStillListed(r, max, id)
      case RewindOp(_) => true
      case RemoveMarkOp(_) => true
  }

  /** Throughout the run, no checkpoint drops a mark that another stored checkpoint still lists as removed. */
  ghost predicate CleanRun<H>(r: RefTree<H>, depth: nat, max: nat, ops: seq<TreeOp<H>>)
  {
    ops == [] ||
    (CleanRun(r, depth, max, ops[..|ops| - 1])
     && DropsClean(RunOf(r, depth, max, ops[..|ops| - 1]), depth, max, ops[|ops| - 1]))
  }

  /** Whether the operation removes no mark that an older stored checkpoint lists as removed already. */
  ghost predicate RemovesAnew<H>(r: RefTree<H>, op: TreeOp<H>)
  {
    op.RemoveMarkOp? && op.position in r.marks ==> NotListedBefore(r.checkpoints, op.position)
  }

  /** Throughout the run, no mark is removed again while an older stored checkpoint lists it. */
  ghost predicate RemovesOnce<H>(r: RefTree<H>, depth: nat, max: nat, ops: seq<TreeOp<H>>)
  {
    ops == [] ||
    (RemovesOnce(r, depth, max, ops[..|ops| - 1])
     && RemovesAnew(RunOf(r, depth, max, ops[..|ops| - 1]), ops[|ops| - 1]))
  }

  lemma OneMoreOp<H>(r: RefTree<H>, depth: nat, max: nat, ops: seq<TreeOp<H>>, i: nat)
    requires i < |ops|
    ensures RunOf(r, depth, max, ops[..i + 1]) == After(RunOf(r, depth, max, ops[..i]), depth, max, ops[i])
    ensures CleanRun(r, depth, max, ops[..i + 1]) <==>
      CleanRun(r, depth, max, ops[..i]) && DropsClean(RunOf(r, depth, max, ops[..i]), depth, max, ops[i])
  {
    assert ops[..i + 1][..i] == ops[..i];
  }

  ghost function ContentsOf<H>(t: CompleteTree<H>): RefTree<H>
    reads t
  {
    RefTree(t.leaves, t.marks, t.checkpoints)
  }

  /** The operations of the reference tree are those of the value. */
  method Perform<H>(t: CompleteTree<H>, op: TreeOp<H>) returns (ok: bool)
    requires t.Valid()
    modifies t
    ensures t.Valid()
    ensures ok <==> Accepts(old(ContentsOf(t)), t.depth, op)
    ensures ContentsOf(t) == After(old(ContentsOf(t)), t.depth, t.maxCheckpoints, op)
    ensures ok ==> t.saved == SavedAfter(old(t.leaves), old(t.saved), t.maxCheckpoints, op)
    ensures !ok ==> t.saved == old(t.saved)
  {
    match op {
      case AppendOp(value, retention) => ok := t.Append(value, retention);
      case CheckpointOp(id) => ok := t.AddCheckpoint(id);
      case RewindOp(d) => ok := PerformRewind(t, d);
      case RemoveMarkOp(position) => ok := t.RemoveMark(position);
    }
  }

  /** The leaves that every checkpoint stands for, after an accepted operation. */
  ghost function SavedAfter<H>(leaves: seq<H>, saved: map<int, seq<H>>, max: nat, op: TreeOp<H>): map<int, seq<H>>
  {
    match op
    case AppendOp(value, retention) =>
      if retention.CheckpointAt? then Latest(saved[retention.id := leaves + [value]], max) else saved
    case CheckpointOp(id) => Latest(saved[id := leaves], max)
    case RewindOp(d) => var id := IdAtDepth(saved.Keys, d); if id.Some? then UpTo(saved, id.value) else saved
    case RemoveMarkOp(_) => saved
  }

  method PerformRewind<H>(t: CompleteTree<H>, d: nat) returns (ok: bool)
    requires t.Valid()
    modifies t
    ensures t.Valid()
    ensures ok <==> Accepts(old(ContentsOf(t)), t.depth, RewindOp(d))
    ensures ContentsOf(t) == After(old(ContentsOf(t)), t.depth, t.maxCheckpoints, RewindOp(d))
    ensures t.saved ==
      if ok then SavedAfter(old(t.leaves), old(t.saved), t.maxCheckpoints, RewindOp(d)) else old(t.saved)
  {
    hide IdAtDepth, MarkedSince, InOrder, UpTo;
    ghost var before := ContentsOf(t);
    SameSize(t.saved);
    assert t.saved.Keys == t.checkpoints.Keys;
    if IdAtDepth(t.checkpoints.Keys, d).Some? {
      SavedIs(t.leaves, t.saved, t.checkpoints, IdAtDepth(t.checkpoints.Keys, d).value);
    }
    ok := t.Rewind(d);
    if ok {
      ghost var id := IdAtDepth(before.checkpoints.Keys, d).value;
      assert t.marks == set p | p in before.marks && !MarkedSince(before.checkpoints, id, p);
    }
  }

  // ---------- What a reference tree answers ----------

  /** The root of a reference tree, as of a checkpoint depth or of the present. */
  ghost function RootIn<H>(hs: Hashable<H>, depth: nat, r: RefTree<H>, rootDepth: Option<nat>): Option<H>
  {
    if rootDepth.None? then Some(Root(hs, r.leaves, depth, 0))
    else
      var id := IdAtDepth(r.checkpoints.Keys, rootDepth.value);
      if id.None? then None
      else Some(Root(hs, Take(r.leaves, r.checkpoints[id.value].leavesLen), depth, 0))
  }

  /** The witness of a leaf among the given marks, as of a checkpoint depth. */
  ghost function WitnessIn<H>(hs: Hashable<H>, depth: nat, r: RefTree<H>, marks: set<nat>, position: nat,
                              witnessDepth: nat): Option<seq<H>>
  {
    var id := IdAtDepth(r.checkpoints.Keys, witnessDepth);
    if id.None? then None
    else
      var n := r.checkpoints[id.value].leavesLen;
      if position in marks && position < n then Some(RefPath(hs, Take(r.leaves, n), position, depth)) else None
  }

  /** The leaves a checkpoint stands for, read off the reference tree. */
  lemma SnapshotIs<H>(complete: CompleteTree<H>, checkpointDepth: nat)
    requires complete.Valid()
    ensures var id := IdAtDepth(complete.checkpoints.Keys, checkpointDepth);
            && id == IdAtDepth(complete.saved.Keys, checkpointDepth)
            && (id.Some? ==>
                  && id.value in complete.saved
                  && complete.checkpoints[id.value].leavesLen == |complete.saved[id.value]|
                  && Take(complete.leaves, complete.checkpoints[id.value].leavesLen) == complete.saved[id.value])
  {
    var id := IdAtDepth(complete.checkpoints.Keys, checkpointDepth);
    if id.Some? { SavedIs(complete.leaves, complete.saved, complete.checkpoints, id.value); }
  }
}
