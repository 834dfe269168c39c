/** The bridge tree against the reference tree: the plain history that a bridge tree stands for and the plain value
    that the reference tree stands for agree over runs of the operations both have. The bridge tree's `rewind` removes
    the checkpoint it goes back to, the reference tree's keeps it; so going back to a checkpoint depth is that many
    rewinds and one more, and a checkpoint with the same identifier. */
module BridgeAgreements {

  import opened Basics
  import opened Merkle
  import opened Histories
  import opened BridgeTrees
  import opened PrunableTrees
  import opened Stores
  import opened ShardTrees
  import opened CompleteTrees
  import opened SharedMarks
  import opened ReferenceRuns

  // ---------- Checkpoints in a row and by identifier ----------

  ghost predicate Increasing(points: seq<Point>)
  {
    forall i, j | 0 <= i < j < |points| :: points[i].id < points[j].id
  }

  function AsReference(p: Point): CompleteCheckpoint
  {
    CompleteCheckpoint(p.size, p.marked, p.forgotten)
  }

  ghost function RefOf(points: seq<Point>): References
  {
    if points == [] then map[]
    else
      var last := points[|points| - 1];
      RefOf(points[..|points| - 1])[last.id := AsReference(last)]
  }

  ghost predicate HasPoint(points: seq<Point>, id: int)
  {
    exists i :: 0 <= i < |points| && points[i].id == id
  }

  lemma {:induction false} RefOfKeys(points: seq<Point>, id: int)
    ensures id in RefOf(points) <==> HasPoint(points, id)
  {
    if points != [] {
      var n := |points| - 1;
      RefOfKeys(points[..n], id);
      if HasPoint(points[..n], id) {
        var i :| 0 <= i < n && points[..n][i].id == id;
        assert points[i].id == id;
      }
      if HasPoint(points, id) && points[n].id != id {
        var i :| 0 <= i < |points| && points[i].id == id;
        assert points[..n][i].id == id;
      }
    }
  }

  lemma {:induction false} RefOfAt(points: seq<Point>, i: nat)
    requires Increasing(points) && i < |points|
    ensures points[i].id in RefOf(points) && RefOf(points)[points[i].id] == AsReference(points[i])
  {
    var n := |points| - 1;
    if i < n { RefOfAt(points[..n], i); }
  }

  /** The map is determined by what it holds. */
  lemma RefOfOnly(points: seq<Point>, m: References)
    requires Increasing(points)
    requires forall id :: id in m <==> HasPoint(points, id)
    requires forall i | 0 <= i < |points| :: points[i].id in m && m[points[i].id] == AsReference(points[i])
    ensures m == RefOf(points)
  {
    forall id ensures id in m <==> id in RefOf(points) { RefOfKeys(points, id); }
    forall id | id in m ensures m[id] == RefOf(points)[id] {
      var i :| 0 <= i < |points| && points[i].id == id;
      RefOfAt(points, i);
    }
  }

  function Ids(points: seq<Point>): (ids: seq<int>)
    ensures |ids| == |points| && forall i | 0 <= i < |ids| :: ids[i] == points[i].id
  {
    seq(|points|, i requires 0 <= i < |points| => points[i].id)
  }

  lemma FirstLeast(s: set<int>, ids: seq<int>)
    requires ids != [] && Ascending(ids) && forall x :: x in ids <==> x in s
    ensures s != {} && Least(s) == ids[0]
  {
    assert ids[0] in ids;
    var k :| 0 <= k < |ids| && ids[k] == Least(s);
  }

  lemma RestOf(s: set<int>, ids: seq<int>, x: int)
    requires ids != [] && Ascending(ids) && forall x :: x in ids <==> x in s
    ensures x in ids[1..] <==> x in s - {ids[0]}
  {
    if x in ids[1..] { var j :| 0 <= j < |ids| - 1 && ids[1..][j] == x; assert ids[j + 1] == x; }
    if x in s - {ids[0]} { var j :| 0 <= j < |ids| && ids[j] == x; assert ids[1..][j - 1] == x; }
  }

  /** A set has one ascending sequence. */
  lemma {:induction false} InOrderOnly(s: set<int>, ids: seq<int>)
    requires Ascending(ids) && forall x :: x in ids <==> x in s
    ensures InOrder(s) == ids
    decreases s
  {
    if ids == [] {
      forall x ensures x !in s { assert x in ids <==> x in s; }
    } else {
      FirstLeast(s, ids);
      forall x ensures x in ids[1..] <==> x in s - {ids[0]} { RestOf(s, ids, x); }
      InOrderOnly(s - {ids[0]}, ids[1..]);
    }
  }

  lemma IdsOf(points: seq<Point>)
    requires Increasing(points)
    ensures InOrder(RefOf(points).Keys) == Ids(points) && |RefOf(points)| == |points|
  {
    forall x ensures x in Ids(points) <==> x in RefOf(points).Keys {
      RefOfKeys(points, x);
      if HasPoint(points, x) {
        var i :| 0 <= i < |points| && points[i].id == x;
        assert Ids(points)[i] == x;
      }
      if x in Ids(points) { var i :| 0 <= i < |points| && Ids(points)[i] == x; }
    }
    InOrderOnly(RefOf(points).Keys, Ids(points));
    SameSize(RefOf(points));
  }

  lemma LastIsGreatest(points: seq<Point>)
    requires Increasing(points) && points != []
    ensures RefOf(points).Keys != {} && Greatest(RefOf(points).Keys) == points[|points| - 1].id
  {
    var n := |points| - 1;
    RefOfAt(points, n);
    forall id | id in RefOf(points).Keys ensures id <= points[n].id {
      RefOfKeys(points, id);
      var i :| 0 <= i < |points| && points[i].id == id;
    }
  }

  lemma FirstIsLeast(points: seq<Point>)
    requires Increasing(points) && points != []
    ensures RefOf(points).Keys != {} && Least(RefOf(points).Keys) == points[0].id
  {
    RefOfAt(points, 0);
    forall id | id in RefOf(points).Keys ensures points[0].id <= id {
      RefOfKeys(points, id);
      var i :| 0 <= i < |points| && points[i].id == id;
    }
  }

  // ---------- The operations ----------

  lemma MarkedLast(points: seq<Point>, pos: nat)
    requires Increasing(points)
    ensures Increasing(MarkLast(points, pos)) && RefOf(MarkLast(points, pos)) == MarkedInLatest(RefOf(points), pos)
  {
    if points != [] {
      var n := |points| - 1;
      LastIsGreatest(points);
      RefOfAt(points, n);
      assert MarkLast(points, pos)[..n] == points[..n];
    }
  }

  lemma ForgottenLast(points: seq<Point>, pos: nat)
    requires Increasing(points)
    ensures Increasing(ForgetLast(points, pos))
      && RefOf(ForgetLast(points, pos)) == ForgottenInLatest(RefOf(points), pos)
  {
    if points != [] {
      var n := |points| - 1;
      LastIsGreatest(points);
      RefOfAt(points, n);
      assert ForgetLast(points, pos)[..n] == points[..n];
    }
  }

  lemma LaterPoints(points: seq<Point>, id: int)
    requires Increasing(points)
    ensures Later(RefOf(points), id) <==> points == [] || points[|points| - 1].id < id
  {
    if points != [] {
      var n := |points| - 1;
      RefOfAt(points, n);
      forall i | i in RefOf(points) ensures i <= points[n].id {
        RefOfKeys(points, i);
        var k :| 0 <= k < |points| && points[k].id == i;
      }
    }
  }

  lemma WithoutFirst(points: seq<Point>)
    requires Increasing(points) && points != []
    ensures RefOf(points) - {points[0].id} == RefOf(points[1..])
  {
    var rest, m := points[1..], RefOf(points) - {points[0].id};
    forall id ensures id in m <==> HasPoint(rest, id) {
      RefOfKeys(points, id);
      if HasPoint(rest, id) {
        var i :| 0 <= i < |rest| && rest[i].id == id;
        assert points[i + 1].id == id;
      }
      if id in m {
        var i :| 0 <= i < |points| && points[i].id == id;
        assert rest[i - 1].id == id;
      }
    }
    forall i | 0 <= i < |rest| ensures rest[i].id in m && m[rest[i].id] == AsReference(rest[i]) {
      RefOfAt(points, i + 1);
    }
    RefOfOnly(rest, m);
  }

  /** What ties a bridge tree's history to a reference tree. */
  ghost predicate Mirrored<H>(h: History<H>, max: nat)
  {
    && h.Orderly() && Increasing(h.points) && |h.points| <= max
    && forall k, pos | 0 <= k < |h.points| && pos in h.points[k].marked :: h.points[k].size <= pos
  }

  ghost function ViewOf<H>(h: History<H>): RefTree<H>
  {
    RefTree(h.leaves, h.marks, RefOf(h.points))
  }

  lemma Added(points: seq<Point>, id: int, size: nat)
    requires Increasing(points) && (points == [] || points[|points| - 1].id < id)
    ensures var added, all := points + [Point(id, size, {}, {})], RefOf(points)[id := CompleteCheckpoint(size, {}, {})];
            Increasing(added) && RefOf(added) == all
  {
    hide RefOf;
    var added := points + [Point(id, size, {}, {})];
    RefOfMore(points, Point(id, size, {}, {}));
    assert added[..|added| - 1] == points;
  }

  lemma RefOfMore(points: seq<Point>, p: Point)
    ensures RefOf(points + [p]) == RefOf(points)[p.id := AsReference(p)]
  {
    assert (points + [p])[..|points|] == points;
  }

  /** The oldest of one too many goes, with the marks removed as of it. */
  lemma LatestPoints(added: seq<Point>, max: nat)
    requires Increasing(added) && |added| <= max + 1 && max > 0
    ensures Latest(RefOf(added), max) == RefOf(if |added| > max then added[1..] else added)
    ensures DroppedMarks(RefOf(added), max) == if |added| > max then added[0].forgotten else {}
  {
    var all := RefOf(added);
    IdsOf(added);
    OneTooMany(all, max);
    OldestGoes(all, max);
    if |added| > max {
      FirstIsLeast(added);
      RefOfAt(added, 0);
      WithoutFirst(added);
    }
  }

  lemma CheckpointMirrors<H>(h: History<H>, max: nat, id: int)
    requires Mirrored(h, max) && max > 0
    ensures h.Accepts(id) <==> Later(RefOf(h.points), id)
    ensures Mirrored(h.Checkpoint(id, max), max)
    ensures h.Accepts(id) ==> ViewOf(h.Checkpoint(id, max)) == Checkpointed(ViewOf(h), max, id)
  {
    hide RefOf, Latest, DroppedMarks, Later;
    LaterPoints(h.points, id);
    OrderlyCheckpoint(h, id, max);
    if h.Accepts(id) {
      Added(h.points, id, |h.leaves|);
      LatestPoints(h.points + [Point(id, |h.leaves|, {}, {})], max);
    }
  }

  /** Whether the history accepts an operation of the reference tree. */
  ghost predicate HistoryTakes<H>(h: History<H>, depth: nat, op: TreeOp<H>)
  {
    match op
    case AppendOp(_, _) => !h.Full(depth)
    case CheckpointOp(id) => h.Accepts(id)
    case RewindOp(d) => d < |h.points|
    case RemoveMarkOp(position) => position in h.marks
  }

  /** What the calls for an operation of the reference tree make of a bridge tree: after an append its leaf is marked
      and the checkpoint added, if asked to; going back is so many rewinds and one more, and the checkpoint again. */
  ghost function HistoryAfter<H>(h: History<H>, depth: nat, max: nat, op: TreeOp<H>): History<H>
  {
    if !HistoryTakes(h, depth, op) then h
    else
      match op
      case AppendOp(value, retention) =>
        var grown := GrownHistory(h, depth, value, retention);
        if retention.CheckpointAt? then grown.Checkpoint(retention.id, max) else grown
      case CheckpointOp(id) => h.Checkpoint(id, max)
      case RewindOp(d) => h.Back(d + 1).Checkpoint(h.points[|h.points| - 1 - d].id, max)
      case RemoveMarkOp(position) => h.RemoveMark(position)
  }

  ghost function GrownHistory<H>(h: History<H>, depth: nat, value: H, retention: Retention): History<H>
  {
    if MarksLeaf(retention) then h.Append(depth, value).Mark() else h.Append(depth, value)
  }

  lemma GrownMirrors<H>(h: History<H>, depth: nat, max: nat, value: H, retention: Retention)
    requires Mirrored(h, max) && !h.Full(depth)
    ensures Mirrored(GrownHistory(h, depth, value, retention), max)
    ensures ViewOf(GrownHistory(h, depth, value, retention)) == Grown(ViewOf(h), value, retention)
    ensures GrownHistory(h, depth, value, retention).points == [] <==> h.points == []
    ensures h.points != [] ==>
      GrownHistory(h, depth, value, retention).points[|h.points| - 1].id == h.points[|h.points| - 1].id
  {
    hide RefOf, MarkedInLatest;
    var grown := h.Append(depth, value);
    OrderlyAppend(h, depth, value);
    OrderlyMark(grown);
    assert |h.leaves| !in h.marks;
    MarkedLast(h.points, |h.leaves|);
  }

  lemma {:induction false} BackPoints<H>(h: History<H>, times: nat)
    requires h.Orderly() && times <= |h.points|
    ensures h.Back(times).points == h.points[..|h.points| - times]
    ensures h.Back(times).leaves == Take(h.leaves, h.SizeAt(times).value)
    ensures h.Back(times).Orderly()
    decreases times
  {
    if times > 0 {
      OrderlyRewind(h);
      BackPoints(h.Rewind(), times - 1);
    }
  }

  lemma SinceIs<H>(h: History<H>, k: nat, pos: nat)
    requires Increasing(h.points) && k < |h.points|
    ensures MarkedSince(RefOf(h.points), h.points[k].id, pos) <==> h.RecordedSince(k, pos)
  {
    var refs, id := RefOf(h.points), h.points[k].id;
    if MarkedSince(refs, id, pos) {
      var i :| i in refs && i >= id && pos in refs[i].marked;
      RefOfKeys(h.points, i);
      var j :| 0 <= j < |h.points| && h.points[j].id == i;
      RefOfAt(h.points, j);
      assert k <= j;
    }
    if h.RecordedSince(k, pos) {
      var j :| k <= j < |h.points| && pos in h.points[j].marked;
      RefOfAt(h.points, j);
      assert h.points[j].id in refs && h.points[j].id >= id;
    }
  }

  lemma DepthIs(points: seq<Point>, d: nat)
    requires Increasing(points)
    ensures IdAtDepth(RefOf(points).Keys, d) == if d < |points| then Some(points[|points| - 1 - d].id) else None
  {
    hide InOrder, RefOf, Increasing;
    IdsOf(points);
  }

  lemma UpToKeys(points: seq<Point>, k: nat, id: int)
    requires Increasing(points) && k < |points| && points[k].id in RefOf(points)
    ensures id in KeptUpTo(RefOf(points), points[k].id) <==>
      HasPoint(points[..k] + [Point(points[k].id, points[k].size, {}, {})], id)
  {
    hide RefOf;
    var back := points[..k] + [Point(points[k].id, points[k].size, {}, {})];
    RefOfKeys(points, id);
    if id in KeptUpTo(RefOf(points), points[k].id) {
      var i :| 0 <= i < |points| && points[i].id == id;
      assert i <= k && back[i].id == id;
    }
    if HasPoint(back, id) {
      var i :| 0 <= i < |back| && back[i].id == id;
      assert points[i].id == id;
    }
  }

  /** The checkpoints up to one to go back to. */
  lemma UpToPoint(points: seq<Point>, k: nat)
    requires Increasing(points) && k < |points|
    ensures var back := points[..k] + [Point(points[k].id, points[k].size, {}, {})];
            && Increasing(back) && points[k].id in RefOf(points)
            && RefOf(back) == KeptUpTo(RefOf(points), points[k].id)
  {
    hide RefOf;
    var back := points[..k] + [Point(points[k].id, points[k].size, {}, {})];
    RefOfAt(points, k);
    var m := KeptUpTo(RefOf(points), points[k].id);
    forall id ensures id in m <==> HasPoint(back, id) { UpToKeys(points, k, id); }
    forall i | 0 <= i < |back| ensures back[i].id in m && m[back[i].id] == AsReference(back[i]) { RefOfAt(points, i); }
    RefOfOnly(back, m);
  }

  /** The history after going back. */
  lemma RewoundHistory<H>(h: History<H>, depth: nat, max: nat, d: nat)
    requires Mirrored(h, max) && d < |h.points|
    ensures var k, back := |h.points| - 1 - d, h.Back(d + 1);
            HistoryAfter(h, depth, max, RewindOp(d)) ==
            History(Take(h.leaves, h.points[k].size), back.marks,
                    h.points[..k] + [Point(h.points[k].id, h.points[k].size, {}, {})])
  {
    BackPoints(h, d + 1);
  }

  lemma RewindKeepsMirrored<H>(h: History<H>, depth: nat, max: nat, d: nat)
    requires Mirrored(h, max) && d < |h.points|
    ensures Mirrored(HistoryAfter(h, depth, max, RewindOp(d)), max)
  {
    hide RefOf, HistoryAfter, Root;
    var k := |h.points| - 1 - d;
    BackPoints(h, d + 1);
    OrderlyCheckpoint(h.Back(d + 1), h.points[k].id, max);
    RewoundHistory(h, depth, max, d);
  }

  lemma RewoundMarks<H>(h: History<H>, max: nat, d: nat)
    requires Mirrored(h, max) && d < |h.points|
    ensures h.Back(d + 1).marks ==
      set p | p in h.marks && !MarkedSince(RefOf(h.points), h.points[|h.points| - 1 - d].id, p)
  {
    hide RefOf, MarkedSince;
    var k := |h.points| - 1 - d;
    forall p ensures p in h.Back(d + 1).marks <==>
        p in h.marks && !MarkedSince(RefOf(h.points), h.points[k].id, p)
    {
      BackIs(h, d + 1, p);
      SinceIs(h, k, p);
    }
  }

  lemma RewindMirrors<H>(h: History<H>, depth: nat, max: nat, d: nat)
    requires Mirrored(h, max) && d < |h.points|
    ensures Mirrored(HistoryAfter(h, depth, max, RewindOp(d)), max)
    ensures ViewOf(HistoryAfter(h, depth, max, RewindOp(d))) == After(ViewOf(h), depth, max, RewindOp(d))
  {
    hide RefOf, KeptUpTo, MarkedSince, IdAtDepth, HistoryAfter;
    var k := |h.points| - 1 - d;
    RewindKeepsMirrored(h, depth, max, d);
    RewoundHistory(h, depth, max, d);
    RewoundMarks(h, max, d);
    DepthIs(h.points, d);
    RefOfAt(h.points, k);
    UpToPoint(h.points, k);
  }

  lemma RemoveMirrors<H>(h: History<H>, depth: nat, max: nat, position: nat)
    requires Mirrored(h, max) && position in h.marks
    ensures Mirrored(h.RemoveMark(position), max)
    ensures ViewOf(h.RemoveMark(position)) == After(ViewOf(h), depth, max, TreeOp.RemoveMarkOp(position))
  {
    OrderlyRemoveMark(h, position);
    ForgottenLast(h.points, position);
    if h.points != [] { RefOfAt(h.points, 0); }
  }

  /** Whether an append that is to be a checkpoint has an identifier for one. */
  ghost predicate InTurn<H>(r: RefTree<H>, depth: nat, op: TreeOp<H>)
  {
    op.AppendOp? && op.retention.CheckpointAt? && |r.leaves| < End(depth, 0) ==> Later(r.checkpoints, op.retention.id)
  }

  /** One operation on both: they agree exactly if its identifier is in turn. Otherwise the reference tree refuses the
      leaf, which the bridge tree has taken when it refuses the checkpoint. */
  lemma StepMirrors<H>(h: History<H>, depth: nat, max: nat, op: TreeOp<H>)
    requires Mirrored(h, max) && max > 0
    ensures Mirrored(HistoryAfter(h, depth, max, op), max)
    ensures ViewOf(HistoryAfter(h, depth, max, op)) == After(ViewOf(h), depth, max, op) <==>
      InTurn(ViewOf(h), depth, op)
    ensures InTurn(ViewOf(h), depth, op) ==> (HistoryTakes(h, depth, op) <==> Accepts(ViewOf(h), depth, op))
  {
    hide Mirrored, RefOf, IdAtDepth, Checkpointed, Later;
    StartIsShift(depth, 1);
    match op
    case AppendOp(value, retention) => AppendMirrors(h, depth, max, value, retention);
    case CheckpointOp(id) => CheckpointMirrors(h, max, id);
    case RewindOp(d) =>
      MirroredDepth(h, max, d);
      if d < |h.points| { RewindMirrors(h, depth, max, d); }
    case RemoveMarkOp(position) => if position in h.marks { RemoveMirrors(h, depth, max, position); }
  }

  lemma MirroredDepth<H>(h: History<H>, max: nat, d: nat)
    requires Mirrored(h, max)
    ensures IdAtDepth(RefOf(h.points).Keys, d).Some? <==> d < |h.points|
  {
    DepthIs(h.points, d);
  }

  lemma AppendMirrors<H>(h: History<H>, depth: nat, max: nat, value: H, retention: Retention)
    requires Mirrored(h, max) && max > 0
    ensures var op := TreeOp.AppendOp(value, retention);
            && Mirrored(HistoryAfter(h, depth, max, op), max)
            && (ViewOf(HistoryAfter(h, depth, max, op)) == After(ViewOf(h), depth, max, op) <==>
                  InTurn(ViewOf(h), depth, op))
            && (InTurn(ViewOf(h), depth, op) ==> (!h.Full(depth) <==> Accepts(ViewOf(h), depth, op)))
  {
    hide RefOf, Checkpointed;
    StartIsShift(depth, 1);
    if !h.Full(depth) {
      var grown := GrownHistory(h, depth, value, retention);
      GrownMirrors(h, depth, max, value, retention);
      if retention.CheckpointAt? {
        CheckpointMirrors(grown, max, retention.id);
        LaterPoints(h.points, retention.id);
        assert |HistoryAfter(h, depth, max, TreeOp.AppendOp(value, retention)).leaves| == |h.leaves| + 1;
      }
    }
  }

  // ---------- Runs ----------

  ghost function HistoryOf<H>(h: History<H>, depth: nat, max: nat, ops: seq<TreeOp<H>>): History<H>
  {
    if ops == [] then h
    else HistoryAfter(HistoryOf(h, depth, max, ops[..|ops| - 1]), depth, max, ops[|ops| - 1])
  }

  lemma OneMoreInHistory<H>(h: History<H>, depth: nat, max: nat, ops: seq<TreeOp<H>>, i: nat)
    requires i < |ops|
    ensures HistoryOf(h, depth, max, ops[..i + 1]) ==
      HistoryAfter(HistoryOf(h, depth, max, ops[..i]), depth, max, ops[i])
  {
    assert ops[..i + 1][..i] == ops[..i];
  }

  /** Throughout the run, every append that is to be a checkpoint has an identifier for one. */
  ghost predicate InTurnRun<H>(r: RefTree<H>, depth: nat, max: nat, ops: seq<TreeOp<H>>)
  {
    ops == [] ||
    (InTurnRun(r, depth, max, ops[..|ops| - 1])
     && InTurn(RunOf(r, depth, max, ops[..|ops| - 1]), depth, ops[|ops| - 1]))
  }

  ghost predicate EqualAt<H>(h: History<H>, r: RefTree<H>, depth: nat, max: nat, ops: seq<TreeOp<H>>, i: nat)
    requires i <= |ops|
  {
    ViewOf(HistoryOf(h, depth, max, ops[..i])) == RunOf(r, depth, max, ops[..i])
  }

  /** The same leaves, marks and checkpoints in both trees after every operation of a run. */
  ghost predicate EqualThroughout<H>(h: History<H>, r: RefTree<H>, depth: nat, max: nat, ops: seq<TreeOp<H>>)
  {
    forall i | 0 <= i <= |ops| :: EqualAt(h, r, depth, max, ops, i)
  }

  lemma EqualOnce<H>(h: History<H>, r: RefTree<H>, depth: nat, max: nat, ops: seq<TreeOp<H>>)
    requires ops != []
    ensures EqualThroughout(h, r, depth, max, ops) <==>
      && EqualThroughout(h, r, depth, max, ops[..|ops| - 1])
      && ViewOf(HistoryOf(h, depth, max, ops)) == RunOf(r, depth, max, ops)
  {
    hide HistoryOf, RunOf, ViewOf;
    var k := |ops| - 1;
    assert ops[..k + 1] == ops;
    forall i: nat | i <= k ensures EqualAt(h, r, depth, max, ops, i) <==> EqualAt(h, r, depth, max, ops[..k], i) {
      assert ops[..k][..i] == ops[..i];
    }
    if EqualThroughout(h, r, depth, max, ops) { assert EqualAt(h, r, depth, max, ops, k + 1); }
  }

  /** Over whole runs: both trees have the same leaves, marks and checkpoints after every operation exactly if every
      identifier appended with is in turn. */
  lemma {:induction false} InTurnIff<H>(h: History<H>, depth: nat, max: nat, ops: seq<TreeOp<H>>)
    requires Mirrored(h, max) && max > 0
    ensures InTurnRun(ViewOf(h), depth, max, ops) <==> EqualThroughout(h, ViewOf(h), depth, max, ops)
    ensures Mirrored(HistoryOf(h, depth, max, ops), max)
    ensures InTurnRun(ViewOf(h), depth, max, ops) ==>
      ViewOf(HistoryOf(h, depth, max, ops)) == RunOf(ViewOf(h), depth, max, ops)
  {
    hide Mirrored, After, HistoryAfter, InTurn, ViewOf, EqualThroughout;
    if ops == [] {
      StartsEqual(h, ViewOf(h), depth, max, ops);
    } else {
      var before := ops[..|ops| - 1];
      InTurnIff(h, depth, max, before);
      EqualOnce(h, ViewOf(h), depth, max, ops);
      StepMirrors(HistoryOf(h, depth, max, before), depth, max, ops[|ops| - 1]);
    }
  }

  lemma StartsEqual<H>(h: History<H>, r: RefTree<H>, depth: nat, max: nat, ops: seq<TreeOp<H>>)
    requires ops == [] && ViewOf(h) == r
    ensures EqualThroughout(h, r, depth, max, ops)
  {
    assert ops[..0] == ops;
  }

  // ---------- Side by side ----------

  /** The calls on the bridge tree for one operation. */
  method PerformBridge<H>(t: BridgeTree<H>, op: TreeOp<H>) returns (ok: bool)
    requires t.Valid()
    modifies t
    ensures t.Valid()
    ensures ok <==> HistoryTakes(old(t.Abs()), t.depth, op)
    ensures t.Abs() == HistoryAfter(old(t.Abs()), t.depth, t.maxCheckpoints, op)
  {
    match op
    case AppendOp(value, retention) =>
      ok := t.Append(value);
      if ok {
        if MarksLeaf(retention) { var _ := t.Mark(); }
        if retention.CheckpointAt? { var _ := t.AddCheckpoint(retention.id); }
      }
    case CheckpointOp(id) => ok := t.AddCheckpoint(id);
    case RewindOp(d) => ok := GoBackTo(t, d);
    case RemoveMarkOp(position) => ok := t.RemoveMark(position);
  }

  /** Going back to the checkpoint at a depth: as many rewinds and one more, and the checkpoint again. */
  method GoBackTo<H>(t: BridgeTree<H>, d: nat) returns (ok: bool)
    requires t.Valid()
    modifies t
    ensures t.Valid()
    ensures ok <==> d < |old(t.Abs()).points|
    ensures t.Abs() == HistoryAfter(old(t.Abs()), t.depth, t.maxCheckpoints, RewindOp(d))
  {
    hide TreeOk, Root, LateMarks, Start, Points;
    ghost var h := t.Abs();
    ok := d < |t.checkpoints|;
    if ok {
      var id := t.checkpoints[|t.checkpoints| - 1 - d].id;
      for i := 0 to d + 1
        invariant t.Valid() && t.Abs().Back(d + 1 - i) == h.Back(d + 1)
      {
        var _ := t.Rewind();
      }
      var _ := t.AddCheckpoint(id);
    }
  }

  /** The answers of the bridge tree and of the reference tree to a run. */
  method RunBridge<H>(t: BridgeTree<H>, complete: CompleteTree<H>, ops: seq<TreeOp<H>>)
    returns (here: seq<bool>, there: seq<bool>)
    requires t.Valid() && complete.Valid() && Mirrored(t.Abs(), t.maxCheckpoints) && t.maxCheckpoints > 0
    requires t.depth == complete.depth && t.maxCheckpoints == complete.maxCheckpoints
    modifies t, complete
    ensures t.Valid() && complete.Valid()
    ensures t.Abs() == HistoryOf(old(t.Abs()), t.depth, t.maxCheckpoints, ops)
    ensures ContentsOf(complete) == RunOf(old(ContentsOf(complete)), t.depth, t.maxCheckpoints, ops)
    ensures |here| == |there| == |ops|
    ensures old(ViewOf(t.Abs()) == ContentsOf(complete)) ==>
      InTurnRun(old(ContentsOf(complete)), t.depth, t.maxCheckpoints, ops) ==>
        here == there && ViewOf(t.Abs()) == ContentsOf(complete)
  {
    hide After, HistoryAfter, Mirrored, ViewOf, Accepts, HistoryTakes, InTurn, TreeOk;
    ghost var h0, r0, depth, max := t.Abs(), ContentsOf(complete), t.depth, t.maxCheckpoints;
    here, there := [], [];
    for i := 0 to |ops|
      invariant t.Valid() && complete.Valid() && Mirrored(t.Abs(), max)
      invariant |here| == |there| == i
      invariant t.Abs() == HistoryOf(h0, depth, max, ops[..i])
      invariant ContentsOf(complete) == RunOf(r0, depth, max, ops[..i])
      invariant ViewOf(h0) == r0 && InTurnRun(r0, depth, max, ops[..i]) ==>
        here == there && ViewOf(t.Abs()) == ContentsOf(complete)
    {
      OneMoreOp(r0, depth, max, ops, i);
      OneMoreInHistory(h0, depth, max, ops, i);
      OneMoreInTurn(r0, depth, max, ops, i);
      StepMirrors(t.Abs(), depth, max, ops[i]);
      var a := PerformBridge(t, ops[i]);
      var b := Perform(complete, ops[i]);
      here, there := here + [a], there + [b];
    }
    assert ops[..|ops|] == ops;
  }

  lemma OneMoreInTurn<H>(r: RefTree<H>, depth: nat, max: nat, ops: seq<TreeOp<H>>, i: nat)
    requires i < |ops|
    ensures InTurnRun(r, depth, max, ops[..i + 1]) <==>
      InTurnRun(r, depth, max, ops[..i]) && InTurn(RunOf(r, depth, max, ops[..i]), depth, ops[i])
  {
    assert ops[..i + 1][..i] == ops[..i];
  }

  /** What a bridge tree answers for a root and a witness, in the reference tree's terms. */
  method AskBridge<H>(t: BridgeTree<H>, rootDepth: Option<nat>, position: nat, witnessDepth: nat)
    returns (root: Option<H>, path: Result<seq<H>, WitnessingError>)
    requires t.Valid() && Mirrored(t.Abs(), t.maxCheckpoints)
    modifies t`currentRoot
    ensures t.Valid() && t.Abs() == old(t.Abs())
    ensures root == RootIn(t.hs, t.depth, ViewOf(t.Abs()), rootDepth)
    ensures GivenHere(path) == WitnessIn(t.hs, t.depth, ViewOf(t.Abs()), t.Abs().marks, position, witnessDepth)
  {
    hide TreeOk, RefOf, Mirrored, IdAtDepth, Root, RefPath, PathRoot, LateMarks, Points;
    ghost var h := t.Abs();
    assert Take(h.leaves, |h.leaves|) == h.leaves;
    if rootDepth.Some? { SizeIs(h, t.maxCheckpoints, rootDepth.value); }
    SizeIs(h, t.maxCheckpoints, witnessDepth);
    WitnessHere(h, t.maxCheckpoints, position, witnessDepth);
    root := t.GetRoot(if rootDepth.None? then 0 else rootDepth.value + 1);
    path := t.Witness(position, witnessDepth + 1);
  }

  function GivenHere<H>(r: Result<seq<H>, WitnessingError>): Option<seq<H>>
  {
    match r case Err(_) => None case Ok(path) => Some(path)
  }

  lemma SizeIs<H>(h: History<H>, max: nat, d: nat)
    requires Mirrored(h, max)
    ensures var id := IdAtDepth(RefOf(h.points).Keys, d);
            && (id.None? <==> h.SizeAt(d + 1).None?)
            && (id.Some? ==>
                id.value in RefOf(h.points) && h.SizeAt(d + 1) == Some(RefOf(h.points)[id.value].leavesLen))
  {
    DepthIs(h.points, d);
    if d < |h.points| { RefOfAt(h.points, |h.points| - 1 - d); }
  }

  /** No mark of a leaf from before a checkpoint was recorded since: marks come with appends. */
  lemma WitnessHere<H>(h: History<H>, max: nat, position: nat, d: nat)
    requires Mirrored(h, max)
    ensures h.CanWitness(position, d + 1) <==>
      d < |h.points| && position in h.marks && position < h.SizeAt(d + 1).value
  {
    CanWitnessIff(h, position, d + 1);
    if d < |h.points| {
      var k := |h.points| - 1 - d;
      if position < h.points[k].size {
        forall j | k <= j < |h.points| ensures position !in h.points[j].marked {
          assert h.points[k].size <= h.points[j].size;
        }
      }
    }
  }

  function NoHistory<H>(): History<H>
  {
    History([], {}, [])
  }

  /** A run with an identifier out of turn: the bridge tree has the leaf, the reference tree does not. */
  lemma OutOfTurnDiffers<H>(value: H)
    ensures var ops := [TreeOp<H>.CheckpointOp(1), TreeOp.AppendOp(value, CheckpointAt(1, Unmarked))];
            && HistoryOf(NoHistory(), 1, 1, ops).leaves == [value]
            && RunOf(EmptyRef(), 1, 1, ops) == RefTree([], {}, map[1 := CompleteCheckpoint(0, {}, {})])
  {
    var first, second := TreeOp<H>.CheckpointOp(1), TreeOp.AppendOp(value, CheckpointAt(1, Unmarked));
    var ops := [first, second];
    var h, r: RefTree<H> := History([], {}, [Point(1, 0, {}, {})]), EmptyRef();
    assert ops[..1] == [first] && [first][..0] == [];
    CheckpointMirrors<H>(NoHistory(), 1, 1);
    assert HistoryOf(NoHistory(), 1, 1, [first]) == h;
    assert RefOf(h.points) == map[1 := CompleteCheckpoint(0, {}, {})] by { assert h.points[..0] == []; }
    assert RunOf(r, 1, 1, [first]) == After(r, 1, 1, first);
  }

  /** Over every run from empty trees in which every identifier appended with is in turn, the bridge tree and the
      reference tree give the same answers, roots and witnesses; and only then do they have the same leaves, marks and
      checkpoints after every operation. */
  method BridgeRunsAgree<H(==)>(hs: Hashable<H>, depth: nat, max: nat, ops: seq<TreeOp<H>>,
                                rootDepth: Option<nat>, position: nat, witnessDepth: nat)
    returns (here: seq<bool>, there: seq<bool>, roots: (Option<H>, Option<H>),
             witnesses: (Result<seq<H>, WitnessingError>, Option<seq<H>>))
    requires max > 0
    ensures InTurnRun<H>(EmptyRef(), depth, max, ops) <==> EqualThroughout(NoHistory(), EmptyRef(), depth, max, ops)
    ensures InTurnRun<H>(EmptyRef(), depth, max, ops) ==>
      here == there && roots.0 == roots.1 && GivenHere(witnesses.0) == witnesses.1
  {
    hide RefPath, PathRoot, Root, IdAtDepth, RunOf, HistoryOf, InTurnRun, TreeOk, EqualThroughout, Remembers;
    var t := new BridgeTree(hs, depth, max);
    var complete := new CompleteTree(hs, depth, max);
    InTurnIff<H>(NoHistory(), depth, max, ops);
    here, there := RunBridge(t, complete, ops);
    SnapshotIs(complete, witnessDepth);
    if rootDepth.Some? { SnapshotIs(complete, rootDepth.value); }
    var root, path := AskBridge(t, rootDepth, position, witnessDepth);
    var reference := complete.GetRoot(rootDepth);
    var referencePath := complete.GetWitness(position, witnessDepth);
    roots, witnesses := (root, reference), (path, referencePath);
  }
}
