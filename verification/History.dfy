/** The simple thing a `BridgeTree` has to agree with: the complete leaf sequence, the marked
    positions, and for each checkpoint how many leaves there were and what changed since. */
module Histories {

  import opened Basics
  import opened Merkle

  datatype Point = Point(id: int, size: nat, marked: set<nat>, forgotten: set<nat>)

  datatype History<H> = History(leaves: seq<H>, marks: set<nat>, points: seq<Point>)
  {
    predicate Full(depth: nat) { |leaves| >= Pow2(depth) }

    function Append(depth: nat, value: H): History<H>
    {
      if Full(depth) then this else this.(leaves := leaves + [value])
    }

    /** Marks the latest leaf, and remembers in the latest checkpoint that this was new. */
    function Mark(): History<H>
    {
      if leaves == [] || |leaves| - 1 in marks then this
      else
        var pos := |leaves| - 1;
        History(leaves, marks + {pos}, MarkLast(points, pos))
    }

    /** With a checkpoint present, a mark is only forgotten once that checkpoint is dropped. */
    function RemoveMark(pos: nat): History<H>
    {
      if pos !in marks then this
      else if points == [] then this.(marks := marks - {pos})
      else this.(points := ForgetLast(points, pos))
    }

    predicate Accepts(id: int) { points == [] || points[|points| - 1].id < id }

    function Checkpoint(id: int, maxCheckpoints: nat): History<H>
    {
      if !Accepts(id) then this
      else
        var added := points + [Point(id, |leaves|, {}, {})];
        if |added| > maxCheckpoints then History(leaves, marks - added[0].forgotten, added[1..])
        else this.(points := added)
    }

    function Rewind(): History<H>
    {
      if points == [] then this
      else
        var last := points[|points| - 1];
        History(Take(leaves, last.size), marks - last.marked, points[..|points| - 1])
    }

    /** Number of leaves at a checkpoint depth: depth 0 is the present, depth 1 the latest checkpoint. */
    function SizeAt(checkpointDepth: nat): Option<nat>
    {
      if checkpointDepth == 0 then Some(|leaves|)
      else if checkpointDepth <= |points| then Some(points[|points| - checkpointDepth].size)
      else None
    }

    /** The history after so many rewinds. */
    function Back(times: nat): History<H>
      decreases times
    {
      if times == 0 then this else Rewind().Back(times - 1)
    }

    /** What a witness needs: after going back to the checkpoint the leaf is there, and still marked. */
    predicate CanWitness(pos: nat, checkpointDepth: nat)
    {
      && checkpointDepth <= |points|
      && pos in Back(checkpointDepth).marks && pos < |Back(checkpointDepth).leaves|
    }

    /** Whether a position was marked after the checkpoint with the given index was taken. */
    ghost predicate RecordedSince(k: nat, pos: nat)
    {
      exists j :: k <= j < |points| && pos in points[j].marked
    }

    /** What every operation keeps: checkpoints never shrink, a checkpoint records only marks of its own last
        leaf or of later ones, and a mark of a leaf from after a checkpoint was recorded since. */
    ghost predicate Orderly()
    {
      && (forall j, k | 0 <= j <= k < |points| :: points[j].size <= points[k].size)
      && (forall k | 0 <= k < |points| :: points[k].size <= |leaves|)
      && (forall pos | pos in marks :: pos < |leaves|)
      && LateMarks(points)
      && (forall k: nat, pos | k < |points| && pos in marks && points[k].size <= pos :: RecordedSince(k, pos))
    }
  }

  ghost predicate LateMarks(points: seq<Point>)
  {
    forall k, pos | 0 <= k < |points| && pos in points[k].marked :: points[k].size <= pos + 1
  }

  function MarkLast(points: seq<Point>, pos: nat): (r: seq<Point>)
    ensures |r| == |points|
  {
    var last := |points| - 1;
    if points == [] then [] else points[last := points[last].(marked := points[last].marked + {pos})]
  }

  function ForgetLast(points: seq<Point>, pos: nat): (r: seq<Point>)
    ensures |r| == |points|
  {
    var last := |points| - 1;
    if points == [] then [] else points[last := points[last].(forgotten := points[last].forgotten + {pos})]
  }

  // ---------- What rewinding undoes ----------

  datatype Op<H> = AppendOp(value: H) | MarkOp | RemoveMarkOp(pos: nat)

  function Apply<H>(h: History<H>, depth: nat, op: Op<H>): History<H>
  {
    match op
    case AppendOp(value) => h.Append(depth, value)
    case MarkOp => h.Mark()
    case RemoveMarkOp(pos) => h.RemoveMark(pos)
  }

  function Run<H>(h: History<H>, depth: nat, ops: seq<Op<H>>): History<H>
    decreases |ops|
  {
    if ops == [] then h else Run(Apply(h, depth, ops[0]), depth, ops[1..])
  }

  /** `h` grew out of `base` since the latest checkpoint. */
  ghost predicate Since<H>(base: History<H>, h: History<H>)
  {
    && h.points != []
    && h.points[..|h.points| - 1] == base.points
    && h.points[|h.points| - 1].size == |base.leaves|
    && base.leaves <= h.leaves
    && h.marks == base.marks + h.points[|h.points| - 1].marked
    && h.points[|h.points| - 1].marked !! base.marks
  }

  lemma {:induction false} RunSince<H>(base: History<H>, h: History<H>, depth: nat, ops: seq<Op<H>>)
    requires Since(base, h)
    ensures Since(base, Run(h, depth, ops))
    decreases |ops|
  {
    if ops != [] { RunSince(base, Apply(h, depth, ops[0]), depth, ops[1..]); }
  }

  /** Whatever is appended, marked or unmarked after a checkpoint, rewinding restores the state at that
      checkpoint: leaves, marks and earlier checkpoints. If the oldest one had to make room, it stays gone, and
      with it the marks removed as of it. */
  lemma RewindUndoes<H>(base: History<H>, depth: nat, maxCheckpoints: nat, id: int, ops: seq<Op<H>>)
    requires base.Accepts(id) && |base.points| <= maxCheckpoints && maxCheckpoints > 0
    ensures Run(base.Checkpoint(id, maxCheckpoints), depth, ops).Rewind() ==
      if |base.points| < maxCheckpoints then base
        else History(base.leaves, base.marks - base.points[0].forgotten, base.points[1..])
  {
    var h := base.Checkpoint(id, maxCheckpoints);
    var rest := if |base.points| < maxCheckpoints then base
                else History(base.leaves, base.marks - base.points[0].forgotten, base.points[1..]);
    RunSince(rest, h, depth, ops);
    var r := Run(h, depth, ops);
    assert r.leaves[..|rest.leaves|] == rest.leaves;
    assert r.marks - r.points[|r.points| - 1].marked == rest.marks;
  }

  // ---------- What every operation keeps ----------

  lemma OrderlyAppend<H>(h: History<H>, depth: nat, value: H)
    requires h.Orderly()
    ensures h.Append(depth, value).Orderly()
  {
    var after := h.Append(depth, value);
    forall k: nat, pos | k < |after.points| && pos in after.marks && after.points[k].size <= pos
      ensures after.RecordedSince(k, pos)
    {
      assert h.RecordedSince(k, pos);
    }
  }

  /** Adding to the marks that the latest checkpoint recorded loses no record. */
  lemma RecordedStill<H>(h: History<H>, points: seq<Point>, k: nat, pos: nat)
    requires |points| == |h.points| && h.RecordedSince(k, pos)
    requires forall j | 0 <= j < |points| :: h.points[j].marked <= points[j].marked
    ensures History(h.leaves, h.marks, points).RecordedSince(k, pos)
  {
    var j :| k <= j < |h.points| && pos in h.points[j].marked;
    assert pos in points[j].marked;
  }

  lemma OrderlyMark<H>(h: History<H>)
    requires h.Orderly()
    ensures h.Mark().Orderly()
  {
    var after := h.Mark();
    if after != h {
      var points := MarkLast(h.points, |h.leaves| - 1);
      forall k: nat, pos | k < |points| && pos in after.marks && points[k].size <= pos
        ensures after.RecordedSince(k, pos)
      {
        if pos == |h.leaves| - 1 {
          assert pos in points[|points| - 1].marked;
        } else {
          RecordedStill(h, points, k, pos);
        }
      }
    }
  }

  lemma OrderlyRemoveMark<H>(h: History<H>, pos: nat)
    requires h.Orderly()
    ensures h.RemoveMark(pos).Orderly()
  {
    var after := h.RemoveMark(pos);
    forall k: nat, p | k < |after.points| && p in after.marks && after.points[k].size <= p
      ensures after.RecordedSince(k, p)
    {
      RecordedStill(h, after.points, k, p);
    }
  }

  lemma OrderlyWithPoint<H>(h: History<H>, id: int)
    requires h.Orderly()
    ensures History(h.leaves, h.marks, h.points + [Point(id, |h.leaves|, {}, {})]).Orderly()
  {
    var after := History(h.leaves, h.marks, h.points + [Point(id, |h.leaves|, {}, {})]);
    forall k: nat, pos | k < |after.points| && pos in after.marks && after.points[k].size <= pos
      ensures after.RecordedSince(k, pos)
    {
      assert h.RecordedSince(k, pos);
      var j :| k <= j < |h.points| && pos in h.points[j].marked;
      assert pos in after.points[j].marked;
    }
  }

  lemma OrderlyWithoutFirst<H>(h: History<H>)
    requires h.Orderly() && h.points != []
    ensures History(h.leaves, h.marks - h.points[0].forgotten, h.points[1..]).Orderly()
  {
    var after := History(h.leaves, h.marks - h.points[0].forgotten, h.points[1..]);
    forall k: nat, pos | k < |after.points| && pos in after.marks && after.points[k].size <= pos
      ensures after.RecordedSince(k, pos)
    {
      assert h.RecordedSince(k + 1, pos);
      var j :| k + 1 <= j < |h.points| && pos in h.points[j].marked;
      assert pos in after.points[j - 1].marked;
    }
  }

  lemma OrderlyCheckpoint<H>(h: History<H>, id: int, max: nat)
    requires h.Orderly()
    ensures h.Checkpoint(id, max).Orderly()
  {
    if h.Accepts(id) {
      OrderlyWithPoint(h, id);
      OrderlyWithoutFirst(History(h.leaves, h.marks, h.points + [Point(id, |h.leaves|, {}, {})]));
    }
  }

  lemma OrderlyRewind<H>(h: History<H>)
    requires h.Orderly()
    ensures h.Rewind().Orderly()
  {
    if h.points != [] {
      var n := |h.points| - 1;
      var after := h.Rewind();
      forall k: nat, pos | k <= n && pos in after.marks && h.points[k].size <= pos
        ensures k < n && after.RecordedSince(k, pos)
      {
        assert h.RecordedSince(k, pos);
        var j :| k <= j < |h.points| && pos in h.points[j].marked;
        assert j < n && pos in after.points[j].marked;
      }
    }
  }

  /** Going back takes exactly the marks recorded since, and the leaves appended since. */
  lemma {:induction false} BackIs<H>(h: History<H>, times: nat, pos: nat)
    requires h.Orderly() && times <= |h.points|
    ensures pos in h.Back(times).marks <==> pos in h.marks && !h.RecordedSince(|h.points| - times, pos)
    ensures Some(|h.Back(times).leaves|) == h.SizeAt(times)
    decreases times
  {
    if times > 0 {
      var n, back := |h.points| - 1, h.Rewind();
      OrderlyRewind(h);
      BackIs(back, times - 1, pos);
      RecordedBefore(h, n - (times - 1), pos);
    }
  }

  lemma RecordedBefore<H>(h: History<H>, k: nat, pos: nat)
    requires h.points != [] && k < |h.points|
    ensures h.RecordedSince(k, pos) <==> pos in h.points[|h.points| - 1].marked || h.Rewind().RecordedSince(k, pos)
  {
    var n, back := |h.points| - 1, h.Rewind();
    if h.RecordedSince(k, pos) {
      var j :| k <= j < |h.points| && pos in h.points[j].marked;
      if j < n { assert pos in back.points[j].marked; }
    }
    if back.RecordedSince(k, pos) {
      var j :| k <= j < |back.points| && pos in back.points[j].marked;
      assert pos in h.points[j].marked;
    }
  }

  /** In an orderly history, the leaves with a witness at a checkpoint are the marked ones from before it whose
      mark was not recorded since. */
  lemma CanWitnessIff<H>(h: History<H>, pos: nat, checkpointDepth: nat)
    requires h.Orderly()
    ensures h.CanWitness(pos, checkpointDepth) <==>
      && checkpointDepth <= |h.points| && pos in h.marks && pos < h.SizeAt(checkpointDepth).value
      && !h.RecordedSince(|h.points| - checkpointDepth, pos)
  {
    if checkpointDepth <= |h.points| { BackIs(h, checkpointDepth, pos); }
  }
}
