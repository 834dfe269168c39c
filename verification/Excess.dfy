/** `ShardTree::prune_excess_checkpoints`: which flags are cleared where when the oldest checkpoints go. */
module ExcessCheckpoints {

  import opened Basics
  import opened Merkle
  import opened PrunableTrees
  import opened Pruning
  import opened Stores

  // ---------- What is owed ----------

  /** The flags that a checkpoint keeps alive at a position. */
  function Owes(c: Checkpoint, p: nat): Flags
  {
    Flags(c.treeState == AtPosition(p), p in c.marksRemoved, false)
  }

  predicate AllIn(ids: seq<int>, checkpoints: map<int, Checkpoint>)
  {
    forall i | 0 <= i < |ids| :: ids[i] in checkpoints
  }

  /** The flags that some of the checkpoints keep alive at a position. */
  function OwedBy(checkpoints: map<int, Checkpoint>, ids: seq<int>, p: nat): Flags
    requires AllIn(ids, checkpoints)
  {
    if ids == [] then EPHEMERAL
    else OwedBy(checkpoints, ids[..|ids| - 1], p).Or(Owes(checkpoints[ids[|ids| - 1]], p))
  }

  function RemoveCount(checkpoints: map<int, Checkpoint>, max: nat): nat
  {
    if |checkpoints| > max then |checkpoints| - max else 0
  }

  /** The oldest checkpoints, beyond the number to keep. */
  function Removed(checkpoints: map<int, Checkpoint>, max: nat): (ids: seq<int>)
    ensures AllIn(ids, checkpoints)
  {
    var all := InOrder(checkpoints.Keys);
    assert forall i | 0 <= i < |all| :: all[i] in all && all[i] in checkpoints.Keys;
    assert |checkpoints.Keys| == |checkpoints|;
    all[0..RemoveCount(checkpoints, max)]
  }

  function Kept(checkpoints: map<int, Checkpoint>, max: nat): (ids: seq<int>)
    ensures AllIn(ids, checkpoints)
  {
    var all := InOrder(checkpoints.Keys);
    assert forall i | 0 <= i < |all| :: all[i] in all && all[i] in checkpoints.Keys;
    assert |checkpoints.Keys| == |checkpoints|;
    all[RemoveCount(checkpoints, max)..|all|]
  }

  /** What pruning clears at a position: owed by the removed checkpoints, and not by the retained ones. */
  function Cleared(checkpoints: map<int, Checkpoint>, max: nat, p: nat): Flags
  {
    OwedBy(checkpoints, Removed(checkpoints, max), p).Minus(OwedBy(checkpoints, Kept(checkpoints, max), p))
  }

  lemma {:induction false} OwedIff(checkpoints: map<int, Checkpoint>, ids: seq<int>, p: nat)
    requires AllIn(ids, checkpoints)
    ensures OwedBy(checkpoints, ids, p).checkpoint <==>
      exists i | 0 <= i < |ids| :: checkpoints[ids[i]].treeState == AtPosition(p)
    ensures OwedBy(checkpoints, ids, p).marked <==> exists i | 0 <= i < |ids| :: p in checkpoints[ids[i]].marksRemoved
    ensures !OwedBy(checkpoints, ids, p).reference
  {
    if ids != [] {
      var before := ids[..|ids| - 1];
      OwedIff(checkpoints, before, p);
      assert forall i | 0 <= i < |before| :: before[i] == ids[i];
    }
  }

  // ---------- Collecting the flags to clear ----------

  /** Flags to clear by shard index and position. */
  type Clears = map<nat, map<nat, Flags>>

  ghost predicate Placed(clear: Clears, sh: nat)
  {
    forall i, p | i in clear && p in clear[i] :: Above(sh, p) == i
  }

  function Pending(clear: Clears, sh: nat, p: nat): Flags
  {
    var i := Above(sh, p);
    if i in clear && p in clear[i] then clear[i][p] else EPHEMERAL
  }

  /** The closure `clear_at`: while removing, adds flags to clear; afterwards, takes back those that are
      still needed. */
  function ClearAt(clear: Clears, sh: nat, p: nat, flags: Flags, removing: bool): Clears
  {
    var i := Above(sh, p);
    if removing then
      if i in clear then clear[i := clear[i][p := if p in clear[i] then clear[i][p].Or(flags) else flags]]
      else clear[i := map[p := flags]]
    else if i in clear && p in clear[i] then clear[i := clear[i][p := clear[i][p].Minus(flags)]]
    else clear
  }

  function Update(removing: bool, old_: Flags, flags: Flags): Flags
  {
    if removing then old_.Or(flags) else old_.Minus(flags)
  }

  lemma ClearAtExact(clear: Clears, sh: nat, p: nat, flags: Flags, removing: bool, q: nat)
    requires Placed(clear, sh)
    ensures Placed(ClearAt(clear, sh, p, flags, removing), sh)
    ensures Pending(ClearAt(clear, sh, p, flags, removing), sh, q) ==
      if q == p then Update(removing, Pending(clear, sh, q), flags) else Pending(clear, sh, q)
  {
  }

  /** What a checkpoint owes at a position, counting only some of its removed marks. */
  function OwesPart(c: Checkpoint, marks: seq<int>, p: nat): Flags
  {
    Flags(c.treeState == AtPosition(p), p in marks, false)
  }

  ghost predicate Updated(clear: Clears, r: Clears, sh: nat, c: Checkpoint, marks: seq<int>, removing: bool)
  {
    Placed(r, sh) && forall p :: Pending(r, sh, p) == Update(removing, Pending(clear, sh, p), OwesPart(c, marks, p))
  }

  lemma UpdatedStart(clear: Clears, sh: nat, c: Checkpoint, removing: bool)
    requires Placed(clear, sh)
    ensures Updated(clear, if c.treeState.AtPosition?
                    then ClearAt(clear, sh, c.treeState.position, CHECKPOINT, removing) else clear, sh, c, [], removing)
  {
    if c.treeState.AtPosition? {
      var r := ClearAt(clear, sh, c.treeState.position, CHECKPOINT, removing);
      ClearAtExact(clear, sh, c.treeState.position, CHECKPOINT, removing, 0);
      forall p ensures Pending(r, sh, p) == Update(removing, Pending(clear, sh, p), OwesPart(c, [], p)) {
        ClearAtExact(clear, sh, c.treeState.position, CHECKPOINT, removing, p);
      }
    }
  }

  lemma UpdatedMark(clear: Clears, r: Clears, sh: nat, c: Checkpoint, marks: seq<int>, removing: bool, mark: nat)
    requires Updated(clear, r, sh, c, marks, removing)
    ensures Updated(clear, ClearAt(r, sh, mark, MARKED, removing), sh, c, marks + [mark], removing)
  {
    var next := ClearAt(r, sh, mark, MARKED, removing);
    ClearAtExact(r, sh, mark, MARKED, removing, 0);
    forall p ensures Pending(next, sh, p) == Update(removing, Pending(clear, sh, p), OwesPart(c, marks + [mark], p)) {
      ClearAtExact(r, sh, mark, MARKED, removing, p);
      assert Pending(r, sh, p) == Update(removing, Pending(clear, sh, p), OwesPart(c, marks, p));
    }
  }

  /** One checkpoint has been handled. */
  ghost predicate Handled(clear: Clears, r: Clears, sh: nat, c: Checkpoint, removing: bool)
  {
    Placed(r, sh) && forall p :: Pending(r, sh, p) == Update(removing, Pending(clear, sh, p), Owes(c, p))
  }

  lemma UpdatedAll(clear: Clears, r: Clears, sh: nat, c: Checkpoint, removing: bool)
    requires Updated(clear, r, sh, c, InOrder(c.marksRemoved), removing)
    ensures Handled(clear, r, sh, c, removing)
  {
    var marks := InOrder(c.marksRemoved);
    forall p: nat ensures Pending(r, sh, p) == Update(removing, Pending(clear, sh, p), Owes(c, p)) {
      assert p in marks <==> p in c.marksRemoved;
      assert OwesPart(c, marks, p) == Owes(c, p);
    }
  }

  /** Handles one checkpoint: its leaf, then the marks removed as of it. */
  method CollectOne(clear: Clears, sh: nat, c: Checkpoint, removing: bool) returns (r: Clears)
    requires Placed(clear, sh)
    ensures Handled(clear, r, sh, c, removing)
  {
    r := if c.treeState.AtPosition? then ClearAt(clear, sh, c.treeState.position, CHECKPOINT, removing) else clear;
    UpdatedStart(clear, sh, c, removing);
    var marks := InOrder(c.marksRemoved);
    var j := 0;
    while j < |marks|
      invariant 0 <= j <= |marks| && Updated(clear, r, sh, c, marks[..j], removing)
    {
      assert marks[j] in marks && marks[j] in c.marksRemoved;
      UpdatedMark(clear, r, sh, c, marks[..j], removing, marks[j]);
      assert marks[..j + 1] == marks[..j] + [marks[j]];
      r := ClearAt(r, sh, marks[j], MARKED, removing);
      j := j + 1;
    }
    assert marks[..j] == marks;
    UpdatedAll(clear, r, sh, c, removing);
  }

  lemma OwedByOneMore(checkpoints: map<int, Checkpoint>, ids: seq<int>, lo: nat, hi: nat, p: nat)
    requires AllIn(ids, checkpoints) && lo <= hi < |ids|
    ensures OwedBy(checkpoints, ids[lo..hi + 1], p) ==
      OwedBy(checkpoints, ids[lo..hi], p).Or(Owes(checkpoints[ids[hi]], p))
  {
    assert ids[lo..hi + 1][..hi - lo] == ids[lo..hi];
  }

  /** What is pending after the first `k` checkpoints, `count` of which are being removed. */
  function PendingAfter(checkpoints: map<int, Checkpoint>, ids: seq<int>, count: nat, k: nat, p: nat): Flags
    requires AllIn(ids, checkpoints) && count <= |ids| && k <= |ids|
  {
    if k <= count then OwedBy(checkpoints, ids[0..k], p)
    else OwedBy(checkpoints, ids[0..count], p).Minus(OwedBy(checkpoints, ids[count..k], p))
  }

  lemma PendingNext(checkpoints: map<int, Checkpoint>, ids: seq<int>, count: nat, k: nat, p: nat)
    requires AllIn(ids, checkpoints) && count <= |ids| && k < |ids|
    ensures PendingAfter(checkpoints, ids, count, k + 1, p) ==
      Update(k < count, PendingAfter(checkpoints, ids, count, k, p), Owes(checkpoints[ids[k]], p))
  {
    if k < count { OwedByOneMore(checkpoints, ids, 0, k, p); }
    else { OwedByOneMore(checkpoints, ids, count, k, p); assert ids[count..count] == []; }
  }

  /** The state of the loop after `k` checkpoints. */
  ghost predicate Collected(clear: Clears, sh: nat, checkpoints: map<int, Checkpoint>, ids: seq<int>,
                            count: nat, k: nat)
    requires AllIn(ids, checkpoints) && count <= |ids| && k <= |ids|
  {
    Placed(clear, sh) && forall p :: Pending(clear, sh, p) == PendingAfter(checkpoints, ids, count, k, p)
  }

  lemma CollectedNext(clear: Clears, next: Clears, sh: nat, checkpoints: map<int, Checkpoint>, ids: seq<int>,
                      count: nat, k: nat)
    requires AllIn(ids, checkpoints) && count <= |ids| && k < |ids| && Collected(clear, sh, checkpoints, ids, count, k)
    requires Handled(clear, next, sh, checkpoints[ids[k]], k < count)
    ensures Collected(next, sh, checkpoints, ids, count, k + 1)
  {
    forall p ensures Pending(next, sh, p) == PendingAfter(checkpoints, ids, count, k + 1, p) {
      PendingNext(checkpoints, ids, count, k, p);
    }
  }

  lemma IdsInOrder(checkpoints: map<int, Checkpoint>, max: nat)
    ensures AllIn(InOrder(checkpoints.Keys), checkpoints)
    ensures |InOrder(checkpoints.Keys)| == |checkpoints| && RemoveCount(checkpoints, max) <= |checkpoints|
  {
    var ids := InOrder(checkpoints.Keys);
    assert forall i | 0 <= i < |ids| :: ids[i] in ids && ids[i] in checkpoints.Keys;
    assert |checkpoints.Keys| == |checkpoints|;
  }

  lemma CollectedAll(clear: Clears, sh: nat, checkpoints: map<int, Checkpoint>, max: nat)
    requires AllIn(InOrder(checkpoints.Keys), checkpoints)
      && RemoveCount(checkpoints, max) <= |InOrder(checkpoints.Keys)|
    requires Collected(clear, sh, checkpoints, InOrder(checkpoints.Keys), RemoveCount(checkpoints, max),
                       |InOrder(checkpoints.Keys)|)
    ensures Placed(clear, sh) && forall p :: Pending(clear, sh, p) == Cleared(checkpoints, max, p)
  {
    if RemoveCount(checkpoints, max) == |InOrder(checkpoints.Keys)| { assert Kept(checkpoints, max) == []; }
  }

  /** The loop over the checkpoints, the first `count` of which are being removed. */
  method CollectOver(checkpoints: map<int, Checkpoint>, ids: seq<int>, count: nat, sh: nat) returns (clear: Clears)
    requires AllIn(ids, checkpoints) && count <= |ids|
    ensures Collected(clear, sh, checkpoints, ids, count, |ids|)
  {
    clear := map[];
    var k := 0;
    while k < |ids|
      invariant 0 <= k <= |ids| && Collected(clear, sh, checkpoints, ids, count, k)
    {
      var next := CollectOne(clear, sh, checkpoints[ids[k]], k < count);
      CollectedNext(clear, next, sh, checkpoints, ids, count, k);
      clear := next;
      k := k + 1;
    }
  }

  /** The flags to clear end up exactly as `Cleared` says. */
  method Collect(checkpoints: map<int, Checkpoint>, sh: nat, max: nat) returns (clear: Clears)
    ensures Placed(clear, sh)
    ensures forall p :: Pending(clear, sh, p) == Cleared(checkpoints, max, p)
  {
    IdsInOrder(checkpoints, max);
    clear := CollectOver(checkpoints, InOrder(checkpoints.Keys), RemoveCount(checkpoints, max), sh);
    CollectedAll(clear, sh, checkpoints, max);
  }

  // ---------- The entries of one shard ----------

  /** The nonempty entries in the order of their positions. */
  function Entries(m: map<nat, Flags>, positions: seq<int>): (r: seq<(nat, Flags)>)
    requires forall i | 0 <= i < |positions| :: positions[i] >= 0 && positions[i] in m
  {
    if positions == [] then []
    else
      var p: nat := positions[0];
      var rest := Entries(m, positions[1..]);
      if m[p] == EPHEMERAL then rest else [(p, m[p])] + rest
  }

  /** Positions of a map, in order. */
  ghost predicate PositionsOf(m: map<nat, Flags>, positions: seq<int>)
  {
    forall i | 0 <= i < |positions| :: positions[i] >= 0 && positions[i] in m
  }

  lemma {:induction false} EntriesSorted(m: map<nat, Flags>, positions: seq<int>, from: nat, to: nat)
    requires PositionsOf(m, positions) && Ascending(positions)
    requires forall i | 0 <= i < |positions| :: from <= positions[i] < to
    ensures SortedWithin(Entries(m, positions), from, to)
    ensures forall i | 0 <= i < |Entries(m, positions)| :: Entries(m, positions)[i].0 in positions
  {
    if positions != [] {
      var rest := positions[1..];
      assert forall i | 0 <= i < |rest| :: rest[i] == positions[i + 1];
      EntriesSorted(m, rest, from, to);
      EntriesBehind(m, positions);
    }
  }

  /** The entries of the later positions come after the first position. */
  lemma EntriesBehind(m: map<nat, Flags>, positions: seq<int>)
    requires PositionsOf(m, positions) && Ascending(positions) && positions != [] && PositionsOf(m, positions[1..])
    requires forall i | 0 <= i < |Entries(m, positions[1..])| :: Entries(m, positions[1..])[i].0 in positions[1..]
    ensures forall i | 0 <= i < |Entries(m, positions[1..])| :: positions[0] < Entries(m, positions[1..])[i].0
  {
    var rest := positions[1..];
    forall x | x in rest ensures positions[0] < x {
      var j :| 0 <= j < |rest| && rest[j] == x;
      assert positions[0] < positions[j + 1];
    }
  }

  lemma {:induction false} EntriesExact(m: map<nat, Flags>, positions: seq<int>, p: nat)
    requires PositionsOf(m, positions) && Ascending(positions)
    ensures p in positions ==> p in m
    ensures ClearedAt(Entries(m, positions), p) == if p in positions then m[p] else EPHEMERAL
  {
    if positions != [] {
      var rest, first := positions[1..], positions[0];
      assert forall i | 0 <= i < |rest| :: rest[i] == positions[i + 1];
      assert first !in rest;
      assert positions == [first] + rest;
      EntriesExact(m, rest, p);
      FirstEntry(m, positions, p);
    }
  }

  lemma FirstEntry(m: map<nat, Flags>, positions: seq<int>, p: nat)
    requires PositionsOf(m, positions) && positions != []
    ensures PositionsOf(m, positions[1..])
    ensures var first: nat := positions[0];
            ClearedAt(Entries(m, positions), p) ==
              if m[first] != EPHEMERAL && p == first then m[first] else ClearedAt(Entries(m, positions[1..]), p)
  {
    var first: nat := positions[0];
    if m[first] != EPHEMERAL { assert Entries(m, positions)[1..] == Entries(m, positions[1..]); }
  }

  /** What to clear in the shard at an index. */
  function Wanted(clear: Clears, i: nat): seq<(nat, Flags)>
  {
    if i !in clear then []
    else
      var positions := InOrder(clear[i].Keys);
      assert forall k | 0 <= k < |positions| :: positions[k] in positions && positions[k] in clear[i].Keys;
      Entries(clear[i], positions)
  }

  lemma WantedExact(clear: Clears, sh: nat, i: nat, p: nat)
    requires Placed(clear, sh)
    ensures SortedWithin(Wanted(clear, i), Start(sh, i), End(sh, i))
    ensures Start(sh, i) <= p < End(sh, i) ==> ClearedAt(Wanted(clear, i), p) == Pending(clear, sh, p)
    ensures forall k | 0 <= k < |Wanted(clear, i)| :: Wanted(clear, i)[k].1 == Pending(clear, sh, Wanted(clear, i)[k].0)
  {
    if i in clear {
      var positions := InOrder(clear[i].Keys);
      forall k | 0 <= k < |positions|
        ensures positions[k] in clear[i].Keys && Start(sh, i) <= positions[k] < End(sh, i)
      {
        assert positions[k] in positions && positions[k] in clear[i].Keys;
        AboveRange(sh, positions[k]);
      }
      EntriesSorted(clear[i], positions, Start(sh, i), End(sh, i));
      EntriesExact(clear[i], positions, p);
      assert p in positions <==> p in clear[i].Keys;
    }
    if Start(sh, i) <= p < End(sh, i) { AboveUnique(sh, p, i); }
    EntryIsPending(clear, sh, i);
  }

  lemma EntryIsPending(clear: Clears, sh: nat, i: nat)
    requires Placed(clear, sh)
    ensures forall k | 0 <= k < |Wanted(clear, i)| :: Wanted(clear, i)[k].1 == Pending(clear, sh, Wanted(clear, i)[k].0)
  {
    if i in clear {
      var positions := InOrder(clear[i].Keys);
      assert forall k | 0 <= k < |positions| :: positions[k] in positions && positions[k] in clear[i].Keys;
      EntriesFrom(clear[i], positions);
      forall k | 0 <= k < |Wanted(clear, i)|
        ensures Wanted(clear, i)[k].1 == Pending(clear, sh, Wanted(clear, i)[k].0)
      {
        var e := Wanted(clear, i)[k];
        assert e.0 in clear[i] && Above(sh, e.0) == i;
      }
    }
  }

  lemma {:induction false} EntriesFrom(m: map<nat, Flags>, positions: seq<int>)
    requires forall i | 0 <= i < |positions| :: positions[i] >= 0 && positions[i] in m
    ensures forall k | 0 <= k < |Entries(m, positions)| ::
      Entries(m, positions)[k].0 in m && Entries(m, positions)[k].1 == m[Entries(m, positions)[k].0]
  {
    if positions != [] { EntriesFrom(m, positions[1..]); }
  }
}
