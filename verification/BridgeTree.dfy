/** `bridgetree/src/lib.rs`, second part: the `BridgeTree` state machine. */
module BridgeTrees {

  import opened Basics
  import opened Merkle
  import opened Frontiers
  import opened Bridges
  import opened Histories

  datatype Checkpoint = Checkpoint(id: int, bridgesLen: nat, marked: set<nat>, forgotten: set<nat>)

  datatype WitnessingError =
    | CheckpointInvalid
    | CheckpointTooDeep(excess: nat)
    | PositionNotMarked(pos: nat)
    | BridgeFusionError(problem: ContinuityError)
    | BridgeAddressInvalid(addr: Address)

  // ---------- Specification ----------

  /** Number of leaves covered by the first `len` bridges. */
  function SizeAt<H>(prior: seq<MerkleBridge<H>>, len: nat): nat
  {
    if 0 < len <= |prior| then prior[len - 1].Position() + 1 else 0
  }

  function PointOf<H>(prior: seq<MerkleBridge<H>>, c: Checkpoint): Point
  {
    Point(c.id, SizeAt(prior, c.bridgesLen), c.marked, c.forgotten)
  }

  function Points<H>(prior: seq<MerkleBridge<H>>, checkpoints: seq<Checkpoint>): (r: seq<Point>)
    ensures |r| == |checkpoints|
    ensures forall i | 0 <= i < |r| :: r[i] == PointOf(prior, checkpoints[i])
  {
    seq(|checkpoints|, i requires 0 <= i < |checkpoints| => PointOf(prior, checkpoints[i]))
  }

  /** Each bridge follows the previous one and moves strictly forward. */
  ghost predicate ChainOk<H>(hs: Hashable<H>, leaves: seq<H>, prior: seq<MerkleBridge<H>>)
  {
    forall i | 0 <= i < |prior| :: LinkOk(hs, leaves, prior, i)
  }

  ghost predicate LinkOk<H>(hs: Hashable<H>, leaves: seq<H>, prior: seq<MerkleBridge<H>>, i: nat)
    requires i < |prior|
  {
    SizeAt(prior, i) < SizeAt(prior, i + 1) && BridgeOk(hs, leaves, SizeAt(prior, i), SizeAt(prior, i + 1), prior[i])
  }

  ghost predicate CurrentOk<H>(hs: Hashable<H>, leaves: seq<H>, prior: seq<MerkleBridge<H>>,
                               current: Option<MerkleBridge<H>>)
  {
    match current
    case None => leaves == [] && prior == []
    case Some(b) => BridgeOk(hs, leaves, SizeAt(prior, |prior|), |leaves|, b)
  }

  ghost predicate SavedOk<H>(prior: seq<MerkleBridge<H>>, saved: map<nat, nat>)
  {
    forall m | m in saved :: saved[m] < |prior| && prior[saved[m]].Position() == m
  }

  ghost predicate Covers<H>(b: MerkleBridge<H>, m: nat, n0: nat, n: nat, depth: nat)
  {
    Tracks(b.tracking, m, n, depth) && Holds(b.ommers, m, n0, n, depth)
  }

  /** The bridges after a leaf's own bridge keep everything its witness will need. */
  ghost predicate MarkCovered<H>(prior: seq<MerkleBridge<H>>, m: nat, index: nat, depth: nat)
  {
    forall i | index < i < |prior| :: CoversAt(prior, i, m, depth)
  }

  ghost predicate CoversAt<H>(prior: seq<MerkleBridge<H>>, i: nat, m: nat, depth: nat)
    requires i < |prior|
  {
    Covers(prior[i], m, SizeAt(prior, i), SizeAt(prior, i + 1), depth)
  }

  ghost predicate CoverOk<H>(depth: nat, size: nat, prior: seq<MerkleBridge<H>>, current: Option<MerkleBridge<H>>,
                             saved: map<nat, nat>)
  {
    forall m | m in saved ::
      && MarkCovered(prior, m, saved[m], depth)
      && (current.Some? ==> Covers(current.value, m, SizeAt(prior, |prior|), size, depth))
  }

  ghost predicate MarkedFrom(checkpoints: seq<Checkpoint>, k: nat, m: nat)
  {
    exists j :: k <= j < |checkpoints| && m in checkpoints[j].marked
  }

  /** Checkpoints are in order, and a mark on a bridge that a rewind would drop was recorded since. */
  ghost predicate CheckpointsOk(len: nat, saved: map<nat, nat>, checkpoints: seq<Checkpoint>)
  {
    && (forall k | 0 <= k < |checkpoints| :: checkpoints[k].bridgesLen <= len)
    && (forall j, k | 0 <= j < k < |checkpoints| :: checkpoints[j].bridgesLen <= checkpoints[k].bridgesLen)
    && (forall k, m | 0 <= k < |checkpoints| && m in saved && saved[m] >= checkpoints[k].bridgesLen ::
        MarkedFrom(checkpoints, k, m))
  }

  ghost predicate TreeOk<H>(hs: Hashable<H>, depth: nat, maxCheckpoints: nat, leaves: seq<H>,
                            prior: seq<MerkleBridge<H>>, current: Option<MerkleBridge<H>>,
                            saved: map<nat, nat>, checkpoints: seq<Checkpoint>)
  {
    && |leaves| <= Pow2(depth)
    && |checkpoints| <= maxCheckpoints
    && ChainOk(hs, leaves, prior)
    && CurrentOk(hs, leaves, prior, current)
    && SavedOk(prior, saved)
    && CoverOk(depth, |leaves|, prior, current, saved)
    && CheckpointsOk(|prior|, saved, checkpoints)
  }

  /** `check_consistency_internal` */
  predicate Consistent<H>(prior: seq<MerkleBridge<H>>, current: Option<MerkleBridge<H>>, saved: map<nat, nat>,
                          checkpoints: seq<Checkpoint>, maxCheckpoints: nat)
  {
    && (forall m | m in saved :: saved[m] < |prior| && prior[saved[m]].Position() == m)
    && |checkpoints| <= maxCheckpoints
    && (forall c | c in checkpoints :: c.bridgesLen <= |prior|)
    && (forall i | 0 < i < |prior| :: prior[i - 1].ContinuityProblem(prior[i]).None?)
    && (prior != [] && current.Some? ==> prior[|prior| - 1].ContinuityProblem(current.value).None?)
  }

  lemma InvariantIsConsistent<H>(hs: Hashable<H>, depth: nat, maxCheckpoints: nat, leaves: seq<H>,
                                 prior: seq<MerkleBridge<H>>,
                                 current: Option<MerkleBridge<H>>, saved: map<nat, nat>, checkpoints: seq<Checkpoint>)
    requires TreeOk(hs, depth, maxCheckpoints, leaves, prior, current, saved, checkpoints)
    ensures Consistent(prior, current, saved, checkpoints, maxCheckpoints)
  {
    forall i | 0 < i < |prior| ensures prior[i - 1].ContinuityProblem(prior[i]).None? {
      assert SizeAt(prior, i) == prior[i - 1].Position() + 1;
      assert LinkOk(hs, leaves, prior, i);
    }
  }

  lemma {:induction false} SizesGrow<H>(hs: Hashable<H>, leaves: seq<H>, prior: seq<MerkleBridge<H>>, i: nat, j: nat)
    requires ChainOk(hs, leaves, prior) && i < j <= |prior|
    ensures SizeAt(prior, i) < SizeAt(prior, j)
    decreases j - i
  {
    assert LinkOk(hs, leaves, prior, i);
    if i + 1 < j { SizesGrow(hs, leaves, prior, i + 1, j); }
  }

  lemma SizeBounds<H>(hs: Hashable<H>, leaves: seq<H>, prior: seq<MerkleBridge<H>>,
                      current: Option<MerkleBridge<H>>, len: nat)
    requires ChainOk(hs, leaves, prior) && CurrentOk(hs, leaves, prior, current) && len <= |prior|
    ensures SizeAt(prior, len) <= SizeAt(prior, |prior|) <= |leaves|
  {
    if len < |prior| { SizesGrow(hs, leaves, prior, len, |prior|); }
  }

  // ---------- Checkpoints ----------

  /** Marks a position as new in the latest checkpoint, if there is one. */
  function MarkNewest(checkpoints: seq<Checkpoint>, pos: nat): seq<Checkpoint>
  {
    var last := |checkpoints| - 1;
    if checkpoints == [] then []
      else checkpoints[last := checkpoints[last].(marked := checkpoints[last].marked + {pos})]
  }

  /** Marks a position as forgotten in the latest checkpoint, if there is one. */
  function ForgetNewest(checkpoints: seq<Checkpoint>, pos: nat): seq<Checkpoint>
  {
    var last := |checkpoints| - 1;
    if checkpoints == [] then []
      else checkpoints[last := checkpoints[last].(forgotten := checkpoints[last].forgotten + {pos})]
  }

  lemma MarkedStays(a: seq<Checkpoint>, b: seq<Checkpoint>, shift: nat, k: nat, m: nat)
    requires MarkedFrom(a, k + shift, m)
    requires forall j | k + shift <= j < |a| && m in a[j].marked :: j - shift < |b| && m in b[j - shift].marked
    ensures MarkedFrom(b, k, m)
  {
    var j :| k + shift <= j < |a| && m in a[j].marked;
    assert m in b[j - shift].marked;
  }

  lemma CheckpointsMark(len: nat, saved: map<nat, nat>, checkpoints: seq<Checkpoint>, pos: nat, index: nat)
    requires CheckpointsOk(len, saved, checkpoints)
    ensures CheckpointsOk(len, saved[pos := index], MarkNewest(checkpoints, pos))
  {
    var marked, saved' := MarkNewest(checkpoints, pos), saved[pos := index];
    forall k, m | 0 <= k < |marked| && m in saved' && saved'[m] >= marked[k].bridgesLen
      ensures MarkedFrom(marked, k, m)
    {
      if m == pos {
        assert pos in marked[|marked| - 1].marked;
      } else {
        MarkedStays(checkpoints, marked, 0, k, m);
      }
    }
  }

  lemma CheckpointsForget(len: nat, saved: map<nat, nat>, checkpoints: seq<Checkpoint>, pos: nat)
    requires CheckpointsOk(len, saved, checkpoints)
    ensures CheckpointsOk(len, saved, ForgetNewest(checkpoints, pos))
  {
    var forgotten := ForgetNewest(checkpoints, pos);
    forall k, m | 0 <= k < |forgotten| && m in saved && saved[m] >= forgotten[k].bridgesLen
      ensures MarkedFrom(forgotten, k, m)
    {
      MarkedStays(checkpoints, forgotten, 0, k, m);
    }
  }

  lemma CheckpointsPush(len: nat, saved: map<nat, nat>, checkpoints: seq<Checkpoint>, id: int)
    requires CheckpointsOk(len, saved, checkpoints) && forall m | m in saved :: saved[m] < len
    ensures CheckpointsOk(len, saved, checkpoints + [Checkpoint(id, len, {}, {})])
  {
    var added := checkpoints + [Checkpoint(id, len, {}, {})];
    forall k, m | 0 <= k < |added| && m in saved && saved[m] >= added[k].bridgesLen ensures MarkedFrom(added, k, m) {
      MarkedStays(checkpoints, added, 0, k, m);
    }
  }

  lemma CheckpointsDrop(len: nat, saved: map<nat, nat>, checkpoints: seq<Checkpoint>)
    requires CheckpointsOk(len, saved, checkpoints) && checkpoints != []
    ensures CheckpointsOk(len, saved - checkpoints[0].forgotten, checkpoints[1..])
  {
    var rest := checkpoints[1..];
    forall k, m | 0 <= k < |rest| && m in saved && saved[m] >= rest[k].bridgesLen ensures MarkedFrom(rest, k, m) {
      MarkedStays(checkpoints, rest, 1, k, m);
    }
  }

  lemma CheckpointsRewind(len: nat, saved: map<nat, nat>, checkpoints: seq<Checkpoint>)
    requires CheckpointsOk(len, saved, checkpoints) && checkpoints != []
    ensures var last := checkpoints[|checkpoints| - 1];
            && CheckpointsOk(last.bridgesLen, saved - last.marked, checkpoints[..|checkpoints| - 1])
            && forall m | m in saved && m !in last.marked :: saved[m] < last.bridgesLen
  {
    var n := |checkpoints| - 1;
    var last, rest := checkpoints[n], checkpoints[..n];
    forall m | m in saved && m !in last.marked ensures saved[m] < last.bridgesLen {
      assert MarkedFrom(checkpoints, n, m) ==> m in last.marked;
    }
    forall k, m | 0 <= k < |rest| && m in saved - last.marked && saved[m] >= rest[k].bridgesLen
      ensures MarkedFrom(rest, k, m)
    {
      MarkedStays(checkpoints, rest, 0, k, m);
    }
  }

  // ---------- Bridges ----------

  lemma ChainExtends<H>(hs: Hashable<H>, leaves: seq<H>, prior: seq<MerkleBridge<H>>, value: H)
    requires ChainOk(hs, leaves, prior)
    ensures ChainOk(hs, leaves + [value], prior)
  {
    forall i | 0 <= i < |prior|
      ensures LinkOk(hs, leaves + [value], prior, i)
    {
      assert LinkOk(hs, leaves, prior, i);
      BridgeOkExtends(hs, leaves, value, SizeAt(prior, i), SizeAt(prior, i + 1), prior[i]);
    }
  }

  lemma ChainTruncates<H>(hs: Hashable<H>, leaves: seq<H>, prior: seq<MerkleBridge<H>>, len: nat)
    requires ChainOk(hs, leaves, prior) && len <= |prior| && SizeAt(prior, len) <= |leaves|
    ensures forall l | 0 <= l <= len :: SizeAt(prior[..len], l) == SizeAt(prior, l)
    ensures ChainOk(hs, leaves[..SizeAt(prior, len)], prior[..len])
  {
    var kept, size := prior[..len], SizeAt(prior, len);
    forall i | 0 <= i < len
      ensures LinkOk(hs, leaves[..size], kept, i)
    {
      assert LinkOk(hs, leaves, prior, i);
      if i + 1 < len { SizesGrow(hs, leaves, prior, i + 1, len); }
      BridgeOkTruncates(hs, leaves, size, SizeAt(prior, i), SizeAt(prior, i + 1), prior[i]);
    }
  }

  lemma ChainPush<H>(hs: Hashable<H>, leaves: seq<H>, prior: seq<MerkleBridge<H>>, current: MerkleBridge<H>)
    requires ChainOk(hs, leaves, prior) && BridgeOk(hs, leaves, SizeAt(prior, |prior|), |leaves|, current)
    requires SizeAt(prior, |prior|) != |leaves|
    ensures ChainOk(hs, leaves, prior + [current])
    ensures SizeAt(prior + [current], |prior| + 1) == |leaves|
    ensures forall l | 0 <= l <= |prior| :: SizeAt(prior + [current], l) == SizeAt(prior, l)
  {
    var longer := prior + [current];
    forall i | 0 <= i < |longer|
      ensures LinkOk(hs, leaves, longer, i)
    {
      if i < |prior| { assert LinkOk(hs, leaves, prior, i); }
    }
  }

  /** Coverage of a mark only depends on the bridges, not on how they are stored. */
  lemma MarkCoveredPrefix<H>(a: seq<MerkleBridge<H>>, b: seq<MerkleBridge<H>>, m: nat, index: nat, depth: nat)
    requires MarkCovered(a, m, index, depth) && b <= a
    ensures MarkCovered(b, m, index, depth)
  {
    forall i | index < i < |b| ensures CoversAt(b, i, m, depth) {
      assert CoversAt(a, i, m, depth);
    }
  }

  lemma MarkCoveredPush<H>(prior: seq<MerkleBridge<H>>, current: MerkleBridge<H>, m: nat, index: nat, depth: nat)
    requires MarkCovered(prior, m, index, depth)
    requires Covers(current, m, SizeAt(prior, |prior|), current.Position() + 1, depth)
    ensures MarkCovered(prior + [current], m, index, depth)
  {
    var longer := prior + [current];
    forall i | index < i < |longer| ensures CoversAt(longer, i, m, depth) {
      if i < |prior| {
        assert CoversAt(prior, i, m, depth);
      } else {
        assert SizeAt(longer, i) == SizeAt(prior, |prior|);
      }
    }
  }

  // ---------- Effect of each operation on the invariant ----------

  lemma AppendKeeps<H>(hs: Hashable<H>, depth: nat, max: nat, leaves: seq<H>, prior: seq<MerkleBridge<H>>,
                       current: MerkleBridge<H>, saved: map<nat, nat>, checkpoints: seq<Checkpoint>, value: H)
    requires TreeOk(hs, depth, max, leaves, prior, Some(current), saved, checkpoints)
    requires |leaves| < Pow2(depth)
    ensures current.frontier.WellFormed()
    ensures TreeOk(hs, depth, max, leaves + [value], prior, Some(Appended(hs, current, value)), saved, checkpoints)
  {
    var n0, n := SizeAt(prior, |prior|), |leaves|;
    AppendedOk(hs, leaves, n0, current, value);
    ChainExtends(hs, leaves, prior, value);
    forall m | m in saved ensures Covers(Appended(hs, current, value), m, n0, n + 1, depth) {
      SavedBelow(hs, leaves, prior, Some(current), saved, m);
      AppendedHolds(hs, n, n0, current, value, m, depth);
      AppendedTracks(hs, n, current, value, m, depth);
    }
  }

  lemma SavedBelow<H>(hs: Hashable<H>, leaves: seq<H>, prior: seq<MerkleBridge<H>>, current: Option<MerkleBridge<H>>,
                      saved: map<nat, nat>, m: nat)
    requires ChainOk(hs, leaves, prior) && CurrentOk(hs, leaves, prior, current) && SavedOk(prior, saved) && m in saved
    ensures m < |leaves|
  {
    SizeBounds(hs, leaves, prior, current, saved[m] + 1);
  }

  /** Starting a new bridge at the tip. */
  lemma PushKeeps<H>(hs: Hashable<H>, depth: nat, max: nat, leaves: seq<H>, prior: seq<MerkleBridge<H>>,
                     current: MerkleBridge<H>, saved: map<nat, nat>, checkpoints: seq<Checkpoint>, track: bool)
    requires TreeOk(hs, depth, max, leaves, prior, Some(current), saved, checkpoints)
    requires SizeAt(prior, |prior|) != |leaves|
    ensures TreeOk(hs, depth, max, leaves, prior + [current], Some(current.Successor(track)), saved, checkpoints)
    ensures SizeAt(prior + [current], |prior| + 1) == |leaves|
    ensures forall l | 0 <= l <= |prior| :: SizeAt(prior + [current], l) == SizeAt(prior, l)
    ensures track ==> Tracks(current.Successor(track).tracking, |leaves| - 1, |leaves|, depth)
  {
    ChainPush(hs, leaves, prior, current);
    SuccessorOk(hs, leaves, SizeAt(prior, |prior|), |leaves|, current, track, depth);
    forall m | m in saved ensures MarkCovered(prior + [current], m, saved[m], depth) {
      MarkCoveredPush(prior, current, m, saved[m], depth);
    }
  }

  /** Tracking the latest leaf. */
  lemma TrackKeeps<H>(hs: Hashable<H>, depth: nat, max: nat, leaves: seq<H>, prior: seq<MerkleBridge<H>>,
                      current: MerkleBridge<H>, saved: map<nat, nat>, checkpoints: seq<Checkpoint>)
    requires TreeOk(hs, depth, max, leaves, prior, Some(current), saved, checkpoints)
    ensures TreeOk(hs, depth, max, leaves, prior, Some(current.TrackCurrentLeaf()), saved, checkpoints)
    ensures Tracks(current.TrackCurrentLeaf().tracking, |leaves| - 1, |leaves|, depth)
  {
    TrackCurrentLeafCovers(hs, leaves, SizeAt(prior, |prior|), |leaves|, current, depth);
  }

  /** Saving the latest leaf, once it is the last bridge's own leaf and is tracked. */
  lemma SaveKeeps<H>(hs: Hashable<H>, depth: nat, max: nat, leaves: seq<H>, prior: seq<MerkleBridge<H>>,
                     current: MerkleBridge<H>, saved: map<nat, nat>, checkpoints: seq<Checkpoint>)
    requires TreeOk(hs, depth, max, leaves, prior, Some(current), saved, checkpoints)
    requires prior != [] && SizeAt(prior, |prior|) == |leaves|
    requires Tracks(current.tracking, |leaves| - 1, |leaves|, depth)
    ensures TreeOk(hs, depth, max, leaves, prior, Some(current), saved[|leaves| - 1 := |prior| - 1],
                   MarkNewest(checkpoints, |leaves| - 1))
  {
    var pos, index := |leaves| - 1, |prior| - 1;
    CheckpointsMark(|prior|, saved, checkpoints, pos, index);
    assert prior[index].Position() == pos;
    CoverSaved(depth, |leaves|, prior, Some(current), saved, pos);
  }

  /** The bridge just sealed covers its own leaf. */
  lemma CoverSaved<H>(depth: nat, n: nat, prior: seq<MerkleBridge<H>>, current: Option<MerkleBridge<H>>,
                      saved: map<nat, nat>, pos: nat)
    requires CoverOk(depth, n, prior, current, saved) && prior != [] && current.Some? && n == pos + 1
    requires SizeAt(prior, |prior|) == n && Tracks(current.value.tracking, pos, n, depth)
    ensures CoverOk(depth, n, prior, current, saved[pos := |prior| - 1])
  {
    var saved' := saved[pos := |prior| - 1];
    forall m | m in saved' ensures MarkCovered(prior, m, saved'[m], depth) {
      if m != pos { assert m in saved; }
    }
  }

  /** The state after rewinding to the latest checkpoint. */
  lemma RewindKeeps<H>(hs: Hashable<H>, depth: nat, max: nat, leaves: seq<H>, prior: seq<MerkleBridge<H>>,
                       current: Option<MerkleBridge<H>>, saved: map<nat, nat>, checkpoints: seq<Checkpoint>)
    requires TreeOk(hs, depth, max, leaves, prior, current, saved, checkpoints) && checkpoints != []
    ensures var c := checkpoints[|checkpoints| - 1];
            var kept, saved' := prior[..c.bridgesLen], saved - c.marked;
            var size := SizeAt(prior, c.bridgesLen);
            var tip := if kept == [] then None
              else Some(kept[|kept| - 1].Successor(kept[|kept| - 1].Position() in saved'));
            && size <= |leaves|
            && TreeOk(hs, depth, max, leaves[..size], kept, tip, saved', checkpoints[..|checkpoints| - 1])
            && forall l | 0 <= l <= c.bridgesLen :: SizeAt(kept, l) == SizeAt(prior, l)
  {
    var c := checkpoints[|checkpoints| - 1];
    var kept, saved' := prior[..c.bridgesLen], saved - c.marked;
    var size := SizeAt(prior, c.bridgesLen);
    SizeBounds(hs, leaves, prior, current, c.bridgesLen);
    CheckpointsRewind(|prior|, saved, checkpoints);
    ChainTruncates(hs, leaves, prior, c.bridgesLen);
    forall m | m in saved' ensures MarkCovered(kept, m, saved'[m], depth) {
      MarkCoveredPrefix(prior, kept, m, saved[m], depth);
    }
    if kept != [] {
      RewindTip(hs, depth, leaves[..size], kept, saved');
    }
  }

  /** The last bridge's successor is a valid tip that still covers every saved leaf. */
  lemma RewindTip<H>(hs: Hashable<H>, depth: nat, leaves: seq<H>, kept: seq<MerkleBridge<H>>, saved: map<nat, nat>)
    requires kept != [] && SizeAt(kept, |kept|) == |leaves| && ChainOk(hs, leaves, kept) && SavedOk(kept, saved)
    requires forall m | m in saved :: MarkCovered(kept, m, saved[m], depth)
    ensures var b := kept[|kept| - 1];
            var tip := Some(b.Successor(b.Position() in saved));
            CurrentOk(hs, leaves, kept, tip) && CoverOk(depth, |leaves|, kept, tip, saved)
  {
    var last := |kept| - 1;
    var b := kept[last];
    var tip := b.Successor(b.Position() in saved);
    assert LinkOk(hs, leaves, kept, last);
    SuccessorOk(hs, leaves, SizeAt(kept, last), |leaves|, b, b.Position() in saved, depth);
    forall m | m in saved ensures Covers(tip, m, |leaves|, |leaves|, depth) {
      if saved[m] < last { assert CoversAt(kept, last, m, depth); }
    }
  }

  // ---------- Witnesses ----------

  /** Bridges that follow one another from `from` and hold what the leaf at `m` needs. */
  ghost predicate RunOk<H>(hs: Hashable<H>, leaves: seq<H>, from: nat, run: seq<MerkleBridge<H>>, m: nat, depth: nat)
    decreases |run|
  {
    run != [] ==>
      && BridgeOk(hs, leaves, from, run[0].Position() + 1, run[0])
      && Holds(run[0].ommers, m, from, run[0].Position() + 1, depth)
      && RunOk(hs, leaves, run[0].Position() + 1, run[1..], m, depth)
  }

  lemma {:induction false} RunOfChain<H>(hs: Hashable<H>, leaves: seq<H>, prior: seq<MerkleBridge<H>>, i: nat, end: nat,
                                         tail: seq<MerkleBridge<H>>, m: nat, index: nat, depth: nat)
    requires ChainOk(hs, leaves, prior) && MarkCovered(prior, m, index, depth)
    requires index < i <= end <= |prior|
    requires RunOk(hs, leaves, SizeAt(prior, end), tail, m, depth)
    ensures RunOk(hs, leaves, SizeAt(prior, i), prior[i..end] + tail, m, depth)
    decreases end - i
  {
    if i < end {
      RunOfChain(hs, leaves, prior, i + 1, end, tail, m, index, depth);
      assert LinkOk(hs, leaves, prior, i) && CoversAt(prior, i, m, depth);
      assert (prior[i..end] + tail)[1..] == prior[i + 1..end] + tail;
    } else {
      assert prior[i..end] + tail == tail;
    }
  }

  /** Fusing such a run yields one bridge over the whole period, holding every completed sibling. */
  lemma {:induction false} FuseRun<H>(hs: Hashable<H>, leaves: seq<H>, n0: nat, n1: nat, acc: MerkleBridge<H>,
                                      rest: seq<MerkleBridge<H>>,
                                      n: nat, m: nat, depth: nat)
    requires BridgeOk(hs, leaves, n0, n1, acc) && Holds(acc.ommers, m, n0, n1, depth)
    requires RunOk(hs, leaves, n1, rest, m, depth)
    requires n == if rest == [] then n1 else rest[|rest| - 1].Position() + 1
    ensures var fused := FuseAll(acc, rest);
            fused.Ok? && BridgeOk(hs, leaves, n0, n, fused.value) && Holds(fused.value.ommers, m, n0, n, depth)
    decreases |rest|
  {
    if rest != [] {
      var n2 := rest[0].Position() + 1;
      FuseOk(hs, leaves, n0, n1, n2, acc, rest[0]);
      FuseRun(hs, leaves, n0, n2, acc.Fuse(rest[0]).value, rest[1..], n, m, depth);
    }
  }

  /** `skip(k).take_while(position <= pos).any(marked)` over the checkpoints. */
  predicate MarkedAfter<H>(prior: seq<MerkleBridge<H>>, checkpoints: seq<Checkpoint>, k: nat, pos: nat)
    requires k <= |checkpoints|
    decreases |checkpoints| - k
  {
    k < |checkpoints| && 0 < SizeAt(prior, checkpoints[k].bridgesLen) <= pos + 1 &&
    (pos in checkpoints[k].marked || MarkedAfter(prior, checkpoints, k + 1, pos))
  }

  /** For a leaf from before the checkpoint, the search stops at no checkpoint too early: it finds whether any of
      them recorded the mark. */
  lemma {:induction false} MarkedAfterIs<H>(prior: seq<MerkleBridge<H>>, checkpoints: seq<Checkpoint>, h: History<H>,
                                            k: nat, pos: nat)
    requires k <= |checkpoints| && h.points == Points(prior, checkpoints) && h.Orderly()
    requires k < |checkpoints| ==> pos < h.points[k].size
    ensures MarkedAfter(prior, checkpoints, k, pos) <==> h.RecordedSince(k, pos)
    decreases |checkpoints| - k
  {
    if k < |checkpoints| {
      if k + 1 < |checkpoints| { assert h.points[k].size <= h.points[k + 1].size; }
      MarkedAfterIs(prior, checkpoints, h, k + 1, pos);
      if h.RecordedSince(k, pos) {
        var j :| k <= j < |h.points| && pos in h.points[j].marked;
        assert h.points[k].size <= h.points[j].size <= pos + 1;
        assert j > k ==> h.RecordedSince(k + 1, pos);
      }
      assert pos in checkpoints[k].marked ==> pos in h.points[k].marked;
      if h.RecordedSince(k + 1, pos) {
        var j :| k + 1 <= j < |h.points| && pos in h.points[j].marked;
        assert h.RecordedSince(k, pos);
      }
    }
  }

  /** The fused bridge from a saved leaf to any later state gives that leaf's witness in that state. */
  lemma WitnessOfRun<H>(hs: Hashable<H>, depth: nat, leaves: seq<H>, prior: seq<MerkleBridge<H>>, index: nat,
                        run: seq<MerkleBridge<H>>, n: nat)
    requires |leaves| <= Pow2(depth)
    requires ChainOk(hs, leaves, prior) && index < |prior|
    requires run != [] && RunOk(hs, leaves, SizeAt(prior, index + 1), run, prior[index].Position(), depth)
    requires n == run[|run| - 1].Position() + 1
    ensures prior[index].frontier.WellFormed()
    ensures var pos := prior[index].Position();
            var fused := FuseAll(run[0], run[1..]);
            && pos < |leaves| && n <= |leaves|
            && fused.Ok? && fused.value.frontier.WellFormed() && fused.value.priorPosition == Some(pos)
            && BridgeWitness(hs, fused.value, depth, prior[index].frontier) == Ok(RefPath(hs, leaves[..n], pos, depth))
            && PathRoot(hs, leaves[pos], RefPath(hs, leaves[..n], pos, depth), pos) == Root(hs, leaves[..n], depth, 0)
  {
    assert LinkOk(hs, leaves, prior, index);
    var pos, n0 := prior[index].Position(), SizeAt(prior, index + 1);
    var fused := FuseAll(run[0], run[1..]);
    RunFused(hs, depth, leaves, run, n0, n, pos);
    WitnessOfFused(hs, depth, leaves, n0, n, fused.value, pos);
  }

  /** A bridge that holds what the witness needs gives it. */
  lemma WitnessOfFused<H>(hs: Hashable<H>, depth: nat, leaves: seq<H>, n0: nat, n: nat, b: MerkleBridge<H>, pos: nat)
    requires |leaves| <= Pow2(depth) && n0 == pos + 1
    requires BridgeOk(hs, leaves, n0, n, b) && Holds(b.ommers, pos, n0, n, depth)
    ensures b.frontier.WellFormed() && FrontierOf(hs, leaves[..n0]).WellFormed() && b.priorPosition == Some(pos)
    ensures BridgeWitness(hs, b, depth, FrontierOf(hs, leaves[..n0])) == Ok(RefPath(hs, leaves[..n], pos, depth))
    ensures PathRoot(hs, leaves[pos], RefPath(hs, leaves[..n], pos, depth), pos) == Root(hs, leaves[..n], depth, 0)
  {
    BridgeWitnessCorrect(hs, leaves, n0, n, b, depth);
    TopIndex(depth, |leaves|, pos);
  }

  /** A run fuses into one bridge that holds what the witness needs. */
  lemma RunFused<H>(hs: Hashable<H>, depth: nat, leaves: seq<H>, run: seq<MerkleBridge<H>>, n0: nat, n: nat, pos: nat)
    requires run != [] && RunOk(hs, leaves, n0, run, pos, depth) && n == run[|run| - 1].Position() + 1
    ensures var fused := FuseAll(run[0], run[1..]);
            fused.Ok? && BridgeOk(hs, leaves, n0, n, fused.value) && Holds(fused.value.ommers, pos, n0, n, depth)
  {
    FuseRun(hs, leaves, n0, run[0].Position() + 1, run[0], run[1..], n, pos, depth);
  }

  lemma TopIndex(depth: nat, count: nat, pos: nat)
    requires count <= Pow2(depth) && pos < count
    ensures Above(depth, pos) == 0
  {
    StartIsShift(depth, 1);
    StartZero(depth);
    AboveUnique(depth, pos, 0);
  }

  // ---------- Garbage collection ----------

  /** The addresses a leaf's witness will take from later leaves. */
  function FutureAddrs(pos: nat, depth: nat): set<Address>
  {
    if depth == 0 then {}
    else
      var index := Above(depth - 1, pos);
      FutureAddrs(pos, depth - 1) + if index % 2 == 0 then {Address(depth - 1, index + 1)} else {}
  }

  /** The right siblings on the way up from a position. */
  lemma {:induction false} FutureExact(pos: nat, depth: nat, a: Address)
    ensures a in FutureAddrs(pos, depth) <==>
      a.level < depth && Above(a.level, pos) % 2 == 0 && a.index == Above(a.level, pos) + 1
    decreases depth
  {
    if depth > 0 { FutureExact(pos, depth - 1, a); }
  }

  /** Retaining at least a leaf's own future addresses loses nothing its witness needs. */
  lemma RetainCovers<H>(b: MerkleBridge<H>, m: nat, n0: nat, n: nat, depth: nat, addrs: set<Address>)
    requires Covers(b, m, n0, n, depth) && FutureAddrs(m, depth) <= addrs
    ensures Covers(b.Retain(addrs), m, n0, n, depth)
  {
    forall k | 0 <= k < depth && Above(k, m) % 2 == 0 ensures Address(k, Above(k, m) + 1) in addrs {
      FutureExact(m, depth, Address(k, Above(k, m) + 1));
    }
  }

  lemma RetainOk<H>(hs: Hashable<H>, leaves: seq<H>, n0: nat, n: nat, b: MerkleBridge<H>, addrs: set<Address>)
    requires BridgeOk(hs, leaves, n0, n, b)
    ensures BridgeOk(hs, leaves, n0, n, b.Retain(addrs))
  {
  }

  /** A saved position's index in the chain is determined by the position. */
  lemma SavedIndex<H>(hs: Hashable<H>, leaves: seq<H>, prior: seq<MerkleBridge<H>>, saved: map<nat, nat>,
                      m: nat, i: nat)
    requires ChainOk(hs, leaves, prior) && SavedOk(prior, saved) && m in saved && i < |prior|
      && prior[i].Position() == m
    ensures saved[m] == i
  {
    if saved[m] < i { SizesGrow(hs, leaves, prior, saved[m] + 1, i + 1); }
    if i < saved[m] { SizesGrow(hs, leaves, prior, i + 1, saved[m] + 1); }
  }

  /** Everything collected so far plus the bridge still being merged. */
  ghost predicate MarkKept<H>(all: seq<MerkleBridge<H>>, m: nat, index: nat, depth: nat, addrs: set<Address>)
  {
    index < |all| - 1 && all[index].Position() == m && FutureAddrs(m, depth) <= addrs
      && MarkCovered(all, m, index, depth)
  }

  ghost predicate Aligned<H>(all: seq<MerkleBridge<H>>, prior: seq<MerkleBridge<H>>, merged: nat, j: nat)
  {
    merged <= j && SizeAt(all, j - merged) == SizeAt(prior, j)
  }

  /** Loop invariant of garbage collection after `i` bridges: `all` holds the bridges kept so far and
      the current one last; `renamed` is the updated index of every saved position. */
  ghost predicate CollectOk<H>(hs: Hashable<H>, depth: nat, leaves: seq<H>, prior: seq<MerkleBridge<H>>,
                               saved: map<nat, nat>, gcLen: nat,
                               i: nat, all: seq<MerkleBridge<H>>, renamed: map<nat, nat>, merged: nat,
                               addrs: set<Address>)
  {
    && 0 < i <= |prior| && merged + |all| == i && all != []
    && all[|all| - 1].Position() == prior[i - 1].Position()
    && ChainOk(hs, leaves, all)
    && CollectMarks(depth, saved, i, all, renamed, addrs)
    && CollectIndices(prior, saved, gcLen, i, all, renamed, merged)
  }

  ghost predicate CollectMarks<H>(depth: nat, saved: map<nat, nat>, i: nat, all: seq<MerkleBridge<H>>,
                                  renamed: map<nat, nat>, addrs: set<Address>)
  {
    && renamed.Keys == saved.Keys
    && (forall m | m in saved && saved[m] < i - 1 :: MarkKept(all, m, renamed[m], depth, addrs))
    && (forall m | m in saved && saved[m] >= i - 1 :: renamed[m] == saved[m])
  }

  /** How indices above and below the oldest checkpoint's length have moved. */
  ghost predicate CollectIndices<H>(prior: seq<MerkleBridge<H>>, saved: map<nat, nat>, gcLen: nat,
                                    i: nat, all: seq<MerkleBridge<H>>, renamed: map<nat, nat>, merged: nat)
    requires renamed.Keys == saved.Keys && i <= |prior|
  {
    && (forall j | gcLen < j <= i :: Aligned(all, prior, merged, j))
    && (i > gcLen ==>
          && merged <= gcLen
          && (forall m | m in saved && saved[m] < gcLen :: renamed[m] < gcLen - merged)
          && (forall m | m in saved && gcLen <= saved[m] < i - 1 :: renamed[m] == saved[m] - merged)
          && SizeAt(all, gcLen - merged) <= SizeAt(prior, gcLen)
          && (Aligned(all, prior, merged, gcLen) <==> gcLen == 0 || prior[gcLen - 1].Position() in saved))
  }

  /** When a bridge may not be fused into its successor. */
  predicate MustKeep<H>(b: MerkleBridge<H>, saved: map<nat, nat>, i: nat, gcLen: nat)
  {
    b.Position() in saved || i > gcLen
  }

  /** The saved index of a kept bridge is lowered by the number of bridges fused before it. */
  function Renumber(saved: map<nat, nat>, pos: nat, merged: nat): map<nat, nat>
    requires pos in saved ==> merged <= saved[pos]
  {
    if pos in saved then saved[pos := saved[pos] - merged] else saved
  }

  lemma KeepMarks<H>(depth: nat, prior: seq<MerkleBridge<H>>, saved: map<nat, nat>, i: nat, all: seq<MerkleBridge<H>>,
                     renamed: map<nat, nat>, merged: nat, addrs: set<Address>, addrs': set<Address>)
    requires 0 < i < |prior| && merged + |all| == i && all != []
    requires all[|all| - 1].Position() == prior[i - 1].Position()
    requires SavedOk(prior, saved) && CollectMarks(depth, saved, i, all, renamed, addrs)
    requires forall m | m in saved :: MarkCovered(prior, m, saved[m], depth)
    requires var pos := prior[i - 1].Position();
             (pos in saved ==> saved[pos] == i - 1) && addrs' == addrs + FutureAddrs(pos, depth)
    ensures CollectMarks(depth, saved, i + 1, all + [prior[i].Retain(addrs')],
                         Renumber(renamed, prior[i - 1].Position(), merged), addrs')
  {
    var pos := prior[i - 1].Position();
    var all', renamed' := all + [prior[i].Retain(addrs')], Renumber(renamed, pos, merged);
    forall m | m in saved && saved[m] < i ensures MarkKept(all', m, renamed'[m], depth, addrs') {
      assert MarkCovered(prior, m, saved[m], depth);
      if saved[m] < i - 1 { KeepEarlier(depth, prior, saved, i, all, renamed, addrs, addrs', m); }
      else { KeepLast(depth, prior, i, all, pos, addrs'); }
    }
  }

  lemma KeepEarlier<H>(depth: nat, prior: seq<MerkleBridge<H>>, saved: map<nat, nat>, i: nat, all: seq<MerkleBridge<H>>,
                       renamed: map<nat, nat>, addrs: set<Address>, addrs': set<Address>, m: nat)
    requires 0 < i < |prior| && all != [] && SizeAt(all, |all|) == SizeAt(prior, i) && addrs <= addrs'
    requires CollectMarks(depth, saved, i, all, renamed, addrs) && m in saved && saved[m] < i - 1
    requires MarkCovered(prior, m, saved[m], depth)
    ensures MarkKept(all + [prior[i].Retain(addrs')], m, renamed[m], depth, addrs')
  {
    assert MarkKept(all, m, renamed[m], depth, addrs) && CoversAt(prior, i, m, depth);
    KeepMark(depth, prior, i, all, m, renamed[m], addrs');
  }

  lemma KeepLast<H>(depth: nat, prior: seq<MerkleBridge<H>>, i: nat, all: seq<MerkleBridge<H>>, pos: nat,
                    addrs: set<Address>)
    requires 0 < i < |prior| && all != [] && SizeAt(all, |all|) == SizeAt(prior, i) && all[|all| - 1].Position() == pos
    requires FutureAddrs(pos, depth) <= addrs && MarkCovered(prior, pos, i - 1, depth)
    ensures MarkKept(all + [prior[i].Retain(addrs)], pos, |all| - 1, depth, addrs)
  {
    assert CoversAt(prior, i, pos, depth);
    KeepMark(depth, prior, i, all, pos, |all| - 1, addrs);
  }

  /** A mark that the kept bridges cover is covered by the next one as well. */
  lemma KeepMark<H>(depth: nat, prior: seq<MerkleBridge<H>>, i: nat, all: seq<MerkleBridge<H>>, m: nat, index: nat,
                    addrs: set<Address>)
    requires i < |prior| && all != [] && index < |all| && all[index].Position() == m && FutureAddrs(m, depth) <= addrs
    requires SizeAt(all, |all|) == SizeAt(prior, i) && CoversAt(prior, i, m, depth) && MarkCovered(all, m, index, depth)
    ensures MarkKept(all + [prior[i].Retain(addrs)], m, index, depth, addrs)
  {
    var next := prior[i].Retain(addrs);
    var more := all + [next];
    RetainCovers(prior[i], m, SizeAt(prior, i), SizeAt(prior, i + 1), depth, addrs);
    assert CoversAt(more, |all|, m, depth);
    forall l | index < l < |all| ensures CoversAt(more, l, m, depth) { assert CoversAt(all, l, m, depth); }
  }

  lemma KeepIndices<H>(prior: seq<MerkleBridge<H>>, saved: map<nat, nat>, gcLen: nat, i: nat, all: seq<MerkleBridge<H>>,
                       renamed: map<nat, nat>, merged: nat, depth: nat, addrs: set<Address>, next: MerkleBridge<H>)
    requires 0 < i < |prior| && merged + |all| == i && all != []
    requires all[|all| - 1].Position() == prior[i - 1].Position() && next.Position() == prior[i].Position()
    requires SavedOk(prior, saved) && CollectMarks(depth, saved, i, all, renamed, addrs)
    requires CollectIndices(prior, saved, gcLen, i, all, renamed, merged)
    requires var pos := prior[i - 1].Position(); (pos in saved ==> saved[pos] == i - 1) && (pos in saved || i > gcLen)
    ensures CollectIndices(prior, saved, gcLen, i + 1, all + [next],
                           Renumber(renamed, prior[i - 1].Position(), merged), merged)
  {
    hide SavedOk;
    var all', renamed' := all + [next], Renumber(renamed, prior[i - 1].Position(), merged);
    forall j: nat | gcLen < j <= i + 1 ensures Aligned(all', prior, merged, j) {
      if j <= i { assert Aligned(all, prior, merged, j); }
      AlignedNext(all, prior, merged, i, next, j);
    }
    AlignedNext(all, prior, merged, i, next, gcLen);
    RenamedBelow(prior, saved, i, all, renamed, merged, depth, addrs);
  }

  lemma RenamedBelow<H>(prior: seq<MerkleBridge<H>>, saved: map<nat, nat>, i: nat, all: seq<MerkleBridge<H>>,
                        renamed: map<nat, nat>,
                        merged: nat, depth: nat, addrs: set<Address>)
    requires 0 < i < |prior| && merged + |all| == i && SavedOk(prior, saved)
      && CollectMarks(depth, saved, i, all, renamed, addrs)
    requires var pos := prior[i - 1].Position();
             (pos in saved ==> saved[pos] == i - 1) && (pos in renamed ==> merged <= renamed[pos])
    ensures var renamed' := Renumber(renamed, prior[i - 1].Position(), merged);
            forall m | m in saved && saved[m] < i :: renamed'[m] < |all|
  {
    forall m | m in saved && saved[m] < i ensures Renumber(renamed, prior[i - 1].Position(), merged)[m] < |all| {
      if saved[m] < i - 1 { assert MarkKept(all, m, renamed[m], depth, addrs); }
    }
  }

  /** A step that keeps the current bridge. */
  lemma AlignedNext<H>(all: seq<MerkleBridge<H>>, prior: seq<MerkleBridge<H>>, merged: nat, i: nat,
                       next: MerkleBridge<H>, j: nat)
    requires 0 < i < |prior| && merged + |all| == i && next.Position() == prior[i].Position()
    ensures j <= i ==> (Aligned(all + [next], prior, merged, j) <==> Aligned(all, prior, merged, j))
    ensures merged <= j <= i ==> SizeAt(all + [next], j - merged) == SizeAt(all, j - merged)
    ensures j == i + 1 ==> Aligned(all + [next], prior, merged, j)
  {
  }

  lemma CollectKeeps<H>(hs: Hashable<H>, depth: nat, leaves: seq<H>, prior: seq<MerkleBridge<H>>, saved: map<nat, nat>,
                        gcLen: nat,
                        i: nat, all: seq<MerkleBridge<H>>, renamed: map<nat, nat>, merged: nat, addrs: set<Address>)
    requires ChainOk(hs, leaves, prior) && SavedOk(prior, saved)
    requires forall m | m in saved :: MarkCovered(prior, m, saved[m], depth)
    requires CollectOk(hs, depth, leaves, prior, saved, gcLen, i, all, renamed, merged, addrs)
    requires i < |prior| && MustKeep(all[|all| - 1], saved, i, gcLen)
    ensures var pos := all[|all| - 1].Position();
            var addrs' := addrs + FutureAddrs(pos, depth);
            && (pos in renamed ==> merged <= renamed[pos])
            && CollectOk(hs, depth, leaves, prior, saved, gcLen, i + 1, all + [prior[i].Retain(addrs')],
                         Renumber(renamed, pos, merged), merged, addrs')
  {
    var pos := all[|all| - 1].Position();
    var addrs' := addrs + FutureAddrs(pos, depth);
    var next := prior[i].Retain(addrs');
    if pos in saved { SavedIndex(hs, leaves, prior, saved, pos, i - 1); }
    assert LinkOk(hs, leaves, prior, i);
    RetainOk(hs, leaves, SizeAt(prior, i), SizeAt(prior, i + 1), prior[i], addrs');
    forall l | 0 <= l < |all + [next]| ensures LinkOk(hs, leaves, all + [next], l) {
      if l < |all| { assert LinkOk(hs, leaves, all, l); }
    }
    KeepMarks(depth, prior, saved, i, all, renamed, merged, addrs, addrs');
    KeepIndices(prior, saved, gcLen, i, all, renamed, merged, depth, addrs, next);
  }

  lemma MergeMarks<H>(hs: Hashable<H>, leaves: seq<H>, depth: nat, prior: seq<MerkleBridge<H>>,
                      saved: map<nat, nat>, i: nat,
                      all: seq<MerkleBridge<H>>, renamed: map<nat, nat>, addrs: set<Address>, fused: MerkleBridge<H>)
    requires 0 < i < |prior| && all != [] && all[|all| - 1].Position() == prior[i - 1].Position()
      && prior[i - 1].Position() !in saved
    requires LinkOk(hs, leaves, prior, i) && LinkOk(hs, leaves, all, |all| - 1)
    requires SavedOk(prior, saved) && CollectMarks(depth, saved, i, all, renamed, addrs)
    requires forall m | m in saved :: MarkCovered(prior, m, saved[m], depth)
    requires all[|all| - 1].Fuse(prior[i]) == Ok(fused)
    ensures CollectMarks(depth, saved, i + 1, all[..|all| - 1] + [fused.Retain(addrs)], renamed, addrs)
  {
    var last := |all| - 1;
    var all' := all[..last] + [fused.Retain(addrs)];
    assert forall l | 0 <= l <= last :: SizeAt(all', l) == SizeAt(all, l);
    forall m | m in saved && saved[m] < i ensures MarkKept(all', m, renamed[m], depth, addrs) {
      assert saved[m] != i - 1;
      assert MarkKept(all, m, renamed[m], depth, addrs);
      assert CoversAt(prior, i, m, depth) && CoversAt(all, last, m, depth);
      FuseOk(hs, leaves, SizeAt(all, last), SizeAt(prior, i), SizeAt(prior, i + 1), all[last], prior[i]);
      RetainCovers(fused, m, SizeAt(all, last), SizeAt(prior, i + 1), depth, addrs);
      assert CoversAt(all', last, m, depth);
      forall l | renamed[m] < l < last ensures CoversAt(all', l, m, depth) {
        assert CoversAt(all, l, m, depth);
      }
    }
  }

  lemma MergeIndices<H>(prior: seq<MerkleBridge<H>>, saved: map<nat, nat>, gcLen: nat, i: nat,
                        all: seq<MerkleBridge<H>>,
                        renamed: map<nat, nat>, merged: nat, depth: nat, addrs: set<Address>, next: MerkleBridge<H>)
    requires 0 < i < |prior| && merged + |all| == i && all != [] && i <= gcLen
    requires all[|all| - 1].Position() == prior[i - 1].Position() && prior[i - 1].Position() !in saved
      && next.Position() == prior[i].Position()
    requires SizeAt(all, |all| - 1) < SizeAt(all, |all|)
    requires SavedOk(prior, saved) && CollectMarks(depth, saved, i, all, renamed, addrs)
    ensures CollectIndices(prior, saved, gcLen, i + 1, all[..|all| - 1] + [next], renamed, merged + 1)
  {
    var all' := all[..|all| - 1] + [next];
    assert SizeAt(all', |all| - 1) == SizeAt(all, |all| - 1);
    forall m | m in saved && saved[m] < i ensures renamed[m] < |all| - 1 {
      assert saved[m] != i - 1;
      assert MarkKept(all, m, renamed[m], depth, addrs);
    }
  }

  /** A step that fuses the current bridge into the next one. */
  lemma CollectMerges<H>(hs: Hashable<H>, depth: nat, leaves: seq<H>, prior: seq<MerkleBridge<H>>, saved: map<nat, nat>,
                         gcLen: nat,
                         i: nat, all: seq<MerkleBridge<H>>, renamed: map<nat, nat>, merged: nat, addrs: set<Address>)
    requires ChainOk(hs, leaves, prior) && SavedOk(prior, saved)
    requires forall m | m in saved :: MarkCovered(prior, m, saved[m], depth)
    requires CollectOk(hs, depth, leaves, prior, saved, gcLen, i, all, renamed, merged, addrs)
    requires i < |prior| && !MustKeep(all[|all| - 1], saved, i, gcLen)
    ensures var fused := all[|all| - 1].Fuse(prior[i]);
            && fused.Ok?
            && CollectOk(hs, depth, leaves, prior, saved, gcLen, i + 1, all[..|all| - 1] + [fused.value.Retain(addrs)],
                         renamed, merged + 1, addrs)
  {
    var last := |all| - 1;
    assert LinkOk(hs, leaves, prior, i) && LinkOk(hs, leaves, all, last);
    FuseOk(hs, leaves, SizeAt(all, last), SizeAt(prior, i), SizeAt(prior, i + 1), all[last], prior[i]);
    var fused := all[last].Fuse(prior[i]).value;
    var next := fused.Retain(addrs);
    RetainOk(hs, leaves, SizeAt(all, last), SizeAt(prior, i + 1), fused, addrs);
    var all' := all[..last] + [next];
    assert forall l | 0 <= l <= last :: SizeAt(all', l) == SizeAt(all, l);
    forall l | 0 <= l < |all'| ensures LinkOk(hs, leaves, all', l) {
      if l < last { assert LinkOk(hs, leaves, all, l); }
    }
    MergeMarks(hs, leaves, depth, prior, saved, i, all, renamed, addrs, fused);
    MergeIndices(prior, saved, gcLen, i, all, renamed, merged, depth, addrs, next);
  }

  lemma CollectStart<H>(hs: Hashable<H>, depth: nat, leaves: seq<H>, prior: seq<MerkleBridge<H>>, saved: map<nat, nat>,
                        gcLen: nat)
    requires prior != [] && ChainOk(hs, leaves, prior) && SavedOk(prior, saved)
    ensures CollectOk(hs, depth, leaves, prior, saved, gcLen, 1, [prior[0]], saved, 0, {})
  {
    var all := [prior[0]];
    assert LinkOk(hs, leaves, prior, 0);
    assert LinkOk(hs, leaves, all, 0);
    assert SizeAt(all, 1) == SizeAt(prior, 1);
  }

  function Shifted(checkpoints: seq<Checkpoint>, merged: nat): (r: seq<Checkpoint>)
    requires forall k | 0 <= k < |checkpoints| :: merged <= checkpoints[k].bridgesLen
    ensures |r| == |checkpoints|
    ensures forall k | 0 <= k < |r| :: r[k] == checkpoints[k].(bridgesLen := checkpoints[k].bridgesLen - merged)
  {
    seq(|checkpoints|, k requires 0 <= k
        < |checkpoints| => checkpoints[k].(bridgesLen := checkpoints[k].bridgesLen - merged))
  }

  /** Whether garbage collection leaves the oldest checkpoint's own bridge in place. */
  predicate OldestSafe<H>(prior: seq<MerkleBridge<H>>, saved: map<nat, nat>, gcLen: nat)
  {
    gcLen == 0 || gcLen >= |prior| || prior[gcLen - 1].Position() in saved
  }

  lemma CollectFinish<H>(hs: Hashable<H>, depth: nat, max: nat, leaves: seq<H>, prior: seq<MerkleBridge<H>>,
                         current: Option<MerkleBridge<H>>,
                         saved: map<nat, nat>, checkpoints: seq<Checkpoint>, all: seq<MerkleBridge<H>>,
                         renamed: map<nat, nat>,
                         merged: nat, addrs: set<Address>)
    requires TreeOk(hs, depth, max, leaves, prior, current, saved, checkpoints) && checkpoints != [] && prior != []
    requires CollectOk(hs, depth, leaves, prior, saved, checkpoints[0].bridgesLen, |prior|, all, renamed, merged, addrs)
    ensures var gcLen, pos := checkpoints[0].bridgesLen, all[|all| - 1].Position();
            && (pos in renamed ==> merged <= renamed[pos])
            && (forall k | 0 <= k < |checkpoints| :: merged <= checkpoints[k].bridgesLen)
            && TreeOk(hs, depth, max, leaves, all, current, Renumber(renamed, pos, merged),
                      Shifted(checkpoints, merged))
            && (forall k | 0 <= k < |checkpoints| && checkpoints[k].bridgesLen > gcLen ::
                Aligned(all, prior, merged, checkpoints[k].bridgesLen))
            && SizeAt(all, gcLen - merged) <= SizeAt(prior, gcLen)
            && (Aligned(all, prior, merged, gcLen) <==> OldestSafe(prior, saved, gcLen))
  {
    hide CoverOk, CurrentOk, MarkCovered, Root;
    var gcLen, pos := checkpoints[0].bridgesLen, all[|all| - 1].Position();
    assert LinkOk(hs, leaves, all, |all| - 1);
    if pos in saved { SavedIndex(hs, leaves, prior, saved, pos, |prior| - 1); }
    assert forall k | 0 <= k < |checkpoints| :: gcLen <= checkpoints[k].bridgesLen;
    var renamed', shifted := Renumber(renamed, pos, merged), Shifted(checkpoints, merged);
    CollectFinishMarks(hs, depth, leaves, prior, current, saved, all, renamed, merged, addrs);
    CollectFinishCheckpoints(hs, depth, leaves, prior, saved, checkpoints, all, renamed, merged, addrs);
  }

  lemma CollectFinishMarks<H>(hs: Hashable<H>, depth: nat, leaves: seq<H>, prior: seq<MerkleBridge<H>>,
                              current: Option<MerkleBridge<H>>,
                              saved: map<nat, nat>, all: seq<MerkleBridge<H>>, renamed: map<nat, nat>, merged: nat,
                              addrs: set<Address>)
    requires prior != [] && CurrentOk(hs, leaves, prior, current) && SavedOk(prior, saved)
      && CoverOk(depth, |leaves|, prior, current, saved)
    requires all != [] && merged + |all| == |prior| && all[|all| - 1].Position() == prior[|prior| - 1].Position()
    requires CollectMarks(depth, saved, |prior|, all, renamed, addrs)
    requires var pos := prior[|prior| - 1].Position(); pos in saved ==> saved[pos] == |prior| - 1
    ensures var renamed' := Renumber(renamed, prior[|prior| - 1].Position(), merged);
            CurrentOk(hs, leaves, all, current) && SavedOk(all, renamed')
              && CoverOk(depth, |leaves|, all, current, renamed')
  {
    var renamed' := Renumber(renamed, prior[|prior| - 1].Position(), merged);
    forall m | m in renamed'
      ensures renamed'[m] < |all| && all[renamed'[m]].Position() == m && MarkCovered(all, m, renamed'[m], depth)
    {
      if saved[m] < |prior| - 1 {
        assert MarkKept(all, m, renamed[m], depth, addrs);
      }
    }
  }

  lemma CollectFinishCheckpoints<H>(hs: Hashable<H>, depth: nat, leaves: seq<H>, prior: seq<MerkleBridge<H>>,
                                    saved: map<nat, nat>,
                                    checkpoints: seq<Checkpoint>, all: seq<MerkleBridge<H>>, renamed: map<nat, nat>,
                                    merged: nat, addrs: set<Address>)
    requires prior != [] && SavedOk(prior, saved) && CheckpointsOk(|prior|, saved, checkpoints) && checkpoints != []
    requires all != [] && merged + |all| == |prior| && all[|all| - 1].Position() == prior[|prior| - 1].Position()
    requires CollectMarks(depth, saved, |prior|, all, renamed, addrs)
    requires CollectIndices(prior, saved, checkpoints[0].bridgesLen, |prior|, all, renamed, merged)
    requires var pos := prior[|prior| - 1].Position(); pos in saved ==> saved[pos] == |prior| - 1
    ensures forall k | 0 <= k < |checkpoints| :: merged <= checkpoints[k].bridgesLen
    ensures CheckpointsOk(|all|, Renumber(renamed, prior[|prior| - 1].Position(), merged), Shifted(checkpoints, merged))
  {
    var gcLen, pos := checkpoints[0].bridgesLen, prior[|prior| - 1].Position();
    forall k | 0 <= k < |checkpoints|
      ensures gcLen <= checkpoints[k].bridgesLen && merged <= checkpoints[k].bridgesLen
    {
    }
    var renamed' := Renumber(renamed, pos, merged);
    assert renamed'.Keys == saved.Keys;
    forall k, m | 0 <= k < |checkpoints| && m in saved && renamed'[m] + merged >= checkpoints[k].bridgesLen
      ensures saved[m] >= checkpoints[k].bridgesLen
    {
      FinishedMark(depth, prior, saved, all, renamed, merged, addrs, gcLen, checkpoints[k].bridgesLen, m);
    }
    ShiftedOk(|prior|, saved, checkpoints, |all|, renamed', merged);
  }

  /** Lowering all lengths alike keeps the checkpoints in order. */
  lemma ShiftedOk(len: nat, saved: map<nat, nat>, checkpoints: seq<Checkpoint>, newLen: nat, renamed: map<nat, nat>,
                  merged: nat)
    requires CheckpointsOk(len, saved, checkpoints) && merged + newLen == len && renamed.Keys == saved.Keys
    requires forall k | 0 <= k < |checkpoints| :: merged <= checkpoints[k].bridgesLen
    requires forall k, m | 0 <= k < |checkpoints| && m in saved && renamed[m] + merged >= checkpoints[k].bridgesLen ::
      saved[m] >= checkpoints[k].bridgesLen
    ensures CheckpointsOk(newLen, renamed, Shifted(checkpoints, merged))
  {
    var shifted := Shifted(checkpoints, merged);
    forall k: nat, m | k < |shifted| && m in renamed && renamed[m] >= shifted[k].bridgesLen
      ensures MarkedFrom(shifted, k, m)
    {
      assert m in renamed.Keys && saved[m] >= checkpoints[k].bridgesLen;
      ShiftedMark(checkpoints, merged, k, m);
    }
  }

  lemma ShiftedMark(checkpoints: seq<Checkpoint>, merged: nat, k: nat, m: nat)
    requires forall k | 0 <= k < |checkpoints| :: merged <= checkpoints[k].bridgesLen
    requires MarkedFrom(checkpoints, k, m)
    ensures MarkedFrom(Shifted(checkpoints, merged), k, m)
  {
    MarkedStays(checkpoints, Shifted(checkpoints, merged), 0, k, m);
  }

  /** A mark that lies after a checkpoint once bridges are renumbered lay after it before. */
  lemma FinishedMark<H>(depth: nat, prior: seq<MerkleBridge<H>>, saved: map<nat, nat>, all: seq<MerkleBridge<H>>,
                        renamed: map<nat, nat>,
                        merged: nat, addrs: set<Address>, gcLen: nat, bridgesLen: nat, m: nat)
    requires prior != [] && SavedOk(prior, saved) && all != [] && merged + |all| == |prior| && gcLen <= bridgesLen
    requires CollectMarks(depth, saved, |prior|, all, renamed, addrs)
    requires CollectIndices(prior, saved, gcLen, |prior|, all, renamed, merged)
    requires var pos := prior[|prior| - 1].Position(); pos in saved ==> saved[pos] == |prior| - 1
    requires merged <= bridgesLen && m in saved && m in Renumber(renamed, prior[|prior| - 1].Position(), merged)
    requires Renumber(renamed, prior[|prior| - 1].Position(), merged)[m] + merged >= bridgesLen
    ensures saved[m] >= bridgesLen
  {
    if saved[m] < |prior| - 1 { assert MarkKept(all, m, renamed[m], depth, addrs); }
  }

  // ---------- What collection leaves ----------

  /** A bridge that collection keeps: the last one, one of a marked leaf, or one after the oldest checkpoint's. */
  predicate Keeps<H>(prior: seq<MerkleBridge<H>>, saved: map<nat, nat>, gcLen: nat, j: nat)
  {
    j < |prior| && (j + 1 == |prior| || prior[j].Position() in saved || gcLen <= j)
  }

  /** The addresses whose hashes some bridge before the given one will take from later leaves. */
  function FutureOf<H>(all: seq<MerkleBridge<H>>, l: nat, depth: nat): set<Address>
    requires l <= |all|
  {
    if l == 0 then {} else FutureOf(all, l - 1, depth) + FutureAddrs(all[l - 1].Position(), depth)
  }

  /** The last bridge of a run that holds a hash for an address. */
  ghost predicate LastHolder<H>(prior: seq<MerkleBridge<H>>, from: nat, to: nat, addr: Address, j: nat)
    requires to <= |prior|
  {
    from <= j < to && addr in prior[j].ommers && forall k | j < k < to :: addr !in prior[k].ommers
  }

  ghost predicate Held<H>(prior: seq<MerkleBridge<H>>, from: nat, to: nat, addr: Address)
    requires to <= |prior|
  {
    exists j :: LastHolder(prior, from, to, addr, j)
  }

  /** The bridge that a run of bridges becomes. It leads from where the first starts to the leaf of the last; of their
      hashes and of the addresses the last one tracks it keeps those that a bridge kept before will take. Only the first
      bridge of all is left as it is, if it is a run of its own. */
  ghost predicate RunBecomes<H>(prior: seq<MerkleBridge<H>>, from: nat, to: nat, future: set<Address>,
                                b: MerkleBridge<H>)
    requires from < to <= |prior|
  {
    var asItWas := to == 1;
    && b.priorPosition == prior[from].priorPosition && b.frontier == prior[to - 1].frontier
    && (forall a :: a in b.tracking <==> a in prior[to - 1].tracking && (asItWas || a.Sibling() in future))
    && (forall a :: a in b.ommers <==> (asItWas || a in future) && Held(prior, from, to, a))
    && (forall a, j: nat | a in b.ommers && LastHolder(prior, from, to, a, j) :: b.ommers[a] == prior[j].ommers[a])
  }

  /** The bridges after `i` of them were collected: `ends` lists where the runs end. */
  ghost predicate Runs<H>(prior: seq<MerkleBridge<H>>, saved: map<nat, nat>, gcLen: nat, depth: nat, i: nat,
                          all: seq<MerkleBridge<H>>, ends: seq<nat>)
  {
    && 0 < i <= |prior| && |ends| == |all| > 0 && ends[|ends| - 1] == i - 1
    && (forall l, k | 0 <= l < k < |ends| :: ends[l] < ends[k])
    && (forall j: nat | j < i - 1 :: j in ends <==> Keeps(prior, saved, gcLen, j))
    && (forall l | 0 <= l < |all| :: RunAt(prior, depth, all, ends, l))
  }

  ghost predicate RunAt<H>(prior: seq<MerkleBridge<H>>, depth: nat, all: seq<MerkleBridge<H>>, ends: seq<nat>, l: nat)
    requires l < |all| == |ends|
  {
    var from := if l == 0 then 0 else ends[l - 1] + 1;
    from <= ends[l] < |prior| && RunBecomes(prior, from, ends[l] + 1, FutureOf(all, l, depth), all[l])
  }

  /** What collection leaves: one bridge for each run that ends in a bridge to keep, in order. */
  ghost predicate CollectedBridges<H>(prior: seq<MerkleBridge<H>>, saved: map<nat, nat>, gcLen: nat, depth: nat,
                                      all: seq<MerkleBridge<H>>, ends: seq<nat>)
  {
    && |ends| == |all| && (forall l, k | 0 <= l < k < |ends| :: ends[l] < ends[k])
    && (forall j: nat :: j in ends <==> Keeps(prior, saved, gcLen, j))
    && (forall l | 0 <= l < |all| :: RunAt(prior, depth, all, ends, l))
  }

  lemma {:induction false} FutureSame<H>(a: seq<MerkleBridge<H>>, b: seq<MerkleBridge<H>>, l: nat, depth: nat)
    requires l <= |a| && l <= |b| && forall k | 0 <= k < l :: a[k].Position() == b[k].Position()
    ensures FutureOf(a, l, depth) == FutureOf(b, l, depth)
  {
    if l > 0 { FutureSame(a, b, l - 1, depth); }
  }

  lemma RunStarts<H>(prior: seq<MerkleBridge<H>>, saved: map<nat, nat>, gcLen: nat, depth: nat)
    requires prior != []
    ensures Runs(prior, saved, gcLen, depth, 1, [prior[0]], [0]) && FutureOf([prior[0]], 0, depth) == {}
  {
    var b := prior[0];
    forall a ensures a in b.ommers <==> Held(prior, 0, 1, a) {
      if a in b.ommers { assert LastHolder(prior, 0, 1, a, 0); }
    }
    assert RunAt(prior, depth, [b], [0], 0);
  }

  /** One more bridge in a run. */
  lemma HolderNext<H>(prior: seq<MerkleBridge<H>>, from: nat, to: nat, addr: Address)
    requires from <= to < |prior|
    ensures Held(prior, from, to + 1, addr) <==> addr in prior[to].ommers || Held(prior, from, to, addr)
    ensures forall j :: LastHolder(prior, from, to + 1, addr, j) <==>
      if addr in prior[to].ommers then j == to else LastHolder(prior, from, to, addr, j)
  {
    forall j ensures LastHolder(prior, from, to + 1, addr, j) <==>
      if addr in prior[to].ommers then j == to else LastHolder(prior, from, to, addr, j)
    {
    }
    if addr in prior[to].ommers {
      assert LastHolder(prior, from, to + 1, addr, to);
    } else {
      if Held(prior, from, to + 1, addr) {
        var j: nat :| LastHolder(prior, from, to + 1, addr, j);
        assert LastHolder(prior, from, to, addr, j);
      }
      if Held(prior, from, to, addr) {
        var j: nat :| LastHolder(prior, from, to, addr, j);
        assert LastHolder(prior, from, to + 1, addr, j);
      }
    }
  }

  /** The bridge of a longer run. */
  lemma RunLonger<H>(prior: seq<MerkleBridge<H>>, from: nat, to: nat, future: set<Address>, b: MerkleBridge<H>,
                     fused: MerkleBridge<H>)
    requires from < to < |prior| && RunBecomes(prior, from, to, future, b) && b.Fuse(prior[to]) == Ok(fused)
    ensures RunBecomes(prior, from, to + 1, future, fused.Retain(future))
  {
    hide Held;
    var c := fused.Retain(future);
    forall a ensures a in c.ommers <==> a in future && Held(prior, from, to + 1, a) {
      HolderNext(prior, from, to, a);
    }
    forall a, j: nat | a in c.ommers && LastHolder(prior, from, to + 1, a, j)
      ensures c.ommers[a] == prior[j].ommers[a]
    {
      HolderNext(prior, from, to, a);
    }
  }

  /** The bridge of a run of one, cut to the addresses that will be taken. */
  lemma RunOfOne<H>(prior: seq<MerkleBridge<H>>, i: nat, future: set<Address>)
    requires 0 < i < |prior|
    ensures RunBecomes(prior, i, i + 1, future, prior[i].Retain(future))
  {
    var b := prior[i].Retain(future);
    forall a ensures Held(prior, i, i + 1, a) <==> a in prior[i].ommers {
      if a in prior[i].ommers { assert LastHolder(prior, i, i + 1, a, i); }
    }
  }

  /** The current bridge is kept, and the next one starts a run. */
  lemma RunKeeps<H>(prior: seq<MerkleBridge<H>>, saved: map<nat, nat>, gcLen: nat, depth: nat, i: nat,
                    all: seq<MerkleBridge<H>>, ends: seq<nat>)
    requires Runs(prior, saved, gcLen, depth, i, all, ends) && i < |prior| && Keeps(prior, saved, gcLen, i - 1)
    ensures var addrs := FutureOf(all, |all|, depth);
            && Runs(prior, saved, gcLen, depth, i + 1, all + [prior[i].Retain(addrs)], ends + [i])
            && FutureOf(all + [prior[i].Retain(addrs)], |all|, depth) == addrs
  {
    hide RunBecomes, FutureAddrs, Held;
    var addrs := FutureOf(all, |all|, depth);
    var more, to := all + [prior[i].Retain(addrs)], ends + [i];
    FutureSame(all, more, |all|, depth);
    RunOfOne(prior, i, addrs);
    forall l | 0 <= l < |more| ensures RunAt(prior, depth, more, to, l) {
      if l < |all| {
        assert RunAt(prior, depth, all, ends, l);
        FutureSame(all, more, l, depth);
      }
    }
    forall j: nat | j < i ensures j in to <==> Keeps(prior, saved, gcLen, j) {
      if j == i - 1 { assert to[|all| - 1] == j; } else { assert j in to <==> j in ends; }
    }
  }

  /** The current bridge is fused into the next one. */
  lemma RunFuses<H>(prior: seq<MerkleBridge<H>>, saved: map<nat, nat>, gcLen: nat, depth: nat, i: nat,
                    all: seq<MerkleBridge<H>>, ends: seq<nat>, fused: MerkleBridge<H>)
    requires Runs(prior, saved, gcLen, depth, i, all, ends) && i < |prior| && !Keeps(prior, saved, gcLen, i - 1)
    requires all[|all| - 1].Fuse(prior[i]) == Ok(fused)
    ensures var last := |all| - 1;
            var addrs := FutureOf(all, last, depth);
            && Runs(prior, saved, gcLen, depth, i + 1, all[..last] + [fused.Retain(addrs)], ends[..last] + [i])
            && FutureOf(all[..last] + [fused.Retain(addrs)], last, depth) == addrs
  {
    hide RunBecomes, FutureAddrs, FutureOf;
    var last := |all| - 1;
    var addrs := FutureOf(all, last, depth);
    var more, to := all[..last] + [fused.Retain(addrs)], ends[..last] + [i];
    var from := if last == 0 then 0 else ends[last - 1] + 1;
    FutureSame(all, more, last, depth);
    assert RunAt(prior, depth, all, ends, last);
    RunLonger(prior, from, i, addrs, all[last], fused);
    forall l | 0 <= l < |more| ensures RunAt(prior, depth, more, to, l) {
      if l < last {
        assert RunAt(prior, depth, all, ends, l);
        FutureSame(all, more, l, depth);
      }
    }
    forall j: nat | j < i ensures j in to <==> Keeps(prior, saved, gcLen, j) {
      if j in to { var l :| 0 <= l < |to| && to[l] == j; assert l < last && ends[l] == j; }
      if j in ends && j < i - 1 { var l :| 0 <= l < |ends| && ends[l] == j; assert l < last && to[l] == j; }
    }
  }

  lemma RunsEnd<H>(prior: seq<MerkleBridge<H>>, saved: map<nat, nat>, gcLen: nat, depth: nat,
                   all: seq<MerkleBridge<H>>, ends: seq<nat>)
    requires prior != [] && Runs(prior, saved, gcLen, depth, |prior|, all, ends)
    ensures CollectedBridges(prior, saved, gcLen, depth, all, ends)
  {
    forall l | 0 <= l < |ends| ensures ends[l] < |prior| { assert RunAt(prior, depth, all, ends, l); }
    forall j: nat ensures j in ends <==> Keeps(prior, saved, gcLen, j) {
      if j + 1 == |prior| { assert ends[|ends| - 1] == j; }
    }
  }

  /** The loop of `garbage_collect` over the prior bridges. */
  method Collect<H>(prior: seq<MerkleBridge<H>>, saved: map<nat, nat>, gcLen: nat, depth: nat, ghost hs: Hashable<H>,
                    ghost leaves: seq<H>)
    returns (all: seq<MerkleBridge<H>>, renamed: map<nat, nat>, merged: nat, ghost addrs: set<Address>,
             ghost ends: seq<nat>)
    requires prior != [] && ChainOk(hs, leaves, prior) && SavedOk(prior, saved)
    requires forall m | m in saved :: MarkCovered(prior, m, saved[m], depth)
    ensures CollectOk(hs, depth, leaves, prior, saved, gcLen, |prior|, all, renamed, merged, addrs)
    ensures merged + |all| == |prior| && renamed.Keys == saved.Keys
    ensures CollectedBridges(prior, saved, gcLen, depth, all, ends)
  {
    hide ChainOk, SavedOk, MarkCovered, FutureAddrs, CollectIndices, RunAt;
    all, renamed, merged := [prior[0]], saved, 0;
    var ommerAddrs: set<Address> := {};
    var i := 1;
    ends := [0];
    CollectStart(hs, depth, leaves, prior, saved, gcLen);
    RunStarts(prior, saved, gcLen, depth);
    while i < |prior|
      invariant CollectOk(hs, depth, leaves, prior, saved, gcLen, i, all, renamed, merged, ommerAddrs)
      invariant Runs(prior, saved, gcLen, depth, i, all, ends) && ommerAddrs == FutureOf(all, |all| - 1, depth)
    {
      var cur := all[|all| - 1];
      if MustKeep(cur, saved, i, gcLen) {
        CollectKeeps(hs, depth, leaves, prior, saved, gcLen, i, all, renamed, merged, ommerAddrs);
        RunKeeps(prior, saved, gcLen, depth, i, all, ends);
        ends := ends + [i];
        renamed := Renumber(renamed, cur.Position(), merged);
        ommerAddrs := ommerAddrs + FutureAddrs(cur.Position(), depth);
        all := all + [prior[i].Retain(ommerAddrs)];
      } else {
        CollectMerges(hs, depth, leaves, prior, saved, gcLen, i, all, renamed, merged, ommerAddrs);
        merged := merged + 1;
        var fused := cur.Fuse(prior[i]).value;
        RunFuses(prior, saved, gcLen, depth, i, all, ends, fused);
        ends := ends[..|all| - 1] + [i];
        all := all[..|all| - 1] + [fused.Retain(ommerAddrs)];
      }
      i := i + 1;
    }
    addrs := ommerAddrs;
    RunsEnd(prior, saved, gcLen, depth, all, ends);
  }

  /** Only the size of a checkpoint at the oldest bridge boundary may have changed. */
  ghost predicate CollectedPoints(before: seq<Point>, after: seq<Point>, checkpoints: seq<Checkpoint>)
    requires |before| == |after| == |checkpoints| > 0
  {
    forall k | 0 <= k < |checkpoints| ::
      && after[k] == before[k].(size := after[k].size) && after[k].size <= before[k].size
      && (checkpoints[k].bridgesLen != checkpoints[0].bridgesLen ==> after[k] == before[k])
  }

  /** What collection does to the recorded checkpoint sizes. */
  lemma CollectPoints<H>(prior: seq<MerkleBridge<H>>, all: seq<MerkleBridge<H>>, checkpoints: seq<Checkpoint>,
                         merged: nat)
    requires checkpoints != [] && forall k | 0 <= k < |checkpoints| :: merged <= checkpoints[k].bridgesLen
    requires forall k | 0 <= k < |checkpoints| && checkpoints[k].bridgesLen != checkpoints[0].bridgesLen
               :: Aligned(all, prior, merged, checkpoints[k].bridgesLen)
    requires SizeAt(all, checkpoints[0].bridgesLen - merged) <= SizeAt(prior, checkpoints[0].bridgesLen)
    ensures var before, after := Points(prior, checkpoints), Points(all, Shifted(checkpoints, merged));
            && CollectedPoints(before, after, checkpoints)
            && (after == before <==> Aligned(all, prior, merged, checkpoints[0].bridgesLen))
  {
  }

  /** All bridge counts of the checkpoints are lowered alike, and nothing else about them changes. */
  ghost predicate ShiftedBy(before: seq<Checkpoint>, after: seq<Checkpoint>, merged: nat)
  {
    && |after| == |before|
    && forall k | 0 <= k < |after| :: after[k].bridgesLen + merged == before[k].bridgesLen
         && after[k] == before[k].(bridgesLen := after[k].bridgesLen)
  }

  /** The bridges, marks and checkpoints after collection. */
  method Collected<H>(prior: seq<MerkleBridge<H>>, ghost current: Option<MerkleBridge<H>>, saved: map<nat, nat>,
                      checkpoints: seq<Checkpoint>,
                      depth: nat, ghost max: nat, ghost hs: Hashable<H>, ghost leaves: seq<H>)
    returns (all: seq<MerkleBridge<H>>, kept: map<nat, nat>, shifted: seq<Checkpoint>, ghost ends: seq<nat>)
    requires TreeOk(hs, depth, max, leaves, prior, current, saved, checkpoints) && checkpoints != [] && prior != []
    ensures CollectedBridges(prior, saved, checkpoints[0].bridgesLen, depth, all, ends)
    ensures |all| <= |prior| && ShiftedBy(checkpoints, shifted, |prior| - |all|)
    ensures TreeOk(hs, depth, max, leaves, all, current, kept, shifted)
    ensures kept.Keys == saved.Keys && |shifted| == |checkpoints|
    ensures CollectedPoints(Points(prior, checkpoints), Points(all, shifted), checkpoints)
    ensures Points(all, shifted) == Points(prior, checkpoints) <==> OldestSafe(prior, saved, checkpoints[0].bridgesLen)
    ensures !OldestSafe(prior, saved, checkpoints[0].bridgesLen) ==>
      Points(all, shifted)[0].size < Points(prior, checkpoints)[0].size
  {
    hide CollectedBridges;
    var fused, renamed, merged, addrs, runs := Collect(prior, saved, checkpoints[0].bridgesLen, depth, hs, leaves);
    all, ends := fused, runs;
    CollectFinish(hs, depth, max, leaves, prior, current, saved, checkpoints, all, renamed, merged, addrs);
    CollectPoints(prior, all, checkpoints, merged);
    kept, shifted := Renumber(renamed, all[|all| - 1].Position(), merged), Shifted(checkpoints, merged);
    RenumberKeys(renamed, all[|all| - 1].Position(), merged);
  }

  lemma RenumberKeys(saved: map<nat, nat>, pos: nat, merged: nat)
    requires pos in saved ==> merged <= saved[pos]
    ensures Renumber(saved, pos, merged).Keys == saved.Keys
  {
  }

  /** The bridges keep the history in order. */
  lemma TreeOrderly<H>(hs: Hashable<H>, depth: nat, max: nat, leaves: seq<H>, prior: seq<MerkleBridge<H>>,
                       current: Option<MerkleBridge<H>>,
                       saved: map<nat, nat>, checkpoints: seq<Checkpoint>)
    requires TreeOk(hs, depth, max, leaves, prior, current, saved, checkpoints) && LateMarks(Points(prior, checkpoints))
    ensures History(leaves, saved.Keys, Points(prior, checkpoints)).Orderly()
  {
    var h := History(leaves, saved.Keys, Points(prior, checkpoints));
    forall j, k | 0 <= j <= k < |checkpoints| ensures h.points[j].size <= h.points[k].size {
      SizesInOrder(hs, leaves, prior, checkpoints[j].bridgesLen, checkpoints[k].bridgesLen);
    }
    forall k | 0 <= k < |checkpoints| ensures h.points[k].size <= |leaves| {
      SizeBounds(hs, leaves, prior, current, checkpoints[k].bridgesLen);
    }
    forall m | m in saved ensures m < |leaves| { SavedBelow(hs, leaves, prior, current, saved, m); }
    forall k: nat, m | k < |checkpoints| && m in saved && h.points[k].size <= m ensures h.RecordedSince(k, m) {
      if saved[m] < checkpoints[k].bridgesLen {
        SizesInOrder(hs, leaves, prior, saved[m] + 1, checkpoints[k].bridgesLen);
      }
      var j :| k <= j < |checkpoints| && m in checkpoints[j].marked;
      assert m in h.points[j].marked;
    }
  }

  lemma SizesInOrder<H>(hs: Hashable<H>, leaves: seq<H>, prior: seq<MerkleBridge<H>>, i: nat, j: nat)
    requires ChainOk(hs, leaves, prior) && i <= j <= |prior|
    ensures SizeAt(prior, i) <= SizeAt(prior, j)
  {
    if i < j { SizesGrow(hs, leaves, prior, i, j); }
  }

  // ---------- The state machine ----------

  lemma PointsAgree<H>(a: seq<MerkleBridge<H>>, b: seq<MerkleBridge<H>>, checkpoints: seq<Checkpoint>)
    requires forall c | c in checkpoints :: SizeAt(a, c.bridgesLen) == SizeAt(b, c.bridgesLen)
    ensures Points(a, checkpoints) == Points(b, checkpoints)
  {
  }

  lemma PointsMark<H>(prior: seq<MerkleBridge<H>>, checkpoints: seq<Checkpoint>, pos: nat)
    ensures Points(prior, MarkNewest(checkpoints, pos)) == MarkLast(Points(prior, checkpoints), pos)
  {
  }

  lemma KeysWithout(saved: map<nat, nat>, gone: set<nat>)
    ensures (saved - gone).Keys == saved.Keys - gone
  {
  }

  lemma MarkedHistory<H>(leaves: seq<H>, saved: map<nat, nat>, points: seq<Point>, pos: nat, index: nat)
    requires pos + 1 == |leaves| && pos !in saved
    ensures History(leaves, saved[pos := index].Keys, MarkLast(points, pos)) ==
      History(leaves, saved.Keys, points).Mark()
  {
    assert saved[pos := index].Keys == saved.Keys + {pos};
  }

  lemma PointsForget<H>(prior: seq<MerkleBridge<H>>, checkpoints: seq<Checkpoint>, pos: nat)
    ensures Points(prior, ForgetNewest(checkpoints, pos)) == ForgetLast(Points(prior, checkpoints), pos)
  {
  }

  lemma PointsAdd<H>(prior: seq<MerkleBridge<H>>, checkpoints: seq<Checkpoint>, c: Checkpoint)
    ensures Points(prior, checkpoints + [c]) == Points(prior, checkpoints) + [PointOf(prior, c)]
  {
  }

  lemma PointsSlice<H>(prior: seq<MerkleBridge<H>>, checkpoints: seq<Checkpoint>, from: nat, to: nat)
    requires from <= to <= |checkpoints|
    ensures Points(prior, checkpoints[from..to]) == Points(prior, checkpoints)[from..to]
  {
  }

  class BridgeTree<H> {
    const hs: Hashable<H>
    const depth: nat
    const maxCheckpoints: nat
    var priorBridges: seq<MerkleBridge<H>>
    var currentBridge: Option<MerkleBridge<H>>
    /** Marked positions, with the index of the bridge whose tip is at that position. */
    var saved: map<nat, nat>
    var checkpoints: seq<Checkpoint>
    /** Memoised root at checkpoint depth 0. */
    var currentRoot: Option<H>
    /** Every leaf of the present tree. */
    ghost var leaves: seq<H>

    ghost predicate Valid()
      reads this
    {
      && TreeOk(hs, depth, maxCheckpoints, leaves, priorBridges, currentBridge, saved, checkpoints)
      && LateMarks(Points(priorBridges, checkpoints))
      && (currentRoot.Some? ==> currentRoot.value == Root(hs, leaves, depth, 0))
    }

    ghost function Abs(): History<H>
      reads this
    {
      History(leaves, saved.Keys, Points(priorBridges, checkpoints))
    }

    /** The history is in order whatever was done, garbage collection included. */
    lemma IsOrderly()
      requires Valid()
      ensures Abs().Orderly()
    {
      TreeOrderly(hs, depth, maxCheckpoints, leaves, priorBridges, currentBridge, saved, checkpoints);
    }

    constructor (hs: Hashable<H>, depth: nat, maxCheckpoints: nat)
      requires maxCheckpoints >= 1
      ensures Valid() && Abs() == History([], {}, [])
      ensures this.hs == hs && this.depth == depth && this.maxCheckpoints == maxCheckpoints
    {
      this.hs, this.depth, this.maxCheckpoints := hs, depth, maxCheckpoints;
      priorBridges, currentBridge, saved, checkpoints, currentRoot, leaves := [], None, map[], [], None, [];
    }

    /** `from_frontier`, for a frontier that is the frontier of some leaf sequence. */
    constructor FromFrontier(hs: Hashable<H>, depth: nat, maxCheckpoints: nat, frontier: NonEmptyFrontier<H>,
                             ghost history: seq<H>)
      requires 0 < |history| <= Pow2(depth) && frontier == FrontierOf(hs, history)
      ensures Valid() && Abs() == History(history, {}, [])
      ensures this.hs == hs && this.depth == depth && this.maxCheckpoints == maxCheckpoints
    {
      this.hs, this.depth, this.maxCheckpoints := hs, depth, maxCheckpoints;
      priorBridges, currentBridge := [], Some(MerkleBridge(None, {}, map[], frontier));
      saved, checkpoints, currentRoot, leaves := map[], [], None, history;
      new;
      assert history[..|history|] == history;
    }

    ghost predicate OneLonger(before: Option<MerkleBridge<H>>, value: H, after: Option<MerkleBridge<H>>)
    {
      match before
      case None => after == Some(NewBridge(value))
      case Some(b) => b.frontier.WellFormed() && after == Some(Bridges.Appended(hs, b, value))
    }

    /** Fails exactly when all `2^depth` leaves are present. */
    method Append(value: H) returns (ok: bool)
      requires Valid()
      modifies this
      ensures Valid()
      ensures ok <==> !old(Abs()).Full(depth)
      ensures Abs() == old(Abs()).Append(depth, value)
      ensures ok ==> OneLonger(old(currentBridge), value, currentBridge)
      ensures priorBridges == old(priorBridges) && (!ok ==> currentBridge == old(currentBridge))
    {
      StartIsShift(depth, 1);
      StartZero(depth);
      match currentBridge
      case Some(bridge) =>
        assert leaves[..|leaves|] == leaves;
        FullIff(depth, |leaves|);
        if IsCompleteSubtree(bridge.Position(), depth) {
          ok := false;
        } else {
          AppendKeeps(hs, depth, maxCheckpoints, leaves, priorBridges, bridge, saved, checkpoints, value);
          var appended := AppendTo(hs, bridge, value);
          currentBridge, currentRoot, leaves := Some(appended), None, leaves + [value];
          ok := true;
        }
      case None =>
        NewBridgeOk(hs, value);
        currentBridge, currentRoot, leaves := Some(NewBridge(value)), None, [value];
        ok := true;
    }

    /** Root at a checkpoint depth; the present root is memoised. */
    method GetRoot(checkpointDepth: nat) returns (root: Option<H>)
      requires Valid()
      modifies this`currentRoot
      ensures Valid()
      ensures root == match Abs().SizeAt(checkpointDepth)
                      case None => None
                      case Some(size) => Some(Root(hs, Take(leaves, size), depth, 0))
    {
      assert leaves[..|leaves|] == leaves;
      if checkpointDepth == 0 {
        if currentRoot.None? {
          currentRoot := Some(RootOfFrontier(|leaves|, if currentBridge.Some? then Some(currentBridge.value.frontier)
                                             else None));
        }
        root := currentRoot;
      } else if |checkpoints| >= checkpointDepth {
        var c := checkpoints[|checkpoints| - checkpointDepth];
        SizeBounds(hs, leaves, priorBridges, currentBridge, c.bridgesLen);
        if c.bridgesLen > 0 { assert LinkOk(hs, leaves, priorBridges, c.bridgesLen - 1); }
        root := Some(RootOfFrontier(SizeAt(priorBridges, c.bridgesLen),
                                    if c.bridgesLen == 0 then None else Some(priorBridges[c.bridgesLen - 1].frontier)));
      } else {
        root := None;
      }
    }

    function RootOfFrontier(ghost size: nat, frontier: Option<NonEmptyFrontier<H>>): (root: H)
      reads this
      requires size <= |leaves| <= Pow2(depth)
      requires frontier == if size == 0 then None else Some(FrontierOf(hs, leaves[..size]))
      ensures root == Root(hs, leaves[..size], depth, 0)
    {
      if frontier.None? then
        RootEmpty(hs, leaves[..size], depth, 0);
        EmptyRoot(hs, depth)
      else
        FrontierRootCorrect(hs, leaves[..size], depth);
        FullIff(depth, size);
        FrontierRoot(hs, frontier.value, Some(depth))
    }

    /** The step shared by `mark` and `checkpoint`: makes the tip the end of the last prior bridge, unless
        it already is, and tracks the current leaf if asked to. */
    method SealTip(track: bool)
      requires Valid() && currentBridge.Some?
      modifies this`priorBridges, this`currentBridge
      ensures Valid() && Abs() == old(Abs())
      ensures currentBridge.Some? && priorBridges != [] && SizeAt(priorBridges, |priorBridges|) == |leaves|
      ensures track ==> Tracks(currentBridge.value.tracking, |leaves| - 1, |leaves|, depth)
      ensures currentBridge.value.tracking == old(currentBridge.value.tracking) +
        if track then {CurrentIncomplete(Address(0, |leaves| - 1))} else {}
    {
      var bridge := currentBridge.value;
      if priorBridges != [] && priorBridges[|priorBridges| - 1].Position() == bridge.Position() {
        if track {
          TrackKeeps(hs, depth, maxCheckpoints, leaves, priorBridges, bridge, saved, checkpoints);
          currentBridge := Some(bridge.TrackCurrentLeaf());
        }
      } else {
        PushKeeps(hs, depth, maxCheckpoints, leaves, priorBridges, bridge, saved, checkpoints, track);
        PointsAgree(priorBridges, priorBridges + [bridge], checkpoints);
        priorBridges, currentBridge := priorBridges + [bridge], Some(bridge.Successor(track));
      }
    }

    /** Marks the current leaf. */
    method Mark() returns (r: Option<nat>)
      requires Valid()
      modifies this
      ensures Valid()
      ensures Abs() == old(Abs()).Mark()
      ensures r == if leaves == [] then None else Some(|leaves| - 1)
    {
      hide LateMarks, CoverOk;
      if currentBridge.None? { return None; }
      var pos := currentBridge.value.Position();
      assert pos == |leaves| - 1;
      SealTip(true);
      if pos !in saved { SaveTip(pos); }
      r := Some(pos);
    }

    /** Saves the bridge that was just sealed, and tells the latest checkpoint. */
    method SaveTip(pos: nat)
      requires Valid() && currentBridge.Some? && pos + 1 == |leaves| && pos !in saved
      requires priorBridges != [] && SizeAt(priorBridges, |priorBridges|) == |leaves|
      requires Tracks(currentBridge.value.tracking, pos, |leaves|, depth)
      modifies this`saved, this`checkpoints
      ensures Valid() && Abs() == old(Abs()).Mark()
    {
      hide Root, ChainOk, CurrentOk, SavedOk, CoverOk, CheckpointsOk, LateMarks, Tracks;
      IsOrderly();
      OrderlyMark(Abs());
      SaveKeeps(hs, depth, maxCheckpoints, leaves, priorBridges, currentBridge.value, saved, checkpoints);
      PointsMark(priorBridges, checkpoints, pos);
      MarkedHistory(leaves, saved, Points(priorBridges, checkpoints), pos, |priorBridges| - 1);
      checkpoints := MarkNewest(checkpoints, pos);
      saved := saved[pos := |priorBridges| - 1];
    }

    method RemoveMark(position: nat) returns (ok: bool)
      requires Valid()
      modifies this
      ensures Valid()
      ensures ok <==> position in old(Abs()).marks
      ensures Abs() == old(Abs()).RemoveMark(position)
    {
      ok := position in saved;
      if ok {
        if checkpoints != [] {
          IsOrderly();
          OrderlyRemoveMark(Abs(), position);
          CheckpointsForget(|priorBridges|, saved, checkpoints, position);
          PointsForget(priorBridges, checkpoints, position);
          checkpoints := ForgetNewest(checkpoints, position);
        } else {
          saved := saved - {position};
        }
      }
    }

    /** Identifiers must increase; the oldest checkpoint is dropped when there are too many. */
    method AddCheckpoint(id: int) returns (ok: bool)
      requires Valid()
      modifies this
      ensures Valid()
      ensures ok <==> old(Abs()).Accepts(id)
      ensures Abs() == old(Abs()).Checkpoint(id, maxCheckpoints)
    {
      ok := checkpoints == [] || checkpoints[|checkpoints| - 1].id < id;
      if !ok { return; }
      if currentBridge.Some? { SealTip(false); }
      PushCheckpoint(id);
    }

    /** Records the sealed bridges under a new checkpoint. */
    method PushCheckpoint(id: int)
      requires Valid() && Abs().Accepts(id) && SizeAt(priorBridges, |priorBridges|) == |leaves|
      modifies this`saved, this`checkpoints
      ensures Valid() && Abs() == old(Abs()).Checkpoint(id, maxCheckpoints)
    {
      ghost var h := Abs();
      IsOrderly();
      OrderlyCheckpoint(h, id, maxCheckpoints);
      CheckpointsPush(|priorBridges|, saved, checkpoints, id);
      var c := Checkpoint(id, |priorBridges|, {}, {});
      PointsAdd(priorBridges, checkpoints, c);
      checkpoints := checkpoints + [c];
      assert Points(priorBridges, checkpoints) == h.points + [Point(id, |leaves|, {}, {})];
      if |checkpoints| > maxCheckpoints {
        CheckpointsDrop(|priorBridges|, saved, checkpoints);
        PointsSlice(priorBridges, checkpoints, 1, |checkpoints|);
        KeysWithout(saved, checkpoints[0].forgotten);
        saved := saved - checkpoints[0].forgotten;
        checkpoints := checkpoints[1..];
      }
    }

    /** Returns to the latest checkpoint and removes it. */
    method Rewind() returns (ok: bool)
      requires Valid()
      modifies this
      ensures Valid()
      ensures ok <==> old(Abs()).points != []
      ensures Abs() == old(Abs()).Rewind()
      ensures ok && leaves != [] ==>
        && priorBridges != [] && priorBridges <= old(priorBridges)
        && currentBridge == Some(priorBridges[|priorBridges| - 1].Successor(|leaves| - 1 in saved))
    {
      hide Root, ChainOk, CurrentOk, SavedOk, CoverOk, LateMarks;
      ok := checkpoints != [];
      if ok {
        IsOrderly();
        OrderlyRewind(Abs());
        RewindKeeps(hs, depth, maxCheckpoints, leaves, priorBridges, currentBridge, saved, checkpoints);
        var c := checkpoints[|checkpoints| - 1];
        var kept, rest := priorBridges[..c.bridgesLen], checkpoints[..|checkpoints| - 1];
        var unmarked := saved - c.marked;
        var tip := if kept == [] then None
          else Some(kept[|kept| - 1].Successor(kept[|kept| - 1].Position() in unmarked));
        PointsSlice(priorBridges, checkpoints, 0, |rest|);
        PointsAgree(priorBridges, kept, rest);
        leaves := leaves[..SizeAt(priorBridges, c.bridgesLen)];
        checkpoints, saved, priorBridges, currentBridge, currentRoot := rest, unmarked, kept, tip, None;
      }
    }

    /** Number of leaves at a given checkpoint, or in the present tree. */
    ghost function BaseSize(base: Option<Checkpoint>): nat
      reads this
    {
      match base case None => |leaves| case Some(c) => SizeAt(priorBridges, c.bridgesLen)
    }

    /** The run of bridges from a saved leaf to the tip. */
    lemma RunToTip(index: nat)
      requires Valid() && index < |priorBridges|
      requires priorBridges[index].Position() in saved && saved[priorBridges[index].Position()] == index
      ensures currentBridge.Some? && currentBridge.value.Position() + 1 == |leaves|
      ensures RunOk(hs, leaves, SizeAt(priorBridges, index + 1), priorBridges[index + 1..] + [currentBridge.value],
                    priorBridges[index].Position(), depth)
    {
      var end := |priorBridges|;
      assert priorBridges[index + 1..] == priorBridges[index + 1..end];
      RunOfChain(hs, leaves, priorBridges, index + 1, end, [currentBridge.value], priorBridges[index].Position(),
                 index, depth);
    }

    /** The run of bridges from a saved leaf to a checkpoint with later bridges. */
    lemma RunToBase(index: nat, end: nat)
      requires Valid() && index + 1 < end <= |priorBridges|
      requires priorBridges[index].Position() in saved && saved[priorBridges[index].Position()] == index
      ensures RunOk(hs, leaves, SizeAt(priorBridges, index + 1), priorBridges[index + 1..end],
                    priorBridges[index].Position(), depth)
    {
      var run := priorBridges[index + 1..end];
      assert run + [] == run;
      RunOfChain(hs, leaves, priorBridges, index + 1, end, [], priorBridges[index].Position(), index, depth);
    }

    /** The run from a saved leaf to the checkpoint right after it: a bridge of its own. */
    lemma RunToItself(index: nat)
      requires Valid() && index < |priorBridges|
      ensures var run := [priorBridges[index].Successor(false)];
              && RunOk(hs, leaves, SizeAt(priorBridges, index + 1), run, priorBridges[index].Position(), depth)
              && FuseAll(run[0], run[1..]) == Ok(run[0]) && run[0].Position() == priorBridges[index].Position()
    {
      assert LinkOk(hs, leaves, priorBridges, index);
      SuccessorOk(hs, leaves, SizeAt(priorBridges, index), SizeAt(priorBridges, index + 1), priorBridges[index],
                  false, depth);
    }

    /** The error says by how many bridges the marked leaf's one comes after the checkpoint. */
    predicate TooDeep(index: nat, bridgesLen: nat, error: WitnessingError)
    {
      error.CheckpointTooDeep? && error.excess + bridgesLen == index + 1
    }

    /** The bridge from a saved leaf to the present tip or to a checkpoint. */
    method SuccessorOf(index: nat, base: Option<Checkpoint>) returns (fused: Result<MerkleBridge<H>, WitnessingError>)
      requires Valid() && index < |priorBridges|
      requires priorBridges[index].Position() in saved && saved[priorBridges[index].Position()] == index
      requires base.Some? ==> base.value.bridgesLen <= |priorBridges|
      ensures BaseSize(base) <= |leaves|
      ensures fused.Ok? <==> priorBridges[index].Position() < BaseSize(base)
      ensures fused.Err? ==> base.Some? && TooDeep(index, base.value.bridgesLen, fused.error)
      ensures fused.Ok? ==>
        var pos, past := priorBridges[index].Position(), leaves[..BaseSize(base)];
        && priorBridges[index].frontier.WellFormed() && fused.value.frontier.WellFormed()
        && fused.value.priorPosition == Some(pos)
        && BridgeWitness(hs, fused.value, depth, priorBridges[index].frontier) == Ok(RefPath(hs, past, pos, depth))
        && PathRoot(hs, leaves[pos], RefPath(hs, past, pos, depth), pos) == Root(hs, past, depth, 0)
    {
      hide Root, RefPath, PathRoot, BridgeWitness, FuseAll, RunOk, ChainOk, LateMarks, CoverOk, SavedOk, CheckpointsOk;
      var from := index + 1;
      CompareSizes(index, if base.None? then |priorBridges| else base.value.bridgesLen);
      var run: seq<MerkleBridge<H>>;
      var result: Result<MerkleBridge<H>, ContinuityError>;
      if base.None? {
        RunToTip(index);
        run := priorBridges[from..] + [currentBridge.value];
        result := FuseAll(run[0], run[1..]);
      } else if from < base.value.bridgesLen {
        RunToBase(index, base.value.bridgesLen);
        run := priorBridges[from..base.value.bridgesLen];
        result := FuseAll(run[0], run[1..]);
      } else if from == base.value.bridgesLen {
        RunToItself(index);
        result := Ok(priorBridges[base.value.bridgesLen - 1].Successor(false));
        run := [result.value];
      } else {
        return Err(CheckpointTooDeep(from - base.value.bridgesLen));
      }
      WitnessOfRun(hs, depth, leaves, priorBridges, index, run, BaseSize(base));
      fused := match result case Err(problem) => Err(BridgeFusionError(problem)) case Ok(bridge) => Ok(bridge);
    }

    /** The witness for a marked leaf as of a checkpoint depth: exactly when it can be produced, and
        then it is the list of sibling hashes of that tree, which folds to that tree's root. */
    method Witness(position: nat, checkpointDepth: nat) returns (r: Result<seq<H>, WitnessingError>)
      requires Valid()
      ensures r.Ok? <==> Abs().CanWitness(position, checkpointDepth)
      ensures r.Ok? ==> position < Abs().SizeAt(checkpointDepth).value <= |leaves|
      ensures r.Ok? ==> var past := leaves[..Abs().SizeAt(checkpointDepth).value];
                        && r.value == RefPath(hs, past, position, depth)
                        && PathRoot(hs, leaves[position], r.value, position) == Root(hs, past, depth, 0)
      ensures checkpointDepth > |checkpoints| ==> r == Err(CheckpointInvalid)
      ensures checkpointDepth <= |checkpoints| && position !in Abs().marks ==> r == Err(PositionNotMarked(position))
      ensures checkpointDepth <= |checkpoints| && position in Abs().marks && r.Err? ==>
        checkpointDepth > 0 &&
        var k := |checkpoints| - checkpointDepth;
        if MarkedAfter(priorBridges, checkpoints, k, position) then r.error == PositionNotMarked(position)
        else position in saved && TooDeep(saved[position], checkpoints[k].bridgesLen, r.error)
    {
      hide LateMarks, CoverOk, TooDeep;
      IsOrderly();
      CanWitnessIff(Abs(), position, checkpointDepth);
      var base: Option<Checkpoint> := None;
      if checkpointDepth > 0 {
        if |checkpoints| < checkpointDepth { return Err(CheckpointInvalid); }
        var k := |checkpoints| - checkpointDepth;
        if position < Abs().points[k].size { MarkedAfterIs(priorBridges, checkpoints, Abs(), k, position); }
        if MarkedAfter(priorBridges, checkpoints, k, position) { return Err(PositionNotMarked(position)); }
        base := Some(checkpoints[k]);
      }
      assert Abs().SizeAt(checkpointDepth) == Some(BaseSize(base));
      if position !in saved { return Err(PositionNotMarked(position)); }
      var index := saved[position];
      var fused := SuccessorOf(index, base);
      if fused.Err? { return Err(fused.error); }
      var path := BridgeWitness(hs, fused.value, depth, priorBridges[index].frontier);
      r := match path case Err(addr) => Err(BridgeAddressInvalid(addr)) case Ok(p) => Ok(p);
    }

    /** Fuses away bridges that no mark and no reachable checkpoint needs. The present tree, the marks
        and every checkpoint after the oldest bridge boundary are untouched; the oldest boundary itself
        survives exactly when `OldestSafe` holds. Of the bridges exactly those are left that `Keeps` names, each fused
        from the run that ends in it and cut to the hashes that will be taken. The closing consistency check never
        fails; the only panic is that of a tree that may keep no checkpoint at all. */
    method GarbageCollect() returns (panicked: bool, ghost ends: seq<nat>)
      requires Valid()
      modifies this
      ensures if 0 < |old(checkpoints)| == maxCheckpoints && old(priorBridges) != [] then
          && CollectedBridges(old(priorBridges), old(saved), old(checkpoints)[0].bridgesLen, depth, priorBridges, ends)
          && |priorBridges| <= |old(priorBridges)|
          && ShiftedBy(old(checkpoints), checkpoints, |old(priorBridges)| - |priorBridges|)
        else priorBridges == old(priorBridges) && saved == old(saved) && checkpoints == old(checkpoints)
      ensures Valid() && (panicked <==> maxCheckpoints == 0)
      ensures leaves == old(leaves) && currentBridge == old(currentBridge) && currentRoot == old(currentRoot)
      ensures Abs().marks == old(Abs()).marks && |checkpoints| == old(|checkpoints|)
      ensures forall k | 0 <= k < |checkpoints|
        && (|checkpoints| < maxCheckpoints || old(checkpoints)[k].bridgesLen > old(checkpoints)[0].bridgesLen)
                :: Abs().points[k] == old(Abs()).points[k]
      ensures forall k | 0 <= k < |checkpoints| ::
        Abs().points[k] == old(Abs()).points[k].(size := Abs().points[k].size)
      ensures Abs() == old(Abs()) <==>
        panicked || |checkpoints| < maxCheckpoints || old(OldestSafe(priorBridges, saved, checkpoints[0].bridgesLen))
      ensures |checkpoints| == maxCheckpoints > 0 ==>
        !old(OldestSafe(priorBridges, saved, checkpoints[0].bridgesLen)) ==>
        Abs().points[0].size < old(Abs()).points[0].size
    {
      hide CollectedBridges;
      panicked, ends := |checkpoints| == maxCheckpoints && checkpoints == [], [];
      if panicked { return; }
      if |checkpoints| == maxCheckpoints && priorBridges != [] {
        var all, kept, shifted;
        all, kept, shifted, ends :=
          Collected(priorBridges, currentBridge, saved, checkpoints, depth, maxCheckpoints, hs, leaves);
        priorBridges, saved, checkpoints := all, kept, shifted;
      }
      InvariantIsConsistent(hs, depth, maxCheckpoints, leaves, priorBridges, currentBridge, saved, checkpoints);
      assert Consistent(priorBridges, currentBridge, saved, checkpoints, maxCheckpoints);
    }

    /** Collection will lose the oldest checkpoint when its latest leaf is unmarked but a later one is. */
    lemma OldestAtRisk(m: nat)
      requires Valid() && |checkpoints| == maxCheckpoints > 0
      requires 0 < Abs().points[0].size <= m && m in Abs().marks && Abs().points[0].size - 1 !in Abs().marks
      ensures !OldestSafe(priorBridges, saved, checkpoints[0].bridgesLen)
    {
      CompareSizes(saved[m], checkpoints[0].bridgesLen);
    }

    /** Whether a leaf's bridge is among the first `end` bridges shows in the sizes. */
    lemma CompareSizes(index: nat, end: nat)
      requires Valid() && index < |priorBridges| && end <= |priorBridges|
      ensures index < end <==> priorBridges[index].Position() < SizeAt(priorBridges, end)
      ensures SizeAt(priorBridges, end) <= |leaves|
    {
      SizeBounds(hs, leaves, priorBridges, currentBridge, end);
      if index + 1 < end { SizesGrow(hs, leaves, priorBridges, index + 1, end); }
      if end < index + 1 { SizesGrow(hs, leaves, priorBridges, end, index + 1); }
    }
  }

  lemma ExampleHistory<H>(a: H, b: H)
    ensures var none: History<H> := History([], {}, []);
            none.Append(1, a).Checkpoint(0, 1).Append(1, b).Mark() == History([a, b], {1}, [Point(0, 1, {1}, {})])
  {
    assert Pow2(1) == 2;
    var none: History<H> := History([], {}, []);
    var one := none.Append(1, a);
    assert one == History([a], {}, []);
    var taken := one.Checkpoint(0, 1);
    assert taken == History([a], {}, [Point(0, 1, {}, {})]);
    var two := taken.Append(1, b);
    assert two == History([a, b], {}, [Point(0, 1, {}, {})]);
    var unmarked: set<nat> := {};
    assert unmarked + {1} == {1};
    assert MarkLast(two.points, 1) == [Point(0, 1, unmarked + {1}, {})];
  }

  /** The run of the example: one leaf, a checkpoint, another leaf, marked. */
  method ExampleRun<H>(hs: Hashable<H>, a: H, b: H) returns (t: BridgeTree<H>)
    ensures fresh(t) && t.Valid() && t.hs == hs && t.depth == 1 && t.maxCheckpoints == 1
    ensures t.Abs() == History([a, b], {1}, [Point(0, 1, {1}, {})])
  {
    t := new BridgeTree(hs, 1, 1);
    assert t.Abs() == History([], {}, []);
    var _ := t.Append(a);
    var _ := t.AddCheckpoint(0);
    var _ := t.Append(b);
    var _ := t.Mark();
    ExampleHistory(a, b);
  }

  /** A concrete run in which collection changes the oldest checkpoint: its bridge is fused into the
      next one, and the root at that checkpoint turns from the root of one leaf into the empty root. */
  method CollectLosesOldest<H>(hs: Hashable<H>, a: H, b: H) returns (before: Option<H>, after: Option<H>)
    ensures before == Some(Root(hs, [a], 1, 0))
    ensures after == Some(EmptyRoot(hs, 1))
  {
    hide Root, OldestSafe, ChainOk, CurrentOk, SavedOk, CoverOk, CheckpointsOk, LateMarks;
    var t := ExampleRun(hs, a, b);
    assert t.leaves == t.Abs().leaves == [a, b] && |t.checkpoints| == |t.Abs().points| == 1;
    assert Take([a, b], 1) == [a];
    before := t.GetRoot(1);
    t.OldestAtRisk(1);
    var _, _ := t.GarbageCollect();
    RootEmpty(hs, Take([a, b], 0), 1, 0);
    after := t.GetRoot(1);
  }
}
