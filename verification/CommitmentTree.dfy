/** `incrementalmerkletree/src/frontier.rs`, second part: the older encoding of a frontier, with one
    optional slot per level. */
module CommitmentTrees {

  import opened Basics
  import opened Merkle
  import opened Frontiers

  /** The fields of a `CommitmentTree`. */
  datatype Parts<H> = Parts(left: Option<H>, right: Option<H>, parents: seq<Option<H>>)
  {
    predicate IsEmpty() { left.None? && right.None? }

    /** Room for the depth, which `from_parts` checks, and nothing without a left leaf, which it takes on trust
        and every other operation keeps. */
    predicate WellFormed(depth: nat)
    {
      |parents| < depth && (left.None? ==> right.None? && ParentsIndex(parents) == 0)
    }
  }

  /** The occupied slots read as a binary number: the index at level 1 above the latest leaf. */
  function ParentsIndex<H>(parents: seq<Option<H>>): nat
  {
    if parents == [] then 0 else (if parents[0].Some? then 1 else 0) + 2 * ParentsIndex(parents[1..])
  }

  function Compact<H>(parents: seq<Option<H>>): (r: seq<H>)
    ensures |r| == PastOmmerCount(ParentsIndex(parents))
  {
    if parents == [] then []
    else
      assert ParentsIndex(parents) / 2 == ParentsIndex(parents[1..]);
      if parents[0].Some? then [parents[0].value] + Compact(parents[1..]) else Compact(parents[1..])
  }

  // ---------- Size ----------

  function SizeFrom<H>(parents: seq<Option<H>>, i: nat): nat
    decreases |parents|
  {
    if parents == [] then 0 else (if parents[0].Some? then Pow2(i + 1) else 0) + SizeFrom(parents[1..], i + 1)
  }

  /** `CommitmentTree::size` */
  function Size<H>(t: Parts<H>): nat
    requires t.right.Some? ==> t.left.Some?
  {
    (if t.left.None? then 0 else if t.right.None? then 1 else 2) + SizeFrom(t.parents, 0)
  }

  lemma {:induction false} SizeFromIs<H>(parents: seq<Option<H>>, i: nat)
    ensures SizeFrom(parents, i) == Start(i + 1, ParentsIndex(parents))
    decreases |parents|
  {
    StartIsShift(i + 1, 1);
    StartZero(i + 1);
    if parents != [] {
      var above := ParentsIndex(parents[1..]);
      SizeFromIs(parents[1..], i + 1);
      assert Start(i + 2, above) == Start(i + 1, 2 * above);
      StartSum(i + 1, 2 * above);
    }
  }

  /** The size of a nonempty tree, from its slots. */
  lemma SizeIs<H>(t: Parts<H>)
    requires t.right.Some? ==> t.left.Some?
    ensures Size(t) == 2 * ParentsIndex(t.parents) + if t.left.None? then 0 else if t.right.None? then 1 else 2
  {
    SizeFromIs(t.parents, 0);
    assert Start(1, ParentsIndex(t.parents)) == Start(0, 2 * ParentsIndex(t.parents));
  }

  // ---------- Frontier conversion ----------

  /** `to_frontier`, with the parts handed to `Frontier::from_parts`. */
  function ToFrontier<H>(t: Parts<H>): Option<NonEmptyFrontier<H>>
    requires t.right.Some? ==> t.left.Some?
    requires t.left.None? ==> ParentsIndex(t.parents) == 0
  {
    SizeIs(t);
    if Size(t) == 0 then None
    else if t.right.None? then Some(NonEmptyFrontier(Size(t) - 1, t.left.value, Compact(t.parents)))
    else Some(NonEmptyFrontier(Size(t) - 1, t.right.value, [t.left.value] + Compact(t.parents)))
  }

  lemma {:induction false} ParentsIndexBound<H>(parents: seq<Option<H>>)
    ensures RootLevel(ParentsIndex(parents)) <= |parents|
    decreases |parents|
  {
    if parents != [] {
      ParentsIndexBound(parents[1..]);
      assert ParentsIndex(parents) / 2 == ParentsIndex(parents[1..]);
    }
  }

  /** `to_frontier` never fails: the parts have the right number of ommers and fit the depth; its
      position is the size minus one. */
  lemma ToFrontierSucceeds<H>(t: Parts<H>, depth: nat)
    requires t.WellFormed(depth)
    ensures Size(t) == 0 <==> ToFrontier(t).None?
    ensures ToFrontier(t).Some? ==>
      var f := ToFrontier(t).value;
      && f.WellFormed() && f.position + 1 == Size(t) && RootLevel(f.position) <= depth
      && f.position == 2 * ParentsIndex(t.parents) + (if t.right.Some? then 1 else 0)
  {
    SizeIs(t);
    ParentsIndexBound(t.parents);
    var index := ParentsIndex(t.parents);
    assert (2 * index + 1) / 2 == index && (2 * index) / 2 == index;
    assert (2 * index + 1) % 2 == 1 && (2 * index) % 2 == 0;
  }

  function ParentsFrom<H>(level: nat, index: nat, ommers: seq<H>, depth: nat): seq<Option<H>>
    requires |ommers| == PastOmmerCount(index)
    decreases depth - level
  {
    if level >= depth then []
    else if index % 2 == 0 then [None] + ParentsFrom(level + 1, index / 2, ommers, depth)
    else [Some(ommers[0])] + ParentsFrom(level + 1, index / 2, ommers[1..], depth)
  }

  /** `from_frontier` */
  function FromFrontier<H>(frontier: Option<NonEmptyFrontier<H>>, depth: nat): Parts<H>
    requires frontier.Some? ==> frontier.value.WellFormed()
  {
    match frontier
    case None => Parts(None, None, [])
    case Some(f) =>
      if f.position % 2 == 1 then Parts(Some(f.ommers[0]), Some(f.leaf),
                                        ParentsFrom(1, f.position / 2, f.ommers[1..], depth))
      else Parts(Some(f.leaf), None, ParentsFrom(1, f.position / 2, f.ommers, depth))
  }

  lemma {:induction false} ParentsFromInverse<H>(level: nat, index: nat, ommers: seq<H>, depth: nat)
    requires |ommers| == PastOmmerCount(index) && level <= depth && RootLevel(index) <= depth - level
    ensures var parents := ParentsFrom(level, index, ommers, depth);
            ParentsIndex(parents) == index && Compact(parents) == ommers && |parents| == depth - level
    decreases depth - level
  {
    if level < depth {
      ParentsFromInverse(level + 1, index / 2, if index % 2 == 0 then ommers else ommers[1..], depth);
      var rest := ParentsFrom(level + 1, index / 2, if index % 2 == 0 then ommers else ommers[1..], depth);
      assert ParentsFrom(level, index, ommers, depth)[1..] == rest;
    }
  }

  /** Converting a frontier to a tree and back loses nothing. */
  lemma FrontierRoundTrip<H>(frontier: Option<NonEmptyFrontier<H>>, depth: nat)
    requires depth > 0
    requires frontier.Some? ==> frontier.value.WellFormed() && RootLevel(frontier.value.position) <= depth
    ensures FromFrontier(frontier, depth).WellFormed(depth)
    ensures ToFrontier(FromFrontier(frontier, depth)) == frontier
  {
    var t := FromFrontier(frontier, depth);
    if frontier.Some? {
      var f := frontier.value;
      ParentsFromInverse(1, f.position / 2, if f.position % 2 == 1 then f.ommers[1..] else f.ommers, depth);
      assert f.position % 2 == 1 ==> [f.ommers[0]] + f.ommers[1..] == f.ommers;
    }
    SizeIs(t);
  }

  lemma {:induction false} CompactInverse<H>(level: nat, parents: seq<Option<H>>, depth: nat)
    requires level + |parents| <= depth
    ensures ParentsFrom(level, ParentsIndex(parents), Compact(parents), depth) == parents <==>
      level + |parents| == depth
    decreases |parents|
  {
    if parents != [] {
      var index := ParentsIndex(parents);
      assert index / 2 == ParentsIndex(parents[1..]);
      CompactInverse(level + 1, parents[1..], depth);
      var rest := ParentsFrom(level + 1, ParentsIndex(parents[1..]), Compact(parents[1..]), depth);
      assert Compact(parents) ==
        if parents[0].Some? then [parents[0].value] + Compact(parents[1..]) else Compact(parents[1..]);
      assert parents[0].Some? ==> Compact(parents)[1..] == Compact(parents[1..]);
      assert ParentsFrom(level, index, Compact(parents), depth) == [parents[0]] + rest;
      assert parents == [parents[0]] + parents[1..];
    }
  }

  /** The converse holds exactly for trees with all `depth - 1` slots written out, or for the empty
      tree without slots. */
  lemma TreeRoundTrip<H>(t: Parts<H>, depth: nat)
    requires t.WellFormed(depth)
    ensures ToFrontier(t).Some? ==> ToFrontier(t).value.WellFormed()
    ensures FromFrontier(ToFrontier(t), depth) == t <==> |t.parents| == if t.left.None? then 0 else depth - 1
  {
    ToFrontierSucceeds(t, depth);
    CompactInverse(1, t.parents, depth);
    SizeIs(t);
    if t.left.Some? {
      var f := ToFrontier(t).value;
      assert f.position / 2 == ParentsIndex(t.parents);
      if t.right.Some? { assert f.ommers[1..] == Compact(t.parents); }
    }
  }

  // ---------- Append ----------

  predicate AllSome<H>(parents: seq<Option<H>>, n: nat)
  {
    n == 0 || (parents != [] && parents[0].Some? && AllSome(parents[1..], n - 1))
  }

  /** `is_complete` */
  predicate IsComplete<H>(t: Parts<H>, depth: nat)
  {
    if depth == 0 then t.left.Some? && t.right.None? && t.parents == []
    else t.left.Some? && t.right.Some? && AllSome(t.parents, depth - 1)
  }

  lemma {:induction false} AllSomeIs<H>(parents: seq<Option<H>>, pos: nat, level: nat, n: nat)
    requires ParentsIndex(parents) == Above(level, pos)
    requires IsCompleteSubtree(pos, level)
    ensures AllSome(parents, n) <==> IsCompleteSubtree(pos, level + n)
    decreases n
  {
    if n > 0 {
      if parents != [] && parents[0].Some? {
        assert Above(level + 1, pos) == ParentsIndex(parents) / 2;
        AllSomeIs(parents[1..], pos, level + 1, n - 1);
      } else {
        assert Above(level, pos) % 2 == 0;
        NotComplete(pos, level + 1, level + n);
      }
    }
  }

  lemma {:induction false} NotComplete(pos: nat, low: nat, high: nat)
    requires low <= high && !IsCompleteSubtree(pos, low)
    ensures !IsCompleteSubtree(pos, high)
    decreases high
  {
    if low < high { NotComplete(pos, low, high - 1); }
  }

  /** Both encodings agree on when a subtree is full. */
  lemma CompleteAgrees<H>(t: Parts<H>, treeDepth: nat, depth: nat)
    requires t.WellFormed(treeDepth) && t.left.Some? && depth > 0
    ensures ToFrontier(t).Some?
    ensures IsComplete(t, depth) <==> IsCompleteSubtree(ToFrontier(t).value.position, depth)
  {
    ToFrontierSucceeds(t, treeDepth);
    SizeIs(t);
    var pos := ToFrontier(t).value.position;
    assert Above(0, pos) == pos && Above(1, pos) == pos / 2;
    assert IsCompleteSubtree(pos, 0);
    if t.right.Some? {
      assert IsCompleteSubtree(pos, 1);
      AllSomeIs(t.parents, pos, 1, depth - 1);
    } else {
      assert !IsCompleteSubtree(pos, 1);
      NotComplete(pos, 1, depth);
    }
  }

  /** The carry on slots. */
  function CarryParents<H>(hs: Hashable<H>, level: nat, parents: seq<Option<H>>, carry: H): (r: seq<Option<H>>)
    ensures ParentsIndex(r) == ParentsIndex(parents) + 1
    decreases |parents|
  {
    if parents == [] then [Some(carry)]
    else if parents[0].Some? then
      var rest := CarryParents(hs, level + 1, parents[1..], hs.combine(level, parents[0].value, carry));
      var r := [None] + rest;
      assert r[1..] == rest;
      r
    else
      var r := [Some(carry)] + parents[1..];
      assert r[1..] == parents[1..];
      r
  }

  function Appended<H>(hs: Hashable<H>, t: Parts<H>, node: H): Parts<H>
  {
    if t.left.None? then t.(left := Some(node))
    else if t.right.None? then t.(right := Some(node))
    else Parts(Some(node), None, CarryParents(hs, 1, t.parents, hs.combine(0, t.left.value, t.right.value)))
  }

  lemma {:induction false} CarryCommutes<H>(hs: Hashable<H>, level: nat, parents: seq<Option<H>>, carry: H)
    ensures Compact(CarryParents(hs, level, parents, carry)) ==
      Carry(hs, level, ParentsIndex(parents), Compact(parents), carry)
    decreases |parents|
  {
    if parents != [] {
      assert ParentsIndex(parents) / 2 == ParentsIndex(parents[1..]);
      if parents[0].Some? {
        var up := hs.combine(level, parents[0].value, carry);
        CarryCommutes(hs, level + 1, parents[1..], up);
        assert Compact(parents)[1..] == Compact(parents[1..]);
        assert CarryParents(hs, level, parents, carry)[1..] == CarryParents(hs, level + 1, parents[1..], up);
      } else {
        assert CarryParents(hs, level, parents, carry)[1..] == parents[1..];
      }
    }
  }

  /** `to_frontier` commutes with append, for every well-formed tree. */
  lemma AppendCommutes<H>(hs: Hashable<H>, t: Parts<H>, depth: nat, node: H)
    requires t.WellFormed(depth)
    ensures t.left.None? <==> ToFrontier(t).None?
    ensures ToFrontier(t).Some? ==> ToFrontier(t).value.WellFormed()
    ensures ToFrontier(Appended(hs, t, node)) ==
      Some(if t.left.None? then NonEmptyFrontier(0, node, []) else Pushed(hs, ToFrontier(t).value, node))
  {
    ToFrontierSucceeds(t, depth);
    SizeIs(t);
    var r := Appended(hs, t, node);
    SizeIs(r);
    if t.left.Some? {
      var f := ToFrontier(t).value;
      if t.right.Some? {
        var combined := hs.combine(0, t.left.value, t.right.value);
        CarryCommutes(hs, 1, t.parents, combined);
        assert f.position / 2 == ParentsIndex(t.parents) && f.ommers[1..] == Compact(t.parents);
        assert Carry(hs, 0, f.position, f.ommers, f.leaf) == Carry(hs, 1, f.position / 2, f.ommers[1..], combined);
      } else {
        assert f.position % 2 == 0;
      }
    } else {
      assert Compact(t.parents) == [];
    }
  }

  /** The tree holds exactly these leaves. */
  ghost predicate Represents<H>(hs: Hashable<H>, depth: nat, t: Parts<H>, leaves: seq<H>)
  {
    t.WellFormed(depth) && ToFrontier(t) == if leaves == [] then None else Some(FrontierOf(hs, leaves))
  }

  lemma AppendRepresents<H>(hs: Hashable<H>, depth: nat, t: Parts<H>, leaves: seq<H>, node: H)
    requires Represents(hs, depth, t, leaves) && Appended(hs, t, node).WellFormed(depth)
    ensures Represents(hs, depth, Appended(hs, t, node), leaves + [node])
  {
    AppendCommutes(hs, t, depth, node);
    if leaves != [] { PushedCorrect(hs, leaves, node); }
  }

  lemma RepresentsSize<H>(hs: Hashable<H>, depth: nat, t: Parts<H>, leaves: seq<H>)
    requires Represents(hs, depth, t, leaves)
    ensures Size(t) == |leaves| && (t.left.None? <==> leaves == [])
    ensures t.left.Some? ==> |leaves| - 1 == 2 * ParentsIndex(t.parents) + if t.right.Some? then 1 else 0
    ensures |leaves| <= Pow2(depth)
    ensures forall d | 0 < d && leaves != [] :: IsComplete(t, d) <==> IsCompleteSubtree(|leaves| - 1, d)
  {
    ToFrontierSucceeds(t, depth);
    SizeIs(t);
    if leaves != [] {
      AboveRootLevel(|leaves| - 1, depth);
      AboveRange(depth, |leaves| - 1);
      StartIsShift(depth, 1);
      forall d | 0 < d ensures IsComplete(t, d) <==> IsCompleteSubtree(|leaves| - 1, d) {
        CompleteAgrees(t, depth, d);
      }
    } else {
      StartIsShift(depth, 1);
      StartZero(depth);
    }
  }

  // ---------- Root ----------

  /** `PathFiller::next`: the next queued hash, or the empty root once the queue has run out. */
  function FillerNext<H>(hs: Hashable<H>, queue: seq<H>, level: nat): H
  {
    if queue == [] then EmptyRoot(hs, level) else queue[0]
  }

  function FillerRest<H>(queue: seq<H>): seq<H>
  {
    if queue == [] then [] else queue[1..]
  }

  function FoldParents<H>(hs: Hashable<H>, parents: seq<Option<H>>, level: nat, root: H, queue: seq<H>, depth: nat): H
    decreases depth - level
  {
    if level >= depth then root
    else
      var rest := if parents == [] then [] else parents[1..];
      if parents != [] && parents[0].Some? then
        FoldParents(hs, rest, level + 1, hs.combine(level, parents[0].value, root), queue, depth)
      else
        FoldParents(hs, rest, level + 1, hs.combine(level, root, FillerNext(hs, queue, level)),
                    FillerRest(queue), depth)
  }

  /** `root_at_depth`, with the queue of the path filler. */
  function RootAtDepth<H>(hs: Hashable<H>, t: Parts<H>, depth: nat, queue: seq<H>): H
    requires depth > 0
  {
    var left := if t.left.Some? then t.left.value else FillerNext(hs, queue, 0);
    var queue1 := if t.left.Some? then queue else FillerRest(queue);
    var right := if t.right.Some? then t.right.value else FillerNext(hs, queue1, 0);
    var queue2 := if t.right.Some? then queue1 else FillerRest(queue1);
    FoldParents(hs, t.parents, 1, hs.combine(0, left, right), queue2, depth)
  }

  // ---------- Siblings that later leaves fill ----------

  /** The `k`-th left child on the way up from `addr`: its sibling lies in the future. */
  function Future(addr: Address, k: nat): Address
    decreases k, addr.index
  {
    if addr.IsRightChild() then Future(addr.Parent(), k)
    else if k == 0 then addr
    else Future(addr.Parent(), k - 1)
  }

  /** Hashes of the first `k` future siblings. */
  ghost function Filled<H>(hs: Hashable<H>, leaves: seq<H>, addr: Address, k: nat): (r: seq<H>)
    ensures |r| == k
    decreases k, addr.index
  {
    if k == 0 then []
    else if addr.IsRightChild() then Filled(hs, leaves, addr.Parent(), k)
    else [Root(hs, leaves, addr.level, addr.index + 1)] + Filled(hs, leaves, addr.Parent(), k - 1)
  }

  lemma ParentRange(addr: Address)
    ensures addr.RangeEnd() <= addr.Parent().RangeEnd()
    ensures addr.IsRightChild() ==> addr.Parent().RangeEnd() == addr.RangeEnd()
    ensures addr.IsLeftChild() ==> addr.Parent().RangeEnd() == addr.Sibling().RangeEnd()
    ensures addr.Parent().RangeStart() <= addr.RangeStart()
  {
    var p := addr.index / 2;
    assert End(addr.level + 1, p) == Start(addr.level, 2 * p + 2);
    assert Start(addr.level + 1, p) == Start(addr.level, 2 * p);
    StartMono(addr.level, addr.index + 1, 2 * p + 2);
    StartMono(addr.level, 2 * p, addr.index);
  }

  lemma {:induction false} FutureEnd(addr: Address, k: nat)
    ensures addr.RangeEnd() <= Future(addr, k).RangeEnd()
    ensures Future(addr, k).level >= addr.level && Future(addr, k).IsLeftChild()
    ensures k == 0 ==> Future(addr, k).RangeEnd() == addr.RangeEnd()
    ensures k > 0 ==> Future(addr, k).level > addr.level
    decreases k, addr.index
  {
    ParentRange(addr);
    if addr.IsRightChild() { FutureEnd(addr.Parent(), k); } else if k > 0 { FutureEnd(addr.Parent(), k - 1); }
  }

  lemma {:induction false} FutureAncestor(addr: Address, k: nat, pos: nat)
    requires addr.index == Above(addr.level, pos)
    ensures Future(addr, k).index == Above(Future(addr, k).level, pos)
    decreases k, addr.index
  {
    assert Above(addr.level + 1, pos) == addr.index / 2;
    if addr.IsRightChild() {
      FutureAncestor(addr.Parent(), k, pos);
    } else if k > 0 { FutureAncestor(addr.Parent(), k - 1, pos); }
  }

  /** The next future sibling starts where the previous one ends. */
  lemma {:induction false} FutureNext(addr: Address, k: nat)
    ensures Future(addr, k + 1).RangeEnd() == Future(addr, k).Sibling().RangeEnd()
    ensures Future(addr, k + 1).level > Future(addr, k).level
    decreases k, addr.index
  {
    ParentRange(addr);
    if addr.IsRightChild() { FutureNext(addr.Parent(), k); }
    else if k > 0 { FutureNext(addr.Parent(), k - 1); }
    else { FutureEnd(addr.Parent(), 0); }
  }

  lemma {:induction false} FilledSnoc<H>(hs: Hashable<H>, leaves: seq<H>, addr: Address, k: nat)
    ensures Filled(hs, leaves, addr, k + 1)
         == Filled(hs, leaves, addr, k) + [Root(hs, leaves, Future(addr, k).level, Future(addr, k).index + 1)]
    decreases k, addr.index
  {
    if addr.IsRightChild() { FilledSnoc(hs, leaves, addr.Parent(), k); }
    else if k > 0 { FilledSnoc(hs, leaves, addr.Parent(), k - 1); }
  }

  lemma {:induction false} FilledAgree<H>(hs: Hashable<H>, a: seq<H>, b: seq<H>, addr: Address, k: nat)
    requires forall p | 0 <= p < Future(addr, k).RangeEnd() :: LeafAt(hs, a, p) == LeafAt(hs, b, p)
    ensures Filled(hs, a, addr, k) == Filled(hs, b, addr, k)
    decreases k, addr.index
  {
    if addr.IsRightChild() {
      FilledAgree(hs, a, b, addr.Parent(), k);
    } else if k > 0 {
      FilledAgree(hs, a, b, addr.Parent(), k - 1);
      ParentRange(addr);
      FutureEnd(addr.Parent(), k - 1);
      RootAgree(hs, a, b, addr.level, addr.index + 1);
    }
  }

  /** Folding the slots with the hashes of the filled future siblings, and empty roots for the others,
      yields the root over all leaves. */
  lemma {:induction false} FoldParentsCorrect<H>(hs: Hashable<H>, leaves: seq<H>, parents: seq<Option<H>>, level: nat,
                                                 queue: seq<H>, depth: nat)
    requires level <= depth
    requires Compact(parents) == OmmersAbove(hs, leaves, level, ParentsIndex(parents))
    requires queue == Filled(hs, leaves, Address(level, ParentsIndex(parents)), |queue|)
    requires |leaves| <= Future(Address(level, ParentsIndex(parents)), |queue|).RangeEnd()
    ensures FoldParents(hs, parents, level, Root(hs, leaves, level, ParentsIndex(parents)), queue, depth)
         == Root(hs, leaves, depth, Climb(Address(level, ParentsIndex(parents)), depth).index)
    decreases depth - level
  {
    if level < depth {
      var index := ParentsIndex(parents);
      var addr := Address(level, index);
      var rest := if parents == [] then [] else parents[1..];
      assert index / 2 == ParentsIndex(rest);
      RootFromChild(hs, leaves, level, index);
      if index % 2 == 1 {
        assert Compact(rest) == Compact(parents)[1..] == OmmersAbove(hs, leaves, level + 1, index / 2);
        FoldParentsCorrect(hs, leaves, rest, level + 1, queue, depth);
      } else {
        assert Compact(rest) == OmmersAbove(hs, leaves, level + 1, index / 2) by {
          if index == 0 { assert OmmersAbove(hs, leaves, level + 1, 0) == []; }
        }
        if queue == [] {
          RootEmpty(hs, leaves, level, index + 1);
          ParentRange(addr);
          FutureEnd(addr.Parent(), 0);
        }
        FoldParentsCorrect(hs, leaves, rest, level + 1, FillerRest(queue), depth);
      }
    }
  }

  /** `root_at_depth` of a tree over the first leaves, completed with the hashes of the subtrees filled
      since, is the root over all leaves. */
  lemma RootAtDepthCorrect<H>(hs: Hashable<H>, treeDepth: nat, t: Parts<H>, base: seq<H>, leaves: seq<H>, queue: seq<H>,
                              depth: nat)
    requires Represents(hs, treeDepth, t, base) && base != [] && base <= leaves && depth > 0
    requires queue == Filled(hs, leaves, Address(0, |base| - 1), |queue|)
    requires |leaves| <= Future(Address(0, |base| - 1), |queue|).RangeEnd()
    ensures RootAtDepth(hs, t, depth, queue) == Root(hs, leaves, depth, Above(depth, |base| - 1))
  {
    var pos, index := |base| - 1, ParentsIndex(t.parents);
    SlotOmmers(hs, treeDepth, t, base, leaves);
    ClimbAbove(pos, 0, depth);
    assert Climb(Address(0, pos), depth) == Climb(Address(1, index), depth);
    if t.right.Some? {
      RootAtDepthFull(hs, t, leaves, pos, queue, depth);
    } else { RootAtDepthHalf(hs, t, leaves, pos, queue, depth); }
  }

  /** Both bottom slots are taken. */
  lemma RootAtDepthFull<H>(hs: Hashable<H>, t: Parts<H>, leaves: seq<H>, pos: nat, queue: seq<H>, depth: nat)
    requires depth > 0 && pos < |leaves| && pos == 2 * ParentsIndex(t.parents) + 1
    requires Compact(t.parents) == OmmersAbove(hs, leaves, 1, ParentsIndex(t.parents))
    requires t.left == Some(leaves[pos - 1]) && t.right == Some(leaves[pos])
    requires queue == Filled(hs, leaves, Address(0, pos), |queue|)
    requires |leaves| <= Future(Address(0, pos), |queue|).RangeEnd()
    ensures RootAtDepth(hs, t, depth, queue) ==
      Root(hs, leaves, depth, Climb(Address(1, ParentsIndex(t.parents)), depth).index)
  {
    var index := ParentsIndex(t.parents);
    assert Address(0, pos).Parent() == Address(1, index);
    assert Root(hs, leaves, 0, 2 * index) == leaves[pos - 1] && Root(hs, leaves, 0, 2 * index + 1) == leaves[pos];
    assert Root(hs, leaves, 1, index) == hs.combine(0, leaves[pos - 1], leaves[pos]);
    FoldParentsCorrect(hs, leaves, t.parents, 1, queue, depth);
  }

  /** Only the left bottom slot is taken: the first queued hash fills the right one. */
  lemma RootAtDepthHalf<H>(hs: Hashable<H>, t: Parts<H>, leaves: seq<H>, pos: nat, queue: seq<H>, depth: nat)
    requires depth > 0 && pos < |leaves| && pos == 2 * ParentsIndex(t.parents)
    requires Compact(t.parents) == OmmersAbove(hs, leaves, 1, ParentsIndex(t.parents))
    requires t.left == Some(leaves[pos]) && t.right == None
    requires queue == Filled(hs, leaves, Address(0, pos), |queue|)
    requires |leaves| <= Future(Address(0, pos), |queue|).RangeEnd()
    ensures RootAtDepth(hs, t, depth, queue) ==
      Root(hs, leaves, depth, Climb(Address(1, ParentsIndex(t.parents)), depth).index)
  {
    var index := ParentsIndex(t.parents);
    FirstFiller(hs, leaves, pos, queue);
    assert Root(hs, leaves, 0, 2 * index) == leaves[pos]
      && Root(hs, leaves, 0, 2 * index + 1) == LeafAt(hs, leaves, pos + 1);
    assert Root(hs, leaves, 1, index) == hs.combine(0, leaves[pos], FillerNext(hs, queue, 0));
    FoldParentsCorrect(hs, leaves, t.parents, 1, FillerRest(queue), depth);
  }

  /** The first queued hash is the right neighbour of a leaf at an even position. */
  lemma FirstFiller<H>(hs: Hashable<H>, leaves: seq<H>, pos: nat, queue: seq<H>)
    requires pos % 2 == 0
    requires queue == Filled(hs, leaves, Address(0, pos), |queue|)
    requires |leaves| <= Future(Address(0, pos), |queue|).RangeEnd()
    ensures FillerNext(hs, queue, 0) == LeafAt(hs, leaves, pos + 1)
    ensures FillerRest(queue) == Filled(hs, leaves, Address(1, pos / 2), |FillerRest(queue)|)
    ensures |leaves| <= Future(Address(1, pos / 2), |FillerRest(queue)|).RangeEnd()
  {
    if queue == [] {
      ParentRange(Address(0, pos));
      FutureEnd(Address(1, pos / 2), 0);
    }
  }

  lemma SlotOmmers<H>(hs: Hashable<H>, treeDepth: nat, t: Parts<H>, base: seq<H>, leaves: seq<H>)
    requires Represents(hs, treeDepth, t, base) && base != [] && base <= leaves
    ensures Compact(t.parents) == OmmersAbove(hs, leaves, 1, ParentsIndex(t.parents))
    ensures 2 * ParentsIndex(t.parents) < |base| && t.left == Some(leaves[2 * ParentsIndex(t.parents)])
    ensures t.right.Some? ==> t.right.value == leaves[|base| - 1] && |base| - 1 == 2 * ParentsIndex(t.parents) + 1
    ensures t.right.None? ==> |base| - 1 == 2 * ParentsIndex(t.parents)
  {
    var pos := |base| - 1;
    RepresentsSize(hs, treeDepth, t, base);
    OmmersAgree(hs, base, leaves, 0, pos);
    var f := ToFrontier(t).value;
    assert pos / 2 == ParentsIndex(t.parents);
    if t.right.Some? {
      assert Compact(t.parents) == f.ommers[1..];
      assert f.ommers[0] == Root(hs, leaves, 0, pos - 1);
    } else if pos == 0 {
      assert OmmersAbove(hs, leaves, 1, 0) == [];
    }
  }

  // ---------- The mutable tree ----------

  /** The state of the carry loop: the slots already cleared, and those still to visit. */
  ghost predicate Carrying<H>(hs: Hashable<H>, start: seq<Option<H>>, carry: H, depth: nat, parents: seq<Option<H>>,
                              i: nat, combined: H)
  {
    && i < depth && i <= |parents| == |start| < depth && !AllSome(parents[i..], depth - 1 - i)
    && CarryParents(hs, 1, start, carry) == parents[..i] + CarryParents(hs, i + 1, parents[i..], combined)
  }

  lemma CarryOn<H>(hs: Hashable<H>, start: seq<Option<H>>, carry: H, depth: nat, parents: seq<Option<H>>, i: nat,
                   combined: H)
    requires Carrying(hs, start, carry, depth, parents, i, combined) && i < |parents| && parents[i].Some?
    ensures Carrying(hs, start, carry, depth, parents[i := None], i + 1, hs.combine(i + 1, parents[i].value, combined))
  {
    var next := parents[i := None];
    assert parents[i..][1..] == next[i + 1..] && next[..i + 1] == parents[..i] + [None];
    assert parents[i..][0] == parents[i];
  }

  lemma CarryEnds<H>(hs: Hashable<H>, start: seq<Option<H>>, carry: H, depth: nat, parents: seq<Option<H>>, i: nat,
                     combined: H)
    requires Carrying(hs, start, carry, depth, parents, i, combined)
    ensures i < |parents| && parents[i].None? ==> parents[i := Some(combined)] == CarryParents(hs, 1, start, carry)
    ensures i == |parents| ==> parents + [Some(combined)] == CarryParents(hs, 1, start, carry) && |parents| + 1 < depth
  {
    if i == |parents| {
      assert parents[i..] == [] && parents[..i] == parents;
    } else if parents[i].None? {
      assert parents[i..][0] == parents[i] && parents[i..][1..] == parents[i + 1..];
      assert parents[i := Some(combined)] == parents[..i] + ([Some(combined)] + parents[i + 1..]);
    }
  }

  /** The loop of `CommitmentTree::append`: clears occupied slots until a free one takes the carry. */
  method StoreCarry<H>(hs: Hashable<H>, start: seq<Option<H>>, carry: H, depth: nat) returns (parents: seq<Option<H>>)
    requires |start| < depth && !AllSome(start, depth - 1)
    ensures parents == CarryParents(hs, 1, start, carry) && |parents| < depth
  {
    parents := start;
    var combined := carry;
    var i := 0;
    assert start[0..] == start && start[..0] == [];
    while i < depth
      invariant Carrying(hs, start, carry, depth, parents, i, combined)
    {
      CarryEnds(hs, start, carry, depth, parents, i, combined);
      if i < |parents| {
        if parents[i].Some? {
          CarryOn(hs, start, carry, depth, parents, i, combined);
          combined := hs.combine(i + 1, parents[i].value, combined);
          parents := parents[i := None];
        } else {
          parents := parents[i := Some(combined)];
          return;
        }
      } else {
        parents := parents + [Some(combined)];
        return;
      }
      i := i + 1;
    }
  }

  class CommitmentTree<H> {
    const hs: Hashable<H>
    const depth: nat
    var left: Option<H>
    var right: Option<H>
    var parents: seq<Option<H>>

    function Contents(): Parts<H>
      reads this
    {
      Parts(left, right, parents)
    }

    constructor (hs: Hashable<H>, depth: nat, t: Parts<H>)
      ensures this.hs == hs && this.depth == depth && Contents() == t
    {
      this.hs, this.depth := hs, depth;
      left, right, parents := t.left, t.right, t.parents;
    }

    /** `CommitmentTree::append`: fails exactly when the tree is full. */
    method Append(node: H) returns (ok: bool)
      requires Contents().WellFormed(depth)
      modifies this
      ensures Contents().WellFormed(depth)
      ensures ok <==> !IsComplete(old(Contents()), depth)
      ensures Contents() == if ok then Appended(hs, old(Contents()), node) else old(Contents())
    {
      if IsComplete(Contents(), depth) { return false; }
      if left.None? {
        left := Some(node);
      } else if right.None? {
        right := Some(node);
      } else {
        parents := StoreCarry(hs, parents, hs.combine(0, left.value, right.value), depth);
        left, right := Some(node), None;
      }
      ok := true;
    }

    /** `CommitmentTree::root` */
    method GetRoot(ghost leaves: seq<H>) returns (root: H)
      requires depth > 0 && Represents(hs, depth, Contents(), leaves)
      ensures root == Root(hs, leaves, depth, 0)
    {
      root := RootAtDepth(hs, Contents(), depth, []);
      RepresentsSize(hs, depth, Contents(), leaves);
      if leaves == [] {
        EmptyTreeRoot(hs, Contents(), depth);
        RootEmpty(hs, leaves, depth, 0);
      } else {
        FutureEnd(Address(0, |leaves| - 1), 0);
        RootAtDepthCorrect(hs, depth, Contents(), leaves, leaves, [], depth);
        FullIff(depth, |leaves|);
      }
    }
  }

  lemma {:induction false} EmptyFold<H>(hs: Hashable<H>, parents: seq<Option<H>>, level: nat, depth: nat)
    requires ParentsIndex(parents) == 0 && level <= depth
    ensures FoldParents(hs, parents, level, EmptyRoot(hs, level), [], depth) == EmptyRoot(hs, depth)
    decreases depth - level
  {
    if level < depth { EmptyFold(hs, if parents == [] then [] else parents[1..], level + 1, depth); }
  }

  lemma EmptyTreeRoot<H>(hs: Hashable<H>, t: Parts<H>, depth: nat)
    requires depth > 0 && t.IsEmpty() && ParentsIndex(t.parents) == 0
    ensures RootAtDepth(hs, t, depth, []) == EmptyRoot(hs, depth)
  {
    EmptyFold(hs, t.parents, 1, depth);
  }
}
