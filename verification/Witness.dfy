/** `incrementalmerkletree/src/witness.rs`: a witness updated in lockstep with its tree. */
module IncrementalWitnesses {

  import opened Basics
  import opened Merkle
  import opened Frontiers
  import opened CommitmentTrees

  /** `next_depth`: the level of the next subtree that later leaves will fill, found by skipping one free
      slot for each subtree already filled. */
  method NextDepth<H>(tree: Parts<H>, filledCount: nat) returns (d: nat)
    requires tree.left.Some?
    ensures d == Future(Address(0, 2 * ParentsIndex(tree.parents) + if tree.right.Some? then 1 else 0),
                        filledCount).level
  {
    var skip := filledCount;
    if tree.right.None? {
      if skip > 0 { skip := skip - 1; } else { return 0; }
    }
    d := 1;
    ghost var goal := Future(Address(1, ParentsIndex(tree.parents)), skip).level;
    ghost var rest := tree.parents;
    assert (2 * ParentsIndex(tree.parents) + 1) / 2 == ParentsIndex(tree.parents);
    var i := 0;
    while i < |tree.parents|
      invariant i <= |tree.parents| && d == i + 1 && rest == tree.parents[i..]
      invariant goal == Future(Address(d, ParentsIndex(rest)), skip).level
    {
      assert ParentsIndex(rest) / 2 == ParentsIndex(rest[1..]);
      if tree.parents[i].None? {
        if skip > 0 { skip := skip - 1; } else { return; }
      }
      rest := rest[1..];
      d, i := d + 1, i + 1;
    }
    BeyondParents(d, skip);
    d := d + skip;
  }

  lemma {:induction false} BeyondParents(level: nat, k: nat)
    ensures Future(Address(level, 0), k).level == level + k
    decreases k
  {
    if k > 0 { BeyondParents(level + 1, k - 1); }
  }

  /** Leaves of the first `k` future siblings below `depth`: the fold over `witness_addrs` of
      `tip_position`. */
  function FilledLeaves(addr: Address, k: nat, depth: nat): nat
    decreases depth - addr.level
  {
    if addr.level >= depth || k == 0 then 0
    else if addr.IsRightChild() then FilledLeaves(addr.Parent(), k, depth)
    else Pow2(addr.level) + FilledLeaves(addr.Parent(), k - 1, depth)
  }

  lemma {:induction false} FilledLeavesIs(addr: Address, k: nat, depth: nat)
    requires addr.level <= depth && Future(addr, k).RangeEnd() <= Start(depth, Climb(addr, depth).index + 1)
    ensures addr.RangeEnd() + FilledLeaves(addr, k, depth) == Future(addr, k).RangeEnd()
    decreases depth - addr.level
  {
    FutureEnd(addr, k);
    ParentRange(addr);
    if addr.level < depth {
      if addr.IsRightChild() {
        FilledLeavesIs(addr.Parent(), k, depth);
      } else if k > 0 {
        StartIsShift(addr.level, 1);
        StartSum(addr.level, addr.index + 1);
        FilledLeavesIs(addr.Parent(), k - 1, depth);
      }
    } else if k > 0 {
      FirstFutureGrows(addr, k);
    } else if addr.IsRightChild() {
      FutureEnd(addr, 0);
    }
  }

  lemma {:induction false} FirstFutureGrows(addr: Address, k: nat)
    requires k > 0
    ensures Future(addr, k).RangeEnd() > addr.RangeEnd()
  {
    FutureNext(addr, k - 1);
    FutureEnd(addr, k - 1);
    var f := Future(addr, k - 1);
    StartMono(f.level, f.index + 1, f.index + 2);
  }

  /** `path_inner`, level by level: stored slots on one side, filled subtrees on the other. */
  function PathParents<H>(hs: Hashable<H>, parents: seq<Option<H>>, level: nat, queue: seq<H>, depth: nat): seq<H>
    decreases depth - level
  {
    if level >= depth then []
    else
      var rest := if parents == [] then [] else parents[1..];
      if parents != [] && parents[0].Some? then [parents[0].value] + PathParents(hs, rest, level + 1, queue, depth)
      else [FillerNext(hs, queue, level)] + PathParents(hs, rest, level + 1, FillerRest(queue), depth)
  }

  lemma {:induction false} PathParentsCorrect<H>(hs: Hashable<H>, leaves: seq<H>, parents: seq<Option<H>>, level: nat,
                                                 queue: seq<H>, depth: nat)
    requires level <= depth
    requires Compact(parents) == OmmersAbove(hs, leaves, level, ParentsIndex(parents))
    requires queue == Filled(hs, leaves, Address(level, ParentsIndex(parents)), |queue|)
    requires |leaves| <= Future(Address(level, ParentsIndex(parents)), |queue|).RangeEnd()
    ensures PathParents(hs, parents, level, queue, depth) == PathFrom(hs, leaves, level, ParentsIndex(parents), depth)
    decreases depth - level
  {
    hide Root, Start;
    if level < depth {
      var index := ParentsIndex(parents);
      var addr := Address(level, index);
      var rest := if parents == [] then [] else parents[1..];
      assert index / 2 == ParentsIndex(rest);
      if index % 2 == 1 {
        assert Compact(rest) == Compact(parents)[1..] == OmmersAbove(hs, leaves, level + 1, index / 2);
        PathParentsCorrect(hs, leaves, rest, level + 1, queue, depth);
      } else {
        if index == 0 { assert OmmersAbove(hs, leaves, level + 1, 0) == []; }
        if queue == [] {
          RootEmpty(hs, leaves, level, index + 1);
          ParentRange(addr);
          FutureEnd(addr.Parent(), 0);
        }
        PathParentsCorrect(hs, leaves, rest, level + 1, FillerRest(queue), depth);
      }
    }
  }

  // ---------- Invariant ----------

  /** The node above the witnessed leaf whose right sibling the next leaves go to. */
  function Waiting(base: nat, filled: nat): Address
    requires base > 0
  {
    Future(Address(0, base - 1), filled)
  }

  /** `tree` holds the leaves `base`; `filled` are the hashes of the subtrees completed since, and the
      cursor holds the leaves of the next, incomplete one. */
  ghost predicate WitnessOk<H>(hs: Hashable<H>, depth: nat, tree: Parts<H>, base: seq<H>, leaves: seq<H>,
                               filled: seq<H>, cursorDepth: nat, cursor: Option<Parts<H>>)
  {
    && depth > 0 && base != [] && base <= leaves && |leaves| <= Pow2(depth)
    && Represents(hs, depth, tree, base)
    && filled == Filled(hs, leaves, Address(0, |base| - 1), |filled|)
    && var w := Waiting(|base|, |filled|);
       match cursor
       case None => w.RangeEnd() == |leaves|
       case Some(c) =>
         && cursorDepth == w.level && 0 < cursorDepth < depth
         && w.RangeEnd() < |leaves| < w.Sibling().RangeEnd()
         && Represents(hs, depth, c, leaves[w.RangeEnd()..])
  }

  lemma CompletesBelow(pos: nat, level: nat, depth: nat)
    requires level < depth && Above(depth, pos) == 0 && Above(level, pos) % 2 == 0
    ensures End(level, Above(level, pos) + 1) <= Pow2(depth)
    ensures End(level, Above(level, pos)) < Pow2(depth)
  {
    PathEnds(pos, level, depth);
    StartIsShift(depth, 1);
    StartMono(level, Above(level, pos) + 1, Above(level, pos) + 2);
  }

  lemma {:induction false} LevelGrows(low: nat, high: nat, index: nat)
    requires low <= high && index > 0
    ensures Start(high, index) >= Start(low, 1)
    decreases high
  {
    if low < high { LevelGrows(low, high - 1, 2 * index); } else { StartMono(low, 1, index); }
  }

  /** The waiting node covers the witnessed leaf and its sibling starts where it ends; it lies below the
      root exactly when the tree is not full. */
  lemma WaitingFacts(base: nat, filled: nat, size: nat, depth: nat)
    requires 0 < base <= size <= Pow2(depth) && Waiting(base, filled).RangeEnd() <= size
    ensures var w := Waiting(base, filled);
            && w.IsLeftChild() && w.index == Above(w.level, base - 1)
            && w.Sibling().RangeStart() == w.RangeEnd()
            && w.Sibling().RangeEnd() == w.RangeEnd() + Pow2(w.level)
            && (w.level < depth ==> w.Sibling().RangeEnd() <= Pow2(depth) && w.RangeEnd() < Pow2(depth))
            && (w.level >= depth ==> w.RangeEnd() == Pow2(depth))
    ensures Above(depth, base - 1) == 0
  {
    assert Above(0, base - 1) == base - 1;
    hide Future, Start, Above, Pow2;
    var addr := Address(0, base - 1);
    var w := Waiting(base, filled);
    FutureEnd(addr, filled);
    FutureAncestor(addr, filled, base - 1);
    StartIsShift(depth, 1);
    StartIsShift(w.level, 1);
    StartZero(depth);
    StartSum(w.level, w.index + 1);
    AboveUnique(depth, base - 1, 0);
    if w.level < depth {
      CompletesBelow(base - 1, w.level, depth);
    } else {
      LevelGrows(depth, w.level, w.index + 1);
    }
  }

  /** The root of the cursor's leaves is the hash of the subtree that is being filled. */
  lemma CursorRoot<H>(hs: Hashable<H>, depth: nat, leaves: seq<H>, w: Address, cursor: Parts<H>)
    requires w.level > 0 && w.RangeEnd() < |leaves| <= w.RangeEnd() + Pow2(w.level)
    requires w.IsLeftChild()
    requires Represents(hs, depth, cursor, leaves[w.RangeEnd()..])
    ensures RootAtDepth(hs, cursor, w.level, []) == Root(hs, leaves, w.level, w.index + 1)
  {
    hide Root, RootAtDepth, Represents, Filled;
    var part := leaves[w.RangeEnd()..];
    FutureEnd(Address(0, |part| - 1), 0);
    RootAtDepthCorrect(hs, depth, cursor, part, part, [], w.level);
    StartIsShift(w.level, 1);
    StartZero(w.level);
    AboveUnique(w.level, |part| - 1, 0);
    StartSum(w.level, w.index + 1);
    RootShift(hs, leaves, w.RangeEnd(), part, w.level, w.index + 1, 0);
  }

  /** Once the next subtree is complete, its hash joins the filled ones. */
  lemma FillNext<H>(hs: Hashable<H>, base: nat, leaves: seq<H>, node: H, filled: seq<H>)
    requires 0 < base && filled == Filled(hs, leaves, Address(0, base - 1), |filled|)
    requires Waiting(base, |filled|).RangeEnd() <= |leaves|
    ensures filled == Filled(hs, leaves + [node], Address(0, base - 1), |filled|)
    ensures var w := Waiting(base, |filled|);
            && filled + [Root(hs, leaves + [node], w.level, w.index + 1)] ==
              Filled(hs, leaves + [node], Address(0, base - 1), |filled| + 1)
            && Waiting(base, |filled| + 1).RangeEnd() == w.Sibling().RangeEnd()
  {
    FilledAgree(hs, leaves, leaves + [node], Address(0, base - 1), |filled|);
    FilledSnoc(hs, leaves + [node], Address(0, base - 1), |filled|);
    FutureNext(Address(0, base - 1), |filled|);
  }

  /** A cursor always has room for another leaf. */
  lemma CursorAccepts<H>(hs: Hashable<H>, depth: nat, tree: Parts<H>, base: seq<H>, leaves: seq<H>, filled: seq<H>,
                         cursorDepth: nat, cursor: Parts<H>)
    requires WitnessOk(hs, depth, tree, base, leaves, filled, cursorDepth, Some(cursor))
    ensures cursor.WellFormed(depth) && !IsComplete(cursor, depth) && |leaves| < Pow2(depth)
  {
    var w := Waiting(|base|, |filled|);
    var part := leaves[w.RangeEnd()..];
    WaitingFacts(|base|, |filled|, |leaves|, depth);
    RepresentsSize(hs, depth, cursor, part);
    FullIff(w.level, |part|);
    NotComplete(|part| - 1, w.level, depth);
  }

  /** A leaf for a subtree that is already being filled. */
  lemma CursorStep<H>(hs: Hashable<H>, depth: nat, tree: Parts<H>, base: seq<H>, leaves: seq<H>, filled: seq<H>,
                      cursorDepth: nat,
                      cursor: Parts<H>, node: H)
    requires WitnessOk(hs, depth, tree, base, leaves, filled, cursorDepth, Some(cursor))
    requires CommitmentTrees.Appended(hs, cursor, node).WellFormed(depth)
    ensures var next := CommitmentTrees.Appended(hs, cursor, node);
            && cursorDepth > 0
            && (IsComplete(next, cursorDepth) ==>
                  WitnessOk(hs, depth, tree, base, leaves + [node], filled + [RootAtDepth(hs, next, cursorDepth, [])],
                            cursorDepth, None))
            && (!IsComplete(next, cursorDepth) ==>
                  WitnessOk(hs, depth, tree, base, leaves + [node], filled, cursorDepth, Some(next)))
  {
    hide Represents, Filled, Future, RootAtDepth, IsComplete, CommitmentTrees.Appended;
    var w := Waiting(|base|, |filled|);
    var next := CommitmentTrees.Appended(hs, cursor, node);
    WaitingFacts(|base|, |filled|, |leaves|, depth);
    CursorGrows(hs, depth, leaves, w, cursor, node);
    CursorRoot(hs, depth, leaves + [node], w, next);
    FillNext(hs, |base|, leaves, node, filled);
  }

  /** The cursor holds the leaves since the waiting subtree began, and is complete when they fill it. */
  lemma CursorGrows<H>(hs: Hashable<H>, depth: nat, leaves: seq<H>, w: Address, cursor: Parts<H>, node: H)
    requires w.RangeEnd() <= |leaves| < w.RangeEnd() + Pow2(w.level) && w.level > 0
    requires Represents(hs, depth, cursor, leaves[w.RangeEnd()..])
    requires CommitmentTrees.Appended(hs, cursor, node).WellFormed(depth)
    ensures var next := CommitmentTrees.Appended(hs, cursor, node);
            && Represents(hs, depth, next, (leaves + [node])[w.RangeEnd()..])
            && (IsComplete(next, w.level) <==> |leaves| + 1 == w.RangeEnd() + Pow2(w.level))
  {
    var part := leaves[w.RangeEnd()..];
    var next := CommitmentTrees.Appended(hs, cursor, node);
    assert part + [node] == (leaves + [node])[w.RangeEnd()..];
    AppendRepresents(hs, depth, cursor, part, node);
    RepresentsSize(hs, depth, next, part + [node]);
    FullIff(w.level, |part| + 1);
  }

  /** A leaf that starts the next subtree. */
  lemma StartStep<H>(hs: Hashable<H>, depth: nat, tree: Parts<H>, base: seq<H>, leaves: seq<H>, filled: seq<H>,
                     cursorDepth: nat, node: H)
    requires WitnessOk(hs, depth, tree, base, leaves, filled, cursorDepth, None)
    ensures var d := Waiting(|base|, |filled|).level;
            && (d < depth <==> |leaves| < Pow2(depth))
            && (d == 0 < depth ==> WitnessOk(hs, depth, tree, base, leaves + [node], filled + [node], d, None))
            && (0 < d < depth ==>
                WitnessOk(hs, depth, tree, base, leaves + [node], filled, d, Some(Parts(Some(node), None, []))))
  {
    var w := Waiting(|base|, |filled|);
    WaitingFacts(|base|, |filled|, |leaves|, depth);
    FillNext(hs, |base|, leaves, node, filled);
    var empty: Parts<H> := Parts(None, None, []);
    assert Represents(hs, depth, empty, []);
    AppendRepresents(hs, depth, empty, [], node);
    assert (leaves + [node])[w.RangeEnd()..] == [node];
    assert w.level > 0 ==> Pow2(w.level) == 2 * Pow2(w.level - 1);
  }

  // ---------- The witness ----------

  class IncrementalWitness<H> {
    const hs: Hashable<H>
    const depth: nat
    const tree: Parts<H>
    var filled: seq<H>
    var cursorDepth: nat
    var cursor: CommitmentTree?<H>
    /** The leaves of the tree the witness was taken from, and all leaves up to now. */
    ghost const base: seq<H>
    ghost var leaves: seq<H>

    function CursorParts(): Option<Parts<H>>
      reads this, cursor
    {
      if cursor == null then None else Some(cursor.Contents())
    }

    ghost predicate Valid()
      reads this, cursor
    {
      && (cursor != null ==> cursor.hs == hs && cursor.depth == depth)
      && WitnessOk(hs, depth, tree, base, leaves, filled, cursorDepth, CursorParts())
    }

    /** `from_tree`, for a tree holding the leaves `base`; see `FromTree` for the empty tree. */
    constructor (hs: Hashable<H>, depth: nat, tree: Parts<H>, ghost base: seq<H>)
      requires depth > 0 && base != [] && Represents(hs, depth, tree, base)
      ensures Valid() && leaves == base && cursor == null
      ensures this.base == base && this.hs == hs && this.depth == depth && this.tree == tree
    {
      this.hs, this.depth, this.tree := hs, depth, tree;
      filled, cursorDepth, cursor := [], 0, null;
      this.base, this.leaves := base, base;
      new;
      FutureEnd(Address(0, |base| - 1), 0);
      RepresentsSize(hs, depth, tree, base);
    }

    /** `witnessed_position` */
    method WitnessedPosition() returns (position: nat)
      requires Valid()
      ensures position == |base| - 1
    {
      RepresentsSize(hs, depth, tree, base);
      position := Size(tree) - 1;
    }

    /** The filler for roots and paths: the filled subtrees, then the cursor's partial subtree. */
    method Filler() returns (queue: seq<H>)
      requires Valid()
      ensures queue == Filled(hs, leaves, Address(0, |base| - 1), |queue|)
      ensures |leaves| <= Future(Address(0, |base| - 1), |queue|).RangeEnd()
    {
      queue := filled;
      if cursor != null {
        WaitingFacts(|base|, |filled|, |leaves|, depth);
        CursorRoot(hs, depth, leaves, Waiting(|base|, |filled|), cursor.Contents());
        queue := filled + [RootAtDepth(hs, cursor.Contents(), cursorDepth, [])];
        FilledSnoc(hs, leaves, Address(0, |base| - 1), |filled|);
        FutureNext(Address(0, |base| - 1), |filled|);
      }
    }

    /** `IncrementalWitness::append`: fails exactly when all `2^depth` leaves are covered. */
    method Append(node: H) returns (ok: bool)
      requires Valid()
      modifies this, cursor
      ensures Valid() && (cursor == null || cursor == old(cursor) || fresh(cursor))
      ensures ok <==> |old(leaves)| < Pow2(depth)
      ensures leaves == if ok then old(leaves) + [node] else old(leaves)
    {
      if cursor != null {
        CursorAccepts(hs, depth, tree, base, leaves, filled, cursorDepth, cursor.Contents());
        ok := cursor.Append(node);
        CursorStep(hs, depth, tree, base, leaves, filled, cursorDepth, old(cursor.Contents()), node);
        leaves := leaves + [node];
        if IsComplete(cursor.Contents(), cursorDepth) {
          filled := filled + [RootAtDepth(hs, cursor.Contents(), cursorDepth, [])];
          cursor := null;
        }
      } else {
        StartStep(hs, depth, tree, base, leaves, filled, cursorDepth, node);
        RepresentsSize(hs, depth, tree, base);
        cursorDepth := NextDepth(tree, |filled|);
        if cursorDepth >= depth { return false; }
        if cursorDepth == 0 {
          filled := filled + [node];
        } else {
          var started := new CommitmentTree(hs, depth, Parts(None, None, []));
          var _ := started.Append(node);
          cursor := started;
        }
        leaves := leaves + [node];
        ok := true;
      }
    }

    /** `IncrementalWitness::root` */
    method GetRoot() returns (root: H)
      requires Valid()
      ensures root == Root(hs, leaves, depth, 0)
    {
      var queue := Filler();
      AboveBase();
      RootAtDepthCorrect(hs, depth, tree, base, leaves, queue, depth);
      root := RootAtDepth(hs, tree, depth, queue);
    }

    lemma AboveBase()
      requires Valid()
      ensures Above(depth, |base| - 1) == 0
    {
      WaitingFacts(|base|, |filled|, |leaves|, depth);
    }

    /** `IncrementalWitness::path`: the sibling hashes of the witnessed leaf in the present tree. */
    method GetPath() returns (path: seq<H>, position: nat)
      requires Valid()
      ensures position == |base| - 1 && path == RefPath(hs, leaves, position, depth)
      ensures PathRoot(hs, base[position], path, position) == Root(hs, leaves, depth, 0)
    {
      var queue := Filler();
      position := WitnessedPosition();
      AboveBase();
      PathOfTree(hs, depth, tree, base, leaves, queue);
      PathFolds(hs, leaves, position, depth);
      path := if tree.right.Some? then [tree.left.value] + PathParents(hs, tree.parents, 1, queue, depth)
              else [FillerNext(hs, queue, 0)] + PathParents(hs, tree.parents, 1, FillerRest(queue), depth);
    }

    /** `tip_position` */
    method TipPosition() returns (tip: nat)
      requires Valid()
      ensures tip + 1 == |leaves|
    {
      tip := WitnessedPosition();
      WaitingFacts(|base|, |filled|, |leaves|, depth);
      ClimbAbove(tip, 0, depth);
      StartIsShift(depth, 1);
      FilledLeavesIs(Address(0, tip), |filled|, depth);
      tip := tip + FilledLeaves(Address(0, tip), |filled|, depth);
      if cursor != null {
        RepresentsSize(hs, depth, cursor.Contents(), leaves[Waiting(|base|, |filled|).RangeEnd()..]);
        tip := tip + Size(cursor.Contents());
      }
    }
  }

  /** The stored left leaf or the first filled hash, then the rest of the path. */
  lemma RefPathFirst<H>(hs: Hashable<H>, leaves: seq<H>, pos: nat, index: nat, depth: nat)
    requires depth > 0 && (pos == 2 * index || pos == 2 * index + 1)
    ensures RefPath(hs, leaves, pos, depth) ==
      [LeafAt(hs, leaves, if pos == 2 * index then pos + 1 else pos - 1)] + PathFrom(hs, leaves, 1, index, depth)
  {
    PathFromIsRef(hs, leaves, 0, pos, depth);
  }

  /** The path of a right leaf: its left neighbour, then the slots. */
  lemma PathOfRight<H>(hs: Hashable<H>, leaves: seq<H>, pos: nat, parents: seq<Option<H>>, queue: seq<H>, depth: nat)
    requires depth > 0 && pos == 2 * ParentsIndex(parents) + 1 && pos < |leaves|
    requires Compact(parents) == OmmersAbove(hs, leaves, 1, ParentsIndex(parents))
    requires queue == Filled(hs, leaves, Address(1, ParentsIndex(parents)), |queue|)
    requires |leaves| <= Future(Address(1, ParentsIndex(parents)), |queue|).RangeEnd()
    ensures RefPath(hs, leaves, pos, depth) == [leaves[pos - 1]] + PathParents(hs, parents, 1, queue, depth)
  {
    assert LeafAt(hs, leaves, pos - 1) == leaves[pos - 1];
    hide *;
    RefPathFirst(hs, leaves, pos, ParentsIndex(parents), depth);
    PathParentsCorrect(hs, leaves, parents, 1, queue, depth);
  }

  /** The path of a left leaf: its right neighbour from the filler, then the slots. */
  lemma PathOfLeft<H>(hs: Hashable<H>, leaves: seq<H>, pos: nat, parents: seq<Option<H>>, queue: seq<H>, depth: nat)
    requires depth > 0 && pos == 2 * ParentsIndex(parents)
    requires Compact(parents) == OmmersAbove(hs, leaves, 1, ParentsIndex(parents))
    requires queue == Filled(hs, leaves, Address(0, pos), |queue|)
    requires |leaves| <= Future(Address(0, pos), |queue|).RangeEnd()
    ensures RefPath(hs, leaves, pos, depth) ==
      [FillerNext(hs, queue, 0)] + PathParents(hs, parents, 1, FillerRest(queue), depth)
  {
    hide *;
    RefPathFirst(hs, leaves, pos, ParentsIndex(parents), depth);
    FirstFiller(hs, leaves, pos, queue);
    PathParentsCorrect(hs, leaves, parents, 1, FillerRest(queue), depth);
  }

  /** A right leaf and the node above it wait for the same subtrees. */
  lemma FilledAboveRight<H>(hs: Hashable<H>, leaves: seq<H>, pos: nat, k: nat)
    requires pos % 2 == 1
    ensures Filled(hs, leaves, Address(0, pos), k) == Filled(hs, leaves, Address(1, pos / 2), k)
    ensures Future(Address(0, pos), k) == Future(Address(1, pos / 2), k)
  {
  }

  lemma PathOfTree<H>(hs: Hashable<H>, depth: nat, tree: Parts<H>, base: seq<H>, leaves: seq<H>, queue: seq<H>)
    requires Represents(hs, depth, tree, base) && base != [] && base <= leaves && depth > 0
    requires queue == Filled(hs, leaves, Address(0, |base| - 1), |queue|)
    requires |leaves| <= Future(Address(0, |base| - 1), |queue|).RangeEnd()
    ensures tree.left.Some?
    ensures RefPath(hs, leaves, |base| - 1, depth) ==
      if tree.right.Some? then [tree.left.value] + PathParents(hs, tree.parents, 1, queue, depth)
      else [FillerNext(hs, queue, 0)] + PathParents(hs, tree.parents, 1, FillerRest(queue), depth)
  {
    hide *;
    var pos := |base| - 1;
    SlotOmmers(hs, depth, tree, base, leaves);
    if tree.right.Some? {
      FilledAboveRight(hs, leaves, pos, |queue|);
      PathOfRight(hs, leaves, pos, tree.parents, queue, depth);
    } else {
      PathOfLeft(hs, leaves, pos, tree.parents, queue, depth);
    }
  }

  /** `from_tree`: nothing can be witnessed in an empty tree. */
  method FromTree<H>(hs: Hashable<H>, depth: nat, tree: Parts<H>, ghost base: seq<H>)
    returns (w: IncrementalWitness?<H>)
    requires depth > 0 && Represents(hs, depth, tree, base)
    ensures w == null <==> base == []
    ensures w != null ==>
      fresh(w) && w.Valid() && w.leaves == base == w.base && w.hs == hs && w.depth == depth && w.cursor == null
  {
    RepresentsSize(hs, depth, tree, base);
    if tree.IsEmpty() { return null; }
    w := new IncrementalWitness(hs, depth, tree, base);
  }

  /** The tree and the witness are over the same leaves, and the witness is for the last leaf of `base`. */
  ghost predicate InStep<H>(tree: CommitmentTree<H>, w: IncrementalWitness<H>, base: seq<H>, leaves: seq<H>)
    reads tree, w, w.cursor
  {
    && w.Valid() && w.base == base && w.hs == tree.hs && w.depth == tree.depth && w.leaves == leaves
    && Represents(tree.hs, tree.depth, tree.Contents(), leaves)
  }

  /** The same leaf to both: both take it or both are full. */
  method AppendToBoth<H>(tree: CommitmentTree<H>, w: IncrementalWitness<H>, node: H, ghost base: seq<H>,
                         ghost leaves: seq<H>) returns (ok: bool)
    requires InStep(tree, w, base, leaves) && w.cursor != tree && leaves != [] && |leaves| <= Pow2(tree.depth)
    modifies tree, w, w.cursor
    ensures w.cursor == null || w.cursor == old(w.cursor) || fresh(w.cursor)
    ensures ok <==> |leaves| < Pow2(tree.depth)
    ensures InStep(tree, w, base, if ok then leaves + [node] else leaves)
  {
    RepresentsSize(tree.hs, tree.depth, tree.Contents(), leaves);
    FullIff(tree.depth, |leaves|);
    ghost var before := tree.Contents();
    ok := tree.Append(node);
    var taken := w.Append(node);
    assert ok == taken;
    if ok { AppendRepresents(tree.hs, tree.depth, before, leaves, node); }
  }

  lemma OneMoreOf<H>(base: seq<H>, values: seq<H>, k: nat)
    requires k < |values|
    ensures base + values[..k] + [values[k]] == base + values[..k + 1]
  {
  }

  /** Appending the same leaves to a tree and to the witness taken from it: both accept the same leaves,
      and at the end the roots agree, the path of the witnessed leaf folds to that root, and the tip is
      where the last leaf went. */
  method Lockstep<H>(tree: CommitmentTree<H>, values: seq<H>, ghost base: seq<H>)
    returns (accepted: nat, treeRoot: H, witnessRoot: H, path: seq<H>, position: nat, tip: nat)
    requires tree.depth > 0 && base != [] && Represents(tree.hs, tree.depth, tree.Contents(), base)
    modifies tree
    ensures accepted == if |base| + |values| <= Pow2(tree.depth) then |values| else Pow2(tree.depth) - |base|
    ensures treeRoot == witnessRoot == Root(tree.hs, base + values[..accepted], tree.depth, 0)
    ensures position == |base| - 1 && tip == position + accepted
    ensures PathRoot(tree.hs, base[position], path, position) == treeRoot
  {
    hide Represents, Root, PathRoot;
    RepresentsSize(tree.hs, tree.depth, tree.Contents(), base);
    var w := FromTree(tree.hs, tree.depth, tree.Contents(), base);
    accepted := 0;
    assert base + values[..0] == base;
    while accepted < |values|
      invariant accepted <= |values| && |base| + accepted <= Pow2(tree.depth)
      invariant fresh(w) && (w.cursor == null || fresh(w.cursor)) && w.cursor != tree
      invariant InStep(tree, w, base, base + values[..accepted])
    {
      ghost var now := base + values[..accepted];
      var both := AppendToBoth(tree, w, values[accepted], base, now);
      if !both { break; }
      OneMoreOf(base, values, accepted);
      accepted := accepted + 1;
    }
    treeRoot := tree.GetRoot(base + values[..accepted]);
    witnessRoot := w.GetRoot();
    path, position := w.GetPath();
    tip := w.TipPosition();
  }
}
