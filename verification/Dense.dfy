/** Shards that are only ever appended to, checkpointed, pruned and truncated: they hold exactly a prefix
    of the leaves, so the questions asked of them have answers. */
module DenseTrees {

  import opened Basics
  import opened Merkle
  import opened PrunableTrees
  import opened Pruning

  /** The tree at (level, index) holds exactly those of the first `n` leaves that lie in its range. A
      pruned leaf is never marked or a reference. */
  ghost predicate Dense<H>(level: nat, index: nat, n: nat, t: Tree<H>)
    decreases t
  {
    match t
    case Nil => n <= Start(level, index)
    case Leaf(_, flags) => End(level, index) <= n && (level > 0 ==> !flags.marked && !flags.reference)
    case Parent(ann, left, right) =>
      && level > 0 && ann.None? && Start(level, index) < n
      && Dense(level - 1, 2 * index, n, left)
      && Dense(level - 1, 2 * index + 1, n, right)
  }

  lemma {:induction false} DenseFits<H>(level: nat, index: nat, n: nat, t: Tree<H>)
    requires Dense(level, index, n, t)
    ensures Fits(level, t)
    decreases t
  {
    if t.Parent? {
      DenseFits(level - 1, 2 * index, n, t.left);
      DenseFits(level - 1, 2 * index + 1, n, t.right);
    }
  }

  /** `max_position` is the position of the last leaf, and `is_full` says whether the range is filled. */
  lemma {:induction false} DenseTip<H>(level: nat, index: nat, n: nat, t: Tree<H>)
    requires Dense(level, index, n, t)
    ensures Fits(level, t)
    ensures MaxPosition(level, index, t) ==
      if n <= Start(level, index) then None else if n < End(level, index) then Some(n - 1)
        else Some(End(level, index) - 1)
    ensures t.IsFull() <==> End(level, index) <= n
    decreases t
  {
    DenseFits(level, index, n, t);
    StartMono(level, index, index + 1);
    if t.Parent? {
      Halves(level, index);
      DenseTip(level - 1, 2 * index, n, t.left);
      DenseTip(level - 1, 2 * index + 1, n, t.right);
    }
  }

  // ---------- Nothing left to prune ----------

  /** Every pair of leaves that can be pruned to one has been. */
  predicate Tight<H>(t: Tree<H>)
  {
    t.Parent? ==> !Prunes(t.left, t.right) && Tight(t.left) && Tight(t.right)
  }

  lemma {:induction false} ExtendTight<H>(node: Located<H>, level: nat)
    requires Tight(node.root)
    ensures Tight(Extend(node, level))
    decreases level - node.addr.level
  {
    if node.addr.level < level {
      ExtendTight(Located(node.addr.Parent(), if node.addr.IsRightChild() then Parent(None, Nil, node.root)
                          else Parent(None, node.root, Nil)), level);
    }
  }

  lemma {:induction false} MergeTight<H>(hs: Hashable<H>, level: nat, index: nat, t0: Tree<H>, t1: Tree<H>)
    requires Fits(level, t0) && Fits(level, t1) && Tight(t0) && Tight(t1)
    ensures var r := Merge(hs, level, index, t0, t1); r.Ok? ==> Tight(r.value)
    decreases t0, t1
  {
    hide RootHash;
    if t0.Parent? && t1.Parent? {
      MergeTight(hs, level - 1, 2 * index, t0.left, t1.left);
      MergeTight(hs, level - 1, 2 * index + 1, t0.right, t1.right);
    }
  }

  /** Inserting leaves nothing to prune. */
  lemma {:induction false} InsertTight<H>(hs: Hashable<H>, level: nat, index: nat, t: Tree<H>, subtree: Located<H>,
                                          containsMarked: bool)
    requires Fits(level, t) && Tight(t) && Fits(subtree.addr.level, subtree.root) && Tight(subtree.root)
    requires Address(level, index).Contains(subtree.addr)
    ensures var r := Insert(hs, level, index, t, subtree, containsMarked); r.Ok? ==> Tight(r.value.0)
    decreases t
  {
    hide Merge;
    ExtendTight(subtree, level);
    if t.Parent? {
      if Address(level, index) == subtree.addr {
        MergeTight(hs, level, index, t, subtree.root);
      } else {
        ChildContains(Address(level, index), subtree.addr);
        if Address(level - 1, 2 * index).Contains(subtree.addr) {
          InsertTight(hs, level - 1, 2 * index, t.left, subtree, containsMarked);
        } else {
          InsertTight(hs, level - 1, 2 * index + 1, t.right, subtree, containsMarked);
        }
      }
    }
  }

  /** A truncation point at which every question can be answered: the tip, or just after a flagged leaf. */
  ghost predicate Answerable<H>(level: nat, index: nat, n: nat, t: Tree<H>, cut: nat)
    requires Fits(level, t)
  {
    cut == n || (cut < n && Boundary(level, index, t, cut))
  }

  lemma AnswerableChildren<H>(level: nat, index: nat, n: nat, t: Tree<H>, cut: nat)
    requires Fits(level, t) && t.Parent? && Answerable(level, index, n, t, cut)
    ensures Answerable(level - 1, 2 * index, n, t.left, cut) && Answerable(level - 1, 2 * index + 1, n, t.right, cut)
  {
    if cut < n { BoundaryChildren(level, index, t, cut); }
  }

  /** The root is computable at every such point. */
  lemma {:induction false} DenseRoot<H>(hs: Hashable<H>, level: nat, index: nat, n: nat, t: Tree<H>, cut: nat)
    requires Dense(level, index, n, t) && Fits(level, t) && Answerable(level, index, n, t, cut)
    ensures RootHash(hs, level, index, t, cut).Ok?
    decreases t
  {
    if t.Parent? {
      AnswerableChildren(level, index, n, t, cut);
      DenseRoot(hs, level - 1, 2 * index, n, t.left, cut);
      DenseRoot(hs, level - 1, 2 * index + 1, n, t.right, cut);
    }
  }

  /** A whole subtree before the tip has a computable root. */
  lemma DenseWhole<H>(hs: Hashable<H>, level: nat, index: nat, n: nat, t: Tree<H>)
    requires Dense(level, index, n, t) && Fits(level, t) && End(level, index) <= n
    ensures RootHash(hs, level, index, t, End(level, index)).Ok?
  {
    DenseRoot(hs, level, index, n, t, End(level, index));
  }

  /** A tree of height 0 gives no witness, not even an empty one. */
  lemma NoWitnessAtHeightZero<H>(hs: Hashable<H>, index: nat, t: Tree<H>, position: nat, cut: nat)
    requires Fits(0, t)
    ensures TreeWitness(hs, 0, index, t, position, cut) == Err([Address(0, index)])
  {
  }

  /** At such a point, the witness of a leaf exists exactly when the tree has a height and the leaf is marked. */
  lemma {:induction false} DenseWitness<H>(hs: Hashable<H>, level: nat, index: nat, n: nat, t: Tree<H>,
                                           position: nat, cut: nat)
    requires Dense(level, index, n, t) && Fits(level, t) && Answerable(level, index, n, t, cut)
    requires Start(level, index) <= position < End(level, index) && position < cut
    ensures TreeWitness(hs, level, index, t, position, cut).Ok? <==>
      level > 0 && FlagAt(level, index, t, position).marked
    decreases t
  {
    if t.Parent? {
      Halves(level, index);
      AnswerableChildren(level, index, n, t, cut);
      if level > 1 {
        if position < Start(level - 1, 2 * index + 1) {
          DenseWitness(hs, level - 1, 2 * index, n, t.left, position, cut);
          DenseRoot(hs, level - 1, 2 * index + 1, n, t.right, cut);
          LeftWitnessOk(hs, level, index, t, position, cut);
        } else {
          DenseWitness(hs, level - 1, 2 * index + 1, n, t.right, position, cut);
          DenseWhole(hs, level - 1, 2 * index, n, t.left);
          RightWitnessOk(hs, level, index, t, position, cut);
        }
      } else {
        DensePairWitness(hs, index, n, t, position, cut);
      }
    }
  }

  lemma LeftWitnessOk<H>(hs: Hashable<H>, level: nat, index: nat, t: Tree<H>, position: nat, cut: nat)
    requires Fits(level, t) && t.Parent? && level > 1 && position < Start(level - 1, 2 * index + 1)
    requires RootHash(hs, level - 1, 2 * index + 1, t.right, cut).Ok?
    ensures TreeWitness(hs, level, index, t, position, cut).Ok? <==>
      TreeWitness(hs, level - 1, 2 * index, t.left, position, cut).Ok?
    ensures FlagAt(level, index, t, position) == FlagAt(level - 1, 2 * index, t.left, position)
  {
  }

  lemma RightWitnessOk<H>(hs: Hashable<H>, level: nat, index: nat, t: Tree<H>, position: nat, cut: nat)
    requires Fits(level, t) && t.Parent? && level > 1 && position >= Start(level - 1, 2 * index + 1)
    requires RootHash(hs, level - 1, 2 * index, t.left, Start(level - 1, 2 * index + 1)).Ok?
    ensures TreeWitness(hs, level, index, t, position, cut).Ok? <==>
      TreeWitness(hs, level - 1, 2 * index + 1, t.right, position, cut).Ok?
    ensures FlagAt(level, index, t, position) == FlagAt(level - 1, 2 * index + 1, t.right, position)
  {
  }

  lemma DensePairWitness<H>(hs: Hashable<H>, index: nat, n: nat, t: Tree<H>, position: nat, cut: nat)
    requires Dense(1, index, n, t) && Fits(1, t) && t.Parent? && cut <= n
    requires Start(1, index) <= position < End(1, index) && position < cut
    ensures TreeWitness(hs, 1, index, t, position, cut).Ok? <==> FlagAt(1, index, t, position).marked
  {
    Halves(1, index);
    assert Dense(0, 2 * index, n, t.left) && Dense(0, 2 * index + 1, n, t.right);
    assert FlagAt(1, index, t, position) ==
      if position < 2 * index + 1 then FlagAt(0, 2 * index, t.left, position)
      else FlagAt(0, 2 * index + 1, t.right, position);
  }

  // ---------- Growing and cutting the leaf sequence ----------

  lemma {:induction false} ConsistentGrow<H>(hs: Hashable<H>, leaves: seq<H>, more: seq<H>, level: nat, index: nat,
                                             t: Tree<H>)
    requires Consistent(hs, leaves, level, index, t)
    ensures Consistent(hs, leaves + more, level, index, t)
    decreases t
  {
    if End(level, index) <= |leaves| {
      RootPrefix(hs, leaves + more, |leaves|, level, index);
      assert Take(leaves + more, |leaves|) == leaves;
    }
    if t.Parent? {
      ConsistentGrow(hs, leaves, more, level - 1, 2 * index, t.left);
      ConsistentGrow(hs, leaves, more, level - 1, 2 * index + 1, t.right);
    }
  }

  lemma {:induction false} ConsistentCut<H>(hs: Hashable<H>, leaves: seq<H>, level: nat, index: nat, n: nat, t: Tree<H>)
    requires Consistent(hs, leaves, level, index, t) && Dense(level, index, n, t) && n <= |leaves|
    ensures Consistent(hs, Take(leaves, n), level, index, t)
    decreases t
  {
    if t.Leaf? { RootPrefix(hs, leaves, n, level, index); }
    if t.Parent? {
      ConsistentCut(hs, leaves, level - 1, 2 * index, n, t.left);
      ConsistentCut(hs, leaves, level - 1, 2 * index + 1, n, t.right);
    }
  }

  lemma UniteDense<H>(hs: Hashable<H>, level: nat, index: nat, n: nat, left: Tree<H>, right: Tree<H>)
    requires level > 0 && Start(level, index) < n
    requires Dense(level - 1, 2 * index, n, left) && Dense(level - 1, 2 * index + 1, n, right)
    ensures Dense(level, index, n, Unite(hs, level - 1, None, left, right))
  {
    Halves(level, index);
  }

  // ---------- Appending a leaf ----------

  /** A position at the start of a subtree lies on left children all the way up to it. */
  lemma {:induction false} StartIsLeft(pos: nat, level: nat, k: nat)
    requires k < level && Start(level, Above(level, pos)) == pos
    ensures Above(k, pos) % 2 == 0 && Start(k, Above(k, pos)) == pos
    decreases level - k
  {
    if k + 1 < level { StartIsLeft(pos, level, k + 1); }
    var above := Above(k + 1, pos);
    assert above == Above(k, pos) / 2 && Start(k + 1, above) == Start(k, 2 * above);
    AboveRange(k, pos);
    if Above(k, pos) % 2 == 1 { StartMono(k, 2 * above, Above(k, pos)); }
  }

  /** Extending the first leaf of a subtree to that subtree. */
  lemma {:induction false} ExtendDense<H>(pos: nat, k: nat, level: nat, t: Tree<H>, flags: Flags, p: nat)
    requires k <= level && Start(level, Above(level, pos)) == pos
    requires Dense(k, Above(k, pos), pos + 1, t) && Fits(k, t)
    requires FlagAt(k, Above(k, pos), t, p) == if p == pos then flags else EPHEMERAL
    ensures var r := Extend(Located(Address(k, Above(k, pos)), t), level);
            && Dense(level, Above(level, pos), pos + 1, r) && Fits(level, r)
            && FlagAt(level, Above(level, pos), r, p) == if p == pos then flags else EPHEMERAL
    decreases level - k
  {
    if k < level {
      StartIsLeft(pos, level, k);
      var index := Above(k, pos);
      assert Above(k + 1, pos) == index / 2 && 2 * (index / 2) == index;
      Halves(k + 1, index / 2);
      ExtendDense(pos, k + 1, level, Parent(None, t, Nil), flags, p);
    }
  }

  /** Inserting the next leaf: the prefix grows by one, its flags are recorded, no other flag changes. */
  lemma {:induction false} InsertNext<H>(hs: Hashable<H>, level: nat, index: nat, n: nat, t: Tree<H>, value: H,
                                         flags: Flags, p: nat)
    requires Dense(level, index, n, t) && Fits(level, t)
    requires Start(level, index) <= n < End(level, index)
    ensures Address(level, index).Contains(Address(0, n))
    ensures var r := Insert(hs, level, index, t, Located(Address(0, n), Leaf(value, flags)), flags.marked);
            && r.Ok?
            && Dense(level, index, n + 1, r.value.0) && Fits(level, r.value.0)
            && FlagAt(level, index, r.value.0, p) == if p == n then flags else FlagAt(level, index, t, p)
    decreases t
  {
    hide RootHash, Merge, Extend;
    AboveUnique(level, n, index);
    ClimbAbove(n, 0, level);
    assert Above(0, n) == n;
    var leaf := Located(Address(0, n), Leaf(value, flags));
    if t.Nil? {
      ExtendDense(n, 0, level, leaf.root, flags, p);
    } else if t.Parent? {
      Halves(level, index);
      ChildContains(Address(level, index), leaf.addr);
      DenseMore(level - 1, 2 * index, n, t.left);
      DenseMore(level - 1, 2 * index + 1, n, t.right);
      if n < End(level - 1, 2 * index) {
        InsertNext(hs, level - 1, 2 * index, n, t.left, value, flags, p);
        var l := Insert(hs, level - 1, 2 * index, t.left, leaf, flags.marked).value.0;
        UniteDense(hs, level, index, n + 1, l, t.right);
        UniteFlags(hs, level, index, None, l, t.right, p);
      } else {
        InsertNext(hs, level - 1, 2 * index + 1, n, t.right, value, flags, p);
        var r := Insert(hs, level - 1, 2 * index + 1, t.right, leaf, flags.marked).value.0;
        UniteDense(hs, level, index, n + 1, t.left, r);
        UniteFlags(hs, level, index, None, t.left, r, p);
      }
    }
  }

  /** A leaf outside a tree's range does not concern it. */
  lemma {:induction false} DenseMore<H>(level: nat, index: nat, n: nat, t: Tree<H>)
    requires Dense(level, index, n, t)
    ensures n < Start(level, index) || End(level, index) <= n ==> Dense(level, index, n + 1, t)
    decreases t
  {
    StartMono(level, index, index + 1);
    if t.Parent? {
      Halves(level, index);
      DenseMore(level - 1, 2 * index, n, t.left);
      DenseMore(level - 1, 2 * index + 1, n, t.right);
    }
  }

  // ---------- Checkpointing the tip ----------

  /** The inner `go` of `ShardTree::checkpoint`: adds the checkpoint flag to the rightmost leaf, which
      need not be at level 0, and reports its position. */
  function MarkTip<H>(hs: Hashable<H>, level: nat, index: nat, t: Tree<H>): Option<(Tree<H>, nat)>
    requires Fits(level, t)
    decreases t
  {
    match t
    case Nil => None
    case Leaf(value, flags) =>
      StartMono(level, index, index + 1); Some((Leaf(value, flags.Or(CHECKPOINT)), End(level, index) - 1))
    case Parent(ann, left, right) =>
      match MarkTip(hs, level - 1, 2 * index + 1, right)
      case Some((newRight, pos)) => Some((Unite(hs, level - 1, ann, left, newRight), pos))
      case None =>
        match MarkTip(hs, level - 1, 2 * index, left)
        case Some((newLeft, pos)) => Some((Unite(hs, level - 1, ann, newLeft, Nil), pos))
        case None => None
  }

  /** Only the last leaf gains the flag, and nothing else changes. */
  lemma {:induction false} MarkTipExact<H>(hs: Hashable<H>, leaves: seq<H>, level: nat, index: nat, n: nat,
                                           t: Tree<H>, p: nat)
    requires Dense(level, index, n, t) && Fits(level, t) && Consistent(hs, leaves, level, index, t)
    ensures var r := MarkTip(hs, level, index, t);
            && (r.Some? <==> Start(level, index) < n)
            && (r.Some? ==>
                  && r.value.1 == (if n < End(level, index) then n - 1 else End(level, index) - 1)
                  && Dense(level, index, n, r.value.0) && Fits(level, r.value.0)
                    && Consistent(hs, leaves, level, index, r.value.0)
                  && (Start(level, index) <= p < End(level, index) ==>
                        FlagAt(level, index, r.value.0, p) ==
                          if p == r.value.1 then FlagAt(level, index, t, p).Or(CHECKPOINT)
                            else FlagAt(level, index, t, p)))
    decreases t
  {
    StartMono(level, index, index + 1);
    if t.Parent? {
      Halves(level, index);
      MarkTipExact(hs, leaves, level - 1, 2 * index + 1, n, t.right, p);
      MarkTipExact(hs, leaves, level - 1, 2 * index, n, t.left, p);
      var r := MarkTip(hs, level - 1, 2 * index + 1, t.right);
      if r.Some? {
        UnitedTip(hs, leaves, level, index, n, t.left, r.value.0, p);
      } else {
        var l := MarkTip(hs, level - 1, 2 * index, t.left);
        assert t.right.Nil?;
        UnitedTip(hs, leaves, level, index, n, l.value.0, Nil, p);
      }
    }
  }

  /** Everything that uniting two dense, consistent children keeps. */
  lemma UnitedTip<H>(hs: Hashable<H>, leaves: seq<H>, level: nat, index: nat, n: nat, left: Tree<H>,
                     right: Tree<H>, p: nat)
    requires level > 0 && Start(level, index) < n
    requires Dense(level - 1, 2 * index, n, left) && Consistent(hs, leaves, level - 1, 2 * index, left)
      && Fits(level - 1, left)
    requires Dense(level - 1, 2 * index + 1, n, right) && Consistent(hs, leaves, level - 1, 2 * index + 1, right)
      && Fits(level - 1, right)
    ensures var u := Unite(hs, level - 1, None, left, right);
            && Dense(level, index, n, u) && Consistent(hs, leaves, level, index, u) && Fits(level, u)
            && FlagAt(level, index, u, p) == FlagAt(level, index, Parent(None, left, right), p)
  {
    UniteDense(hs, level, index, n, left, right);
    UniteFlags(hs, level, index, None, left, right, p);
    UniteConsistent(hs, leaves, level, index, None, left, right);
  }

  lemma {:induction false} MarkTipTight<H>(hs: Hashable<H>, level: nat, index: nat, t: Tree<H>)
    requires Fits(level, t) && Tight(t)
    ensures var r := MarkTip(hs, level, index, t); r.Some? ==> Tight(r.value.0)
    decreases t
  {
    if t.Parent? {
      MarkTipTight(hs, level - 1, 2 * index + 1, t.right);
      MarkTipTight(hs, level - 1, 2 * index, t.left);
    }
  }

  // ---------- Truncating ----------

  /** `truncate_to_position`, below its range check. */
  function TruncateTo<H>(hs: Hashable<H>, level: nat, index: nat, t: Tree<H>, position: nat): Option<Tree<H>>
    requires Fits(level, t)
    decreases t
  {
    match t
    case Nil => None
    case Leaf(_, _) => if End(level, index) <= position + 1 then Some(t) else None
    case Parent(ann, left, right) =>
      if position < Start(level - 1, 2 * index + 1) then
        match TruncateTo(hs, level - 1, 2 * index, left, position)
        case None => None
        case Some(newLeft) => Some(Unite(hs, level - 1, ann, newLeft, Nil))
      else
        match TruncateTo(hs, level - 1, 2 * index + 1, right, position)
        case None => None
        case Some(newRight) => Some(Unite(hs, level - 1, ann, left, newRight))
  }

  /** Truncation makes no tree deeper. */
  lemma {:induction false} TruncateFits<H>(hs: Hashable<H>, level: nat, index: nat, t: Tree<H>, position: nat, k: nat)
    requires Fits(level, t) && Fits(k, t)
    ensures var r := TruncateTo(hs, level, index, t, position); r.Some? ==> Fits(k, r.value)
    decreases t
  {
    if t.Parent? {
      TruncateFits(hs, level - 1, 2 * index, t.left, position, k - 1);
      TruncateFits(hs, level - 1, 2 * index + 1, t.right, position, k - 1);
    }
  }

  /** A truncated view is still a view of the leaves it was a view of. */
  lemma {:induction false} TruncateConsistent<H>(hs: Hashable<H>, leaves: seq<H>, level: nat, index: nat, t: Tree<H>,
                                                 position: nat)
    requires Consistent(hs, leaves, level, index, t) && Fits(level, t)
    ensures var r := TruncateTo(hs, level, index, t, position);
            r.Some? ==> Consistent(hs, leaves, level, index, r.value)
    decreases t
  {
    if t.Parent? {
      TruncateConsistent(hs, leaves, level - 1, 2 * index, t.left, position);
      TruncateConsistent(hs, leaves, level - 1, 2 * index + 1, t.right, position);
    }
  }

  lemma {:induction false} TruncateTight<H>(hs: Hashable<H>, level: nat, index: nat, t: Tree<H>, position: nat)
    requires Fits(level, t) && Tight(t)
    ensures var r := TruncateTo(hs, level, index, t, position); r.Some? ==> Tight(r.value)
    decreases t
  {
    if t.Parent? {
      TruncateTight(hs, level - 1, 2 * index, t.left, position);
      TruncateTight(hs, level - 1, 2 * index + 1, t.right, position);
    }
  }

  /** Whether some leaf of the tree ends at this position. */
  predicate EndsAt<H>(level: nat, index: nat, t: Tree<H>, p: nat)
    requires Fits(level, t)
    decreases t
  {
    match t
    case Nil => false
    case Leaf(_, _) => p + 1 == End(level, index)
    case Parent(_, left, right) =>
      if p < End(level - 1, 2 * index) then EndsAt(level - 1, 2 * index, left, p)
        else EndsAt(level - 1, 2 * index + 1, right, p)
  }

  /** Truncation succeeds exactly at the end of a leaf, and leaves the tree over the shorter prefix with
      the flags it had. */
  lemma {:induction false} TruncateExact<H>(hs: Hashable<H>, leaves: seq<H>, level: nat, index: nat, n: nat, t: Tree<H>,
                                            position: nat, p: nat)
    requires Dense(level, index, n, t) && Fits(level, t) && Consistent(hs, leaves, level, index, t) && n <= |leaves|
    requires Start(level, index) <= position < End(level, index) && position < n
    ensures var r := TruncateTo(hs, level, index, t, position);
            && (r.Some? <==> EndsAt(level, index, t, position))
            && (r.Some? ==>
                  && Dense(level, index, position + 1, r.value) && Fits(level, r.value)
                    && Consistent(hs, leaves, level, index, r.value)
                  && (Start(level, index) <= p < End(level, index) ==>
                        FlagAt(level, index, r.value, p) ==
                          if p <= position then FlagAt(level, index, t, p) else EPHEMERAL))
    decreases t
  {
    hide Start, Root;
    if t.Parent? {
      Halves(level, index);
      if position < Start(level - 1, 2 * index + 1) {
        TruncateExact(hs, leaves, level - 1, 2 * index, n, t.left, position, p);
        var l := TruncateTo(hs, level - 1, 2 * index, t.left, position);
        if l.Some? { UnitedTip(hs, leaves, level, index, position + 1, l.value, Nil, p); }
      } else {
        TruncateExact(hs, leaves, level - 1, 2 * index + 1, n, t.right, position, p);
        DenseLess(level - 1, 2 * index, n, t.left, position + 1);
        var r := TruncateTo(hs, level - 1, 2 * index + 1, t.right, position);
        if r.Some? { UnitedTip(hs, leaves, level, index, position + 1, t.left, r.value, p); }
      }
    }
  }

  lemma {:induction false} DenseLess<H>(level: nat, index: nat, n: nat, t: Tree<H>, m: nat)
    requires Dense(level, index, n, t) && End(level, index) <= m && m <= n
    ensures Dense(level, index, m, t)
    decreases t
  {
    StartMono(level, index, index + 1);
    if t.Parent? {
      Halves(level, index);
      DenseLess(level - 1, 2 * index, n, t.left, m);
      DenseLess(level - 1, 2 * index + 1, n, t.right, m);
    }
  }

  /** A flagged position is the end of a leaf, and so is the tip. */
  lemma {:induction false} FlaggedEnds<H>(level: nat, index: nat, n: nat, t: Tree<H>, p: nat)
    requires Dense(level, index, n, t) && Fits(level, t)
    requires Start(level, index) <= p < End(level, index)
    requires FlagAt(level, index, t, p) != EPHEMERAL || p + 1 == n
    ensures EndsAt(level, index, t, p)
    decreases t
  {
    if t.Parent? {
      Halves(level, index);
      if p < End(level - 1, 2 * index) { FlaggedEnds(level - 1, 2 * index, n, t.left, p); }
      else { FlaggedEnds(level - 1, 2 * index + 1, n, t.right, p); }
    }
  }

  // ---------- Reading a leaf ----------

  /** `value_at_position`, below its range check: only a leaf at level 0 has a value. */
  function ValueAt<H>(level: nat, index: nat, t: Tree<H>, p: nat): Option<(H, Flags)>
    requires Fits(level, t)
    decreases t
  {
    match t
    case Parent(_, left, right) =>
      if Address(level - 1, 2 * index).ContainsPosition(p) then ValueAt(level - 1, 2 * index, left, p)
      else ValueAt(level - 1, 2 * index + 1, right, p)
    case Leaf(value, flags) => if level == 0 then Some((value, flags)) else None
    case Nil => None
  }

  /** A leaf is marked exactly when it can be read and carries the mark. */
  lemma {:induction false} MarkedHasValue<H>(level: nat, index: nat, n: nat, t: Tree<H>, p: nat)
    requires Dense(level, index, n, t) && Fits(level, t) && Start(level, index) <= p < End(level, index)
    ensures FlagAt(level, index, t, p).marked <==>
      ValueAt(level, index, t, p).Some? && ValueAt(level, index, t, p).value.1.marked
    decreases t
  {
    if t.Parent? {
      Halves(level, index);
      if p < End(level - 1, 2 * index) { MarkedHasValue(level - 1, 2 * index, n, t.left, p); }
      else { MarkedHasValue(level - 1, 2 * index + 1, n, t.right, p); }
    }
  }

  // ---------- Clearing ----------

  /** Clearing, whatever is cleared, keeps a dense tree dense. */
  lemma {:induction false} ClearDense<H>(hs: Hashable<H>, level: nat, index: nat, n: nat, toClear: seq<(nat, Flags)>,
                                         t: Tree<H>)
    requires Dense(level, index, n, t) && Fits(level, t)
    ensures var r := ClearFlags(hs, level, index, toClear, t); r.Some? ==> Dense(level, index, n, r.value)
    decreases t
  {
    if toClear != [] && t.Parent? {
      var k := PartitionPoint(toClear, End(level - 1, 2 * index));
      ClearDense(hs, level - 1, 2 * index, n, toClear[..k], t.left);
      ClearDense(hs, level - 1, 2 * index + 1, n, toClear[k..], t.right);
      var l := ClearFlags(hs, level - 1, 2 * index, toClear[..k], t.left);
      var r := ClearFlags(hs, level - 1, 2 * index + 1, toClear[k..], t.right);
      if l.Some? && r.Some? { UniteDense(hs, level, index, n, l.value, r.value); }
    }
  }

  lemma {:induction false} ClearTight<H>(hs: Hashable<H>, level: nat, index: nat, toClear: seq<(nat, Flags)>,
                                         t: Tree<H>)
    requires Fits(level, t) && Tight(t)
    ensures var r := ClearFlags(hs, level, index, toClear, t); r.Some? ==> Tight(r.value)
    decreases t
  {
    if t.Parent? && toClear != [] {
      var k := PartitionPoint(toClear, End(level - 1, 2 * index));
      ClearTight(hs, level - 1, 2 * index, toClear[..k], t.left);
      ClearTight(hs, level - 1, 2 * index + 1, toClear[k..], t.right);
    }
  }

  // ---------- The last leaf ----------

  /** The position of the last leaf, if the path to it down the right ends in a leaf at level 0. */
  function Tip<H>(level: nat, index: nat, t: Tree<H>): Option<nat>
    requires Fits(level, t)
    decreases t
  {
    match t
    case Nil => None
    case Leaf(_, _) => if level == 0 then Some(index) else None
    case Parent(_, left, right) =>
      if right.Nil? then Tip(level - 1, 2 * index, left) else Tip(level - 1, 2 * index + 1, right)
  }

  /** Whether the last of `n` leaves is a leaf of its own: it has no left sibling, or one of the two has flags
      that keep them from being pruned to one. */
  predicate OnItsOwn(level: nat, n: nat, last: Flags, sibling: Flags)
  {
    level == 0 || n % 2 == 1 || last.marked || last.reference || sibling != EPHEMERAL
  }

  /** In a tree with nothing to prune the last leaf is at level 0 exactly when it is a leaf of its own. */
  lemma {:induction false} TipIff<H>(level: nat, index: nat, n: nat, t: Tree<H>)
    requires Dense(level, index, n, t) && Fits(level, t) && Tight(t) && Start(level, index) < n <= End(level, index)
    ensures Tip(level, index, t) ==
      if OnItsOwn(level, n, FlagAt(level, index, t, n - 1),
                  if n > 1 then FlagAt(level, index, t, n - 2) else EPHEMERAL) then Some(n - 1) else None
    decreases t
  {
    StartEven(level, index);
    StartEven(level, index + 1);
    if t.Parent? {
      Halves(level, index);
      if t.right.Nil? {
        TipIff(level - 1, 2 * index, n, t.left);
      } else {
        StartEven(level - 1, 2 * index + 1);
        assert Start(level - 1, 2 * index + 1) < n;
        TipIff(level - 1, 2 * index + 1, n, t.right);
      }
    }
  }

  lemma {:induction false} StartEven(level: nat, index: nat)
    ensures level > 0 ==> Start(level, index) % 2 == 0
    decreases level
  {
    if level > 1 { StartEven(level - 1, 2 * index); }
  }

  /** Every checkpoint flag to clear is that of a leaf still flagged as a checkpoint. */
  ghost predicate ClearsCheckpoints<H>(level: nat, index: nat, toClear: seq<(nat, Flags)>, t: Tree<H>)
    requires Fits(level, t)
  {
    forall i | 0 <= i < |toClear| :: toClear[i].1.checkpoint ==> FlagAt(level, index, t, toClear[i].0).checkpoint
  }

  /** Even when some entries hit leaves that were pruned long ago, exactly what was asked for is cleared. */
  lemma {:induction false} ClearDenseExact<H>(hs: Hashable<H>, level: nat, index: nat, n: nat,
                                              toClear: seq<(nat, Flags)>, t: Tree<H>, q: nat)
    requires Dense(level, index, n, t) && Fits(level, t)
      && SortedWithin(toClear, Start(level, index), End(level, index))
    requires ClearsCheckpoints(level, index, toClear, t)
    requires Start(level, index) <= q < End(level, index)
    ensures var r := ClearFlags(hs, level, index, toClear, t);
            r.Some? ==>
              && Fits(level, r.value)
              && FlagAt(level, index, r.value, q) == FlagAt(level, index, t, q).Minus(ClearedAt(toClear, q))
    decreases t
  {
    hide Start, Unite, PartitionPoint;
    ClearFits(hs, level, index, toClear, t);
    if t.Leaf? { ClearDenseLeaf(hs, level, index, n, toClear, t, q); }
    if toClear != [] && t.Parent? {
      Halves(level, index);
      SplitToClear(level, index, toClear, q);
      SplitClearsCheckpoints(level, index, toClear, t);
      var k := PartitionPoint(toClear, End(level - 1, 2 * index));
      ClearFits(hs, level - 1, 2 * index, toClear[..k], t.left);
      ClearFits(hs, level - 1, 2 * index + 1, toClear[k..], t.right);
      var l := ClearFlags(hs, level - 1, 2 * index, toClear[..k], t.left);
      var r := ClearFlags(hs, level - 1, 2 * index + 1, toClear[k..], t.right);
      if q < End(level - 1, 2 * index) { ClearDenseExact(hs, level - 1, 2 * index, n, toClear[..k], t.left, q); }
      else { ClearDenseExact(hs, level - 1, 2 * index + 1, n, toClear[k..], t.right, q); }
      if l.Some? && r.Some? { UniteFlags(hs, level, index, t.ann, l.value, r.value, q); }
    }
  }

  lemma ClearDenseLeaf<H>(hs: Hashable<H>, level: nat, index: nat, n: nat, toClear: seq<(nat, Flags)>,
                          t: Tree<H>, q: nat)
    requires t.Leaf? && Dense(level, index, n, t) && SortedWithin(toClear, Start(level, index), End(level, index))
    requires ClearsCheckpoints(level, index, toClear, t)
    requires Start(level, index) <= q < End(level, index)
    ensures var r := ClearFlags(hs, level, index, toClear, t);
            r.Some? ==> FlagAt(level, index, r.value, q) == FlagAt(level, index, t, q).Minus(ClearedAt(toClear, q))
  {
    if |toClear| == 1 {
      assert toClear[0].1.checkpoint ==> FlagAt(level, index, t, toClear[0].0).checkpoint;
      assert ClearedAt(toClear, q) == if toClear[0].0 == q then toClear[0].1 else EPHEMERAL;
      assert level == 0 ==> toClear[0].0 == q;
    }
  }

  lemma SplitClearsCheckpoints<H>(level: nat, index: nat, toClear: seq<(nat, Flags)>, t: Tree<H>)
    requires Fits(level, t) && t.Parent? && SortedWithin(toClear, Start(level, index), End(level, index))
    requires ClearsCheckpoints(level, index, toClear, t)
    ensures var k := PartitionPoint(toClear, End(level - 1, 2 * index));
            && ClearsCheckpoints(level - 1, 2 * index, toClear[..k], t.left)
            && ClearsCheckpoints(level - 1, 2 * index + 1, toClear[k..], t.right)
  {
    SplitToClear(level, index, toClear, 0);
    var k := PartitionPoint(toClear, End(level - 1, 2 * index));
    var low, high := toClear[..k], toClear[k..];
    forall i | 0 <= i < |low| && low[i].1.checkpoint ensures FlagAt(level - 1, 2 * index, t.left, low[i].0).checkpoint {
      assert FlagAt(level, index, t, toClear[i].0).checkpoint;
    }
    forall i | 0 <= i < |high| && high[i].1.checkpoint
      ensures FlagAt(level - 1, 2 * index + 1, t.right, high[i].0).checkpoint
    {
      assert FlagAt(level, index, t, toClear[k + i].0).checkpoint;
    }
  }
}
