/** `shardtree/src/prunable.rs`: exactly what merging, inserting and truncating make of the leaves, flags and hashes of
    the trees. */
module Insertions {

  import opened Basics
  import opened Merkle
  import opened PrunableTrees
  import opened Pruning
  import opened MissingNodes
  import opened DenseTrees

  // ---------- Leaves by position ----------

  /** Whether a position is covered by a leaf. */
  predicate Given<H>(level: nat, index: nat, t: Tree<H>, p: nat)
    requires Fits(level, t)
    decreases t
  {
    if t.Parent? then
      if p < End(level - 1, 2 * index) then Given(level - 1, 2 * index, t.left, p)
      else Given(level - 1, 2 * index + 1, t.right, p)
    else t.Leaf?
  }

  /** Uniting, even when it prunes, uncovers no position. */
  lemma UniteGiven<H>(hs: Hashable<H>, level: nat, index: nat, ann: Option<H>, left: Tree<H>, right: Tree<H>, p: nat)
    requires level > 0 && Fits(level - 1, left) && Fits(level - 1, right)
    ensures Fits(level, Unite(hs, level - 1, ann, left, right))
    ensures Given(level, index, Unite(hs, level - 1, ann, left, right), p) <==>
      Given(level, index, Parent(ann, left, right), p)
  {
  }

  lemma GivenReannotated<H>(level: nat, index: nat, t: Tree<H>, ann: Option<H>, p: nat)
    requires Fits(level, t)
    ensures Fits(level, t.Reannotate(ann))
    ensures Given(level, index, t.Reannotate(ann), p) <==> Given(level, index, t, p)
    ensures FlagAt(level, index, t.Reannotate(ann), p) == FlagAt(level, index, t, p)
  {
  }

  // ---------- Merging ----------

  /** Of two trees, the one that reaches further down at a position decides; at the same level both do. */
  function MergedFlags<H>(level: nat, index: nat, t0: Tree<H>, t1: Tree<H>, p: nat): Flags
    requires Fits(level, t0) && Fits(level, t1)
  {
    var n0, n1 := EndLevel(level, index, t0, p), EndLevel(level, index, t1, p);
    if n0 < n1 then FlagAt(level, index, t0, p)
    else if n1 < n0 then FlagAt(level, index, t1, p)
    else FlagAt(level, index, t0, p).Or(FlagAt(level, index, t1, p))
  }

  predicate MergedGiven<H>(level: nat, index: nat, t0: Tree<H>, t1: Tree<H>, p: nat)
    requires Fits(level, t0) && Fits(level, t1)
  {
    var n0, n1 := EndLevel(level, index, t0, p), EndLevel(level, index, t1, p);
    (n0 <= n1 && Given(level, index, t0, p)) || (n1 <= n0 && Given(level, index, t1, p))
  }

  /** Exactly which positions a merged tree covers, and with which flags. */
  lemma {:induction false} MergeExact<H>(hs: Hashable<H>, level: nat, index: nat, t0: Tree<H>, t1: Tree<H>, p: nat)
    requires Fits(level, t0) && Fits(level, t1)
    ensures var r := Merge(hs, level, index, t0, t1);
            r.Ok? ==>
              && Fits(level, r.value)
              && FlagAt(level, index, r.value, p) == MergedFlags(level, index, t0, t1, p)
              && (Given(level, index, r.value, p) <==> MergedGiven(level, index, t0, t1, p))
    decreases t0, t1
  {
    hide RootHash, Insert;
    if t0.Parent? && t1.Parent? {
      MergeExact(hs, level - 1, 2 * index, t0.left, t1.left, p);
      MergeExact(hs, level - 1, 2 * index + 1, t0.right, t1.right, p);
      var left, right := Merge(hs, level - 1, 2 * index, t0.left, t1.left),
        Merge(hs, level - 1, 2 * index + 1, t0.right, t1.right);
      if left.Ok? && right.Ok? {
        var ann := if t0.ann.Some? then t0.ann else t1.ann;
        UniteFlags(hs, level, index, ann, left.value, right.value, p);
        UniteGiven(hs, level, index, ann, left.value, right.value, p);
      }
    }
  }

  predicate Includes(flags: Flags, some: Flags)
  {
    && (some.checkpoint ==> flags.checkpoint) && (some.marked ==> flags.marked)
    && (some.reference ==> flags.reference)
  }

  /** The flags that one tree has at a position are kept exactly if the other does not reach further down there, or has
      them as well. A leaf at level 0 keeps all of its flags. */
  lemma MergeKeepsFlags<H>(hs: Hashable<H>, level: nat, index: nat, t0: Tree<H>, t1: Tree<H>, p: nat)
    requires Fits(level, t0) && Fits(level, t1)
    ensures var r := Merge(hs, level, index, t0, t1);
            r.Ok? ==>
              && Fits(level, r.value)
              && (Includes(FlagAt(level, index, r.value, p), FlagAt(level, index, t1, p)) <==>
                  || EndLevel(level, index, t1, p) <= EndLevel(level, index, t0, p)
                  || Includes(FlagAt(level, index, t0, p), FlagAt(level, index, t1, p)))
  {
    hide Merge;
    MergeExact(hs, level, index, t0, t1, p);
  }

  /** Merging is meant to lose nothing, but the flags of a leaf above level 0 go where the other tree has a parent: the
      checkpoint on the pruned pair is lost. */
  lemma MergeLosesFlag<H>(hs: Hashable<H>, a: H, b: H)
    ensures var pruned, pair := Leaf(hs.combine(0, a, b), CHECKPOINT),
              Parent(None, Leaf(a, EPHEMERAL), Leaf(b, MARKED));
            && Consistent(hs, [a, b], 1, 0, pruned) && Consistent(hs, [a, b], 1, 0, pair)
            && Merge(hs, 1, 0, pruned, pair) == Ok(pair.Reannotate(Some(hs.combine(0, a, b))))
            && FlagAt(1, 0, pruned, 1).checkpoint && !FlagAt(1, 0, pair, 1).checkpoint
  {
    assert Start(0, 1) == 1 && Start(1, 1) == 2;
    assert Root(hs, [a, b], 0, 0) == a && Root(hs, [a, b], 0, 1) == b;
    assert Root(hs, [a, b], 1, 0) == hs.combine(0, a, b);
    var pair := Parent(None, Leaf(a, EPHEMERAL), Leaf(b, MARKED));
    assert Consistent(hs, [a, b], 0, 0, pair.left) && Consistent(hs, [a, b], 0, 1, pair.right);
    assert RootHash(hs, 0, 0, pair.left, 2) == Ok(a) && RootHash(hs, 0, 1, pair.right, 2) == Ok(b);
    assert RootHash(hs, 1, 0, pair, 2) == Ok(hs.combine(0, a, b));
  }

  // ---------- Extending ----------

  /** A node surrounded by empty siblings: what it says below stays, and nothing else is covered. */
  lemma {:induction false} ExtendExact<H>(node: Located<H>, level: nat, p: nat)
    requires node.addr.level <= level && Fits(node.addr.level, node.root)
    requires Climb(node.addr, level).ContainsPosition(p)
    ensures var r, index := Extend(node, level), Climb(node.addr, level).index;
            && Fits(level, r)
            && (if node.addr.ContainsPosition(p) then
                  && FlagAt(level, index, r, p) == FlagAt(node.addr.level, node.addr.index, node.root, p)
                  && (Given(level, index, r, p) <==> Given(node.addr.level, node.addr.index, node.root, p))
                else FlagAt(level, index, r, p) == EPHEMERAL && !Given(level, index, r, p))
    decreases level - node.addr.level
  {
    if node.addr.level < level {
      var up := Located(node.addr.Parent(), if node.addr.IsRightChild() then Parent(None, Nil, node.root)
                        else Parent(None, node.root, Nil));
      Halves(up.addr.level, up.addr.index);
      assert 2 * up.addr.index == if node.addr.IsRightChild() then node.addr.index - 1 else node.addr.index;
      ExtendExact(up, level, p);
    }
  }

  /** The nodes below an extended node are as they were. */
  lemma {:induction false} ExtendNodes<H>(node: Located<H>, level: nat, addr: Address)
    requires node.addr.level <= level && Fits(node.addr.level, node.root) && node.addr.Contains(addr)
    ensures Fits(level, Extend(node, level))
    ensures NodeAt(level, Climb(node.addr, level).index, Extend(node, level), addr) ==
      NodeAt(node.addr.level, node.addr.index, node.root, addr)
    decreases level - node.addr.level
  {
    if node.addr.level < level {
      var up := Located(node.addr.Parent(), if node.addr.IsRightChild() then Parent(None, Nil, node.root)
                        else Parent(None, node.root, Nil));
      assert 2 * up.addr.index == if node.addr.IsRightChild() then node.addr.index - 1 else node.addr.index;
      ChildWithin(up.addr.level, up.addr.index, addr);
      NodeBelow(up.addr.level, up.addr.index, up.root, addr);
      ExtendNodes(up, level, addr);
    }
  }

  // ---------- Inserting ----------

  /** The leaf or empty node that covers a position lies above the place of the insertion, and is replaced. */
  predicate Replaced<H>(level: nat, index: nat, into: Tree<H>, addr: Address, p: nat)
    requires Fits(level, into)
  {
    var n := EndLevel(level, index, into, p);
    Address(n, Above(n, p)).Contains(addr)
  }

  /** A leaf is put in place of a leaf. */
  predicate LeafForLeaf<H>(level: nat, index: nat, into: Tree<H>, subtree: Located<H>)
    requires Fits(level, into)
  {
    var node := NodeAt(level, index, into, subtree.addr);
    node.Some? && node.value.Leaf? && subtree.root.Leaf?
  }

  /** The flags after an insertion. Within the inserted tree's range, the tree that reaches further down decides, and at
      the same level both do (a leaf put in place of a leaf keeps the reference flag only if both have it); outside
      of it they stay, except that a leaf which has to be split for the insertion loses its own. */
  function InsertedFlags<H>(level: nat, index: nat, into: Tree<H>, subtree: Located<H>, p: nat): Flags
    requires Fits(level, into) && Fits(subtree.addr.level, subtree.root)
  {
    var old_, new_ := FlagAt(level, index, into, p), FlagAt(subtree.addr.level, subtree.addr.index, subtree.root, p);
    var n0, n1 := EndLevel(level, index, into, p), EndLevel(subtree.addr.level, subtree.addr.index, subtree.root, p);
    if subtree.root.Nil? then old_
    else if !subtree.addr.ContainsPosition(p) then
      if Replaced(level, index, into, subtree.addr, p) then EPHEMERAL else old_
    else if n0 < n1 then old_
    else if n1 < n0 then new_
    else if LeafForLeaf(level, index, into, subtree) then
      Flags(old_.checkpoint || new_.checkpoint, old_.marked || new_.marked, old_.reference && new_.reference)
    else old_.Or(new_)
  }

  predicate InsertedGiven<H>(level: nat, index: nat, into: Tree<H>, subtree: Located<H>, p: nat)
    requires Fits(level, into) && Fits(subtree.addr.level, subtree.root)
  {
    var old_, new_ := Given(level, index, into, p), Given(subtree.addr.level, subtree.addr.index, subtree.root, p);
    var n0, n1 := EndLevel(level, index, into, p), EndLevel(subtree.addr.level, subtree.addr.index, subtree.root, p);
    if subtree.root.Nil? then old_
    else if !subtree.addr.ContainsPosition(p) then old_ && !Replaced(level, index, into, subtree.addr, p)
    else (n0 <= n1 && old_) || (n1 <= n0 && new_)
  }

  /** The node that covers a position in the other half does not lie above the insertion. */
  lemma OtherHalf<H>(level: nat, index: nat, into: Tree<H>, addr: Address, p: nat)
    requires Fits(level, into) && into.Parent? && Start(level, index) <= p < End(level, index)
    requires Address(level, index).Contains(addr) && addr.level < level
    requires Address(level - 1, 2 * index).Contains(addr) <==> p >= End(level - 1, 2 * index)
    ensures !addr.ContainsPosition(p) && !Replaced(level, index, into, addr, p)
  {
    ChildContains(Address(level, index), addr);
    Halves(level, index);
    var child := Above(level - 1, p);
    PositionSide(level, index, p);
    var other := Address(level - 1, if child == 2 * index then 2 * index + 1 else 2 * index);
    assert other.Contains(addr);
    ContainsRange(other, addr);
    var n := EndLevel(level, index, into, p);
    ClimbAbove(p, n, level - 1);
    if Address(n, Above(n, p)).Contains(addr) {
      ContainsThrough(Address(level - 1, child), Address(n, Above(n, p)), addr);
    }
  }

  /** Exactly which positions are covered after an insertion, and with which flags. */
  lemma {:induction false} InsertExact<H>(hs: Hashable<H>, level: nat, index: nat, into: Tree<H>, subtree: Located<H>,
                                          marked: bool, p: nat)
    requires Fits(level, into) && Fits(subtree.addr.level, subtree.root)
    requires Address(level, index).Contains(subtree.addr) && Start(level, index) <= p < End(level, index)
    ensures var r := Insert(hs, level, index, into, subtree, marked);
            r.Ok? ==>
              && Fits(level, r.value.0)
              && FlagAt(level, index, r.value.0, p) == InsertedFlags(level, index, into, subtree, p)
              && (Given(level, index, r.value.0, p) <==> InsertedGiven(level, index, into, subtree, p))
    decreases into
  {
    var r := Insert(hs, level, index, into, subtree, marked);
    if subtree.root.Nil? {
    } else if into.Parent? {
      if Address(level, index) == subtree.addr { MergeExact(hs, level, index, into, subtree.root, p); }
      else { InsertBelowExact(hs, level, index, into, subtree, marked, p); }
    } else {
      AboveUnique(level, p, index);
      OneNode(level, index, into, subtree.addr);
      ExtendExact(subtree, level, p);
      GivenReannotated(level, index, Extend(subtree, level), None, p);
      if into.Leaf? {
        GivenReannotated(level, index, Extend(subtree, level), Some(into.value), p);
        GivenReannotated(subtree.addr.level, subtree.addr.index, subtree.root, Some(into.value), p);
      }
    }
  }

  lemma {:induction false} InsertBelowExact<H>(hs: Hashable<H>, level: nat, index: nat, into: Tree<H>,
                                               subtree: Located<H>, marked: bool, p: nat)
    requires Fits(level, into) && Fits(subtree.addr.level, subtree.root) && !subtree.root.Nil?
    requires Address(level, index).Contains(subtree.addr) && Start(level, index) <= p < End(level, index)
    requires into.Parent? && Address(level, index) != subtree.addr
    ensures var r := Insert(hs, level, index, into, subtree, marked);
            r.Ok? ==>
              && Fits(level, r.value.0)
              && FlagAt(level, index, r.value.0, p) == InsertedFlags(level, index, into, subtree, p)
              && (Given(level, index, r.value.0, p) <==> InsertedGiven(level, index, into, subtree, p))
    decreases into, 0
  {
    ChildContains(Address(level, index), subtree.addr);
    Halves(level, index);
    NodeBelow(level, index, into, subtree.addr);
    var inLeft := Address(level - 1, 2 * index).Contains(subtree.addr);
    var part, i := if inLeft then into.left else into.right, if inLeft then 2 * index else 2 * index + 1;
    var r := Insert(hs, level - 1, i, part, subtree, marked);
    InsertGrows(hs, level - 1, i, part, subtree, marked);
    if r.Ok? {
      var left, right := if inLeft then r.value.0 else into.left, if inLeft then into.right else r.value.0;
      UniteFlags(hs, level, index, into.ann, left, right, p);
      UniteGiven(hs, level, index, into.ann, left, right, p);
      if inLeft == (p < End(level - 1, 2 * index)) {
        InsertExact(hs, level - 1, i, part, subtree, marked, p);
      } else {
        OtherHalf(level, index, into, subtree.addr, p);
      }
    }
  }

  /** The flags that the inserted tree has at a position, but for the reference flag, are there afterwards exactly if
      the tree did not reach further down there, or had them as well; a leaf at level 0 is there with all of them. */
  lemma InsertKeepsFlags<H>(hs: Hashable<H>, level: nat, index: nat, into: Tree<H>, subtree: Located<H>, marked: bool,
                            p: nat)
    requires Fits(level, into) && Fits(subtree.addr.level, subtree.root)
    requires Address(level, index).Contains(subtree.addr) && Start(level, index) <= p < End(level, index)
    requires !subtree.root.Nil? && subtree.addr.ContainsPosition(p)
    ensures var r := Insert(hs, level, index, into, subtree, marked);
            var flags := FlagAt(subtree.addr.level, subtree.addr.index, subtree.root, p).Minus(REFERENCE);
            var n0, n1 := EndLevel(level, index, into, p),
              EndLevel(subtree.addr.level, subtree.addr.index, subtree.root, p);
            r.Ok? ==>
              && Fits(level, r.value.0)
              && (Includes(FlagAt(level, index, r.value.0, p), flags) <==>
                  n1 <= n0 || Includes(FlagAt(level, index, into, p), flags))
              && (n1 <= n0 && Given(subtree.addr.level, subtree.addr.index, subtree.root, p) ==>
                    Given(level, index, r.value.0, p))
  {
    hide Insert;
    InsertExact(hs, level, index, into, subtree, marked, p);
  }

  /** The flags that were there at a position outside of the inserted tree stay exactly if there are none, or no leaf
      has to be split there. */
  lemma InsertKeepsOthers<H>(hs: Hashable<H>, level: nat, index: nat, into: Tree<H>, subtree: Located<H>, marked: bool,
                             p: nat)
    requires Fits(level, into) && Fits(subtree.addr.level, subtree.root)
    requires Address(level, index).Contains(subtree.addr) && Start(level, index) <= p < End(level, index)
    requires !subtree.root.Nil? && !subtree.addr.ContainsPosition(p)
    ensures var r := Insert(hs, level, index, into, subtree, marked);
            r.Ok? ==>
              && Fits(level, r.value.0)
              && (FlagAt(level, index, r.value.0, p) == FlagAt(level, index, into, p) <==>
                  FlagAt(level, index, into, p) == EPHEMERAL || !Replaced(level, index, into, subtree.addr, p))
  {
    hide Insert;
    InsertExact(hs, level, index, into, subtree, marked, p);
  }

  // ---------- Hashes ----------

  /** A node's root can be computed, or it has been pruned into a leaf above it. */
  predicate Settled<H>(level: nat, index: nat, t: Tree<H>, addr: Address)
    requires Fits(level, t) && Address(level, index).Contains(addr)
    decreases t
  {
    if Address(level, index) == addr then t.HasComputableRoot()
    else if t.Parent? then
      ChildContains(Address(level, index), addr);
      if Address(level - 1, 2 * index).Contains(addr) then Settled(level - 1, 2 * index, t.left, addr)
      else Settled(level - 1, 2 * index + 1, t.right, addr)
    else t.Leaf?
  }

  lemma UniteSettled<H>(hs: Hashable<H>, level: nat, index: nat, ann: Option<H>, left: Tree<H>, right: Tree<H>,
                        addr: Address)
    requires level > 0 && Fits(level - 1, left) && Fits(level - 1, right) && Address(level, index).Contains(addr)
    ensures Fits(level, Unite(hs, level - 1, ann, left, right))
    ensures Settled(level, index, Parent(ann, left, right), addr) ==>
      Settled(level, index, Unite(hs, level - 1, ann, left, right), addr)
  {
    if addr != Address(level, index) { ChildContains(Address(level, index), addr); }
  }

  lemma {:induction false} ComputesSettled<H>(level: nat, index: nat, t: Tree<H>, addr: Address)
    requires Fits(level, t) && Address(level, index).Contains(addr)
    ensures Computes(level, index, t, addr) ==> Settled(level, index, t, addr)
    decreases t
  {
    if t.Parent? && Address(level, index) != addr {
      NodeBelow(level, index, t, addr);
      ChildContains(Address(level, index), addr);
      if Address(level - 1, 2 * index).Contains(addr) { ComputesSettled(level - 1, 2 * index, t.left, addr); }
      else { ComputesSettled(level - 1, 2 * index + 1, t.right, addr); }
    }
  }

  /** Merging keeps every root that either tree could compute, unless pruning makes it part of a leaf. */
  lemma {:induction false} MergeSettles<H>(hs: Hashable<H>, level: nat, index: nat, t0: Tree<H>, t1: Tree<H>,
                                           addr: Address)
    requires Fits(level, t0) && Fits(level, t1) && Address(level, index).Contains(addr)
    ensures var r := Merge(hs, level, index, t0, t1);
            r.Ok? && (Computes(level, index, t0, addr) || Computes(level, index, t1, addr)) ==>
              Fits(level, r.value) && Settled(level, index, r.value, addr)
    decreases t0, t1
  {
    hide RootHash, Insert, Unite;
    var r := Merge(hs, level, index, t0, t1);
    MergeGrows(hs, level, index, t0, t1);
    ComputesSettled(level, index, t0, addr);
    ComputesSettled(level, index, t1, addr);
    if t0.Parent? && t1.Parent? {
      var left, right := Merge(hs, level - 1, 2 * index, t0.left, t1.left),
        Merge(hs, level - 1, 2 * index + 1, t0.right, t1.right);
      NodeBelow(level, index, t0, addr);
      NodeBelow(level, index, t1, addr);
      var l, r := Address(level - 1, 2 * index), Address(level - 1, 2 * index + 1);
      MergeGrows(hs, level - 1, 2 * index, t0.left, t1.left);
      MergeGrows(hs, level - 1, 2 * index + 1, t0.right, t1.right);
      if left.Ok? && right.Ok? {
        if addr == Address(level, index) {
          MergeSettles(hs, level - 1, 2 * index, t0.left, t1.left, l);
          MergeSettles(hs, level - 1, 2 * index + 1, t0.right, t1.right, r);
        } else {
          ChildContains(Address(level, index), addr);
          if l.Contains(addr) { MergeSettles(hs, level - 1, 2 * index, t0.left, t1.left, addr); }
          else { MergeSettles(hs, level - 1, 2 * index + 1, t0.right, t1.right, addr); }
        }
        UniteSettled(hs, level, index, if t0.ann.Some? then t0.ann else t1.ann, left.value, right.value, addr);
      }
    } else if t0.Leaf? || t1.Leaf? {
      OneNodeOf(level, index, t0, addr);
      OneNodeOf(level, index, t1, addr);
    }
  }

  lemma OneNodeOf<H>(level: nat, index: nat, t: Tree<H>, addr: Address)
    requires Fits(level, t)
    ensures !t.Parent? ==> NodeAt(level, index, t, addr) == if addr == Address(level, index) then Some(t) else None
  {
  }

  /** Inserting into an empty node puts the tree there without the hash that its root was annotated with. */
  predicate DropsHash<H>(level: nat, index: nat, into: Tree<H>, subtree: Located<H>)
    requires Fits(level, into) && Fits(subtree.addr.level, subtree.root)
  {
    && NodeAt(level, index, into, subtree.addr) == Some(Nil)
    && subtree.root.Parent? && subtree.root.ann.Some?
    && !(subtree.root.left.HasComputableRoot() && subtree.root.right.HasComputableRoot())
  }

  /** So an annotated node without anything below loses its hash in an empty tree, but not in one where a leaf or a
      parent is in its place. */
  lemma InsertDropsHash<H>(hs: Hashable<H>, h: H)
    ensures var node := Located(Address(1, 0), Parent(Some(h), Nil, Nil));
            && Fits(1, node.root) && node.addr.Contains(node.addr)
            && Insert(hs, 1, 0, Nil, node, false) == Ok((Parent(None, Nil, Nil), []))
            && Insert(hs, 1, 0, Leaf(h, EPHEMERAL), node, false) == Ok((node.root, []))
            && Insert(hs, 1, 0, Parent(None, Nil, Nil), node, false) == Ok((node.root, []))
  {
    assert Merge<H>(hs, 0, 0, Nil, Nil) == Ok(Nil) && Merge<H>(hs, 0, 1, Nil, Nil) == Ok(Nil);
  }

  lemma ReannotatedNodes<H>(level: nat, index: nat, t: Tree<H>, ann: Option<H>, addr: Address)
    requires Fits(level, t) && addr != Address(level, index)
    ensures Fits(level, t.Reannotate(ann))
    ensures NodeAt(level, index, t.Reannotate(ann), addr) == NodeAt(level, index, t, addr)
  {
  }

  /** Inserting keeps every root that could be computed before or in the inserted tree, unless pruning makes it part of
      a leaf; only the inserted tree's own root is lost, and exactly if the insertion drops its hash. */
  lemma {:induction false} InsertSettles<H>(hs: Hashable<H>, level: nat, index: nat, into: Tree<H>, subtree: Located<H>,
                                            marked: bool, addr: Address)
    requires Fits(level, into) && Fits(subtree.addr.level, subtree.root)
    requires Address(level, index).Contains(subtree.addr) && Address(level, index).Contains(addr)
    ensures var r := Insert(hs, level, index, into, subtree, marked);
            r.Ok? ==>
              && Fits(level, r.value.0)
              && (Computes(level, index, into, addr) ==> Settled(level, index, r.value.0, addr))
              && (Computes(subtree.addr.level, subtree.addr.index, subtree.root, addr) ==>
                    (Settled(level, index, r.value.0, addr) <==>
                     !(addr == subtree.addr && DropsHash(level, index, into, subtree))))
    decreases into
  {
    InsertGrows(hs, level, index, into, subtree, marked);
    var r := Insert(hs, level, index, into, subtree, marked);
    if r.Ok? {
      if subtree.root.Nil? {
        ComputesSettled(level, index, into, addr);
        OneNodeOf(subtree.addr.level, subtree.addr.index, subtree.root, addr);
      } else if into.Parent? {
        NodeBelow(level, index, into, subtree.addr);
        if Address(level, index) == subtree.addr { MergeSettles(hs, level, index, into, subtree.root, addr); }
        else { InsertBelowSettles(hs, level, index, into, subtree, marked, addr); }
      } else {
        InsertAtEndSettles(hs, level, index, into, subtree, marked, addr);
      }
    }
  }

  lemma InsertAtEndSettles<H>(hs: Hashable<H>, level: nat, index: nat, into: Tree<H>, subtree: Located<H>,
                              marked: bool, addr: Address)
    requires Fits(level, into) && Fits(subtree.addr.level, subtree.root)
    requires Address(level, index).Contains(subtree.addr) && Address(level, index).Contains(addr)
    requires !into.Parent? && !subtree.root.Nil?
    ensures var r := Insert(hs, level, index, into, subtree, marked);
            r.Ok? ==>
              && Fits(level, r.value.0)
              && (Computes(level, index, into, addr) ==> Settled(level, index, r.value.0, addr))
              && (Computes(subtree.addr.level, subtree.addr.index, subtree.root, addr) ==>
                    (Settled(level, index, r.value.0, addr) <==>
                     !(addr == subtree.addr && DropsHash(level, index, into, subtree))))
  {
    var r := Insert(hs, level, index, into, subtree, marked);
    if r.Ok? {
      InsertGrows(hs, level, index, into, subtree, marked);
      OneNodeOf(level, index, into, addr);
      OneNodeOf(level, index, into, subtree.addr);
      ExtendFits(subtree, level);
      ComputesSettled(level, index, r.value.0, addr);
      if subtree.addr.Contains(addr) {
        ExtendNodes(subtree, level, addr);
        if addr != Address(level, index) {
          ReannotatedNodes(level, index, Extend(subtree, level), None, addr);
          if into.Leaf? { ReannotatedNodes(level, index, Extend(subtree, level), Some(into.value), addr); }
        }
      }
    }
  }

  lemma {:induction false} InsertBelowSettles<H>(hs: Hashable<H>, level: nat, index: nat, into: Tree<H>,
                                                 subtree: Located<H>, marked: bool, addr: Address)
    requires Fits(level, into) && Fits(subtree.addr.level, subtree.root) && !subtree.root.Nil?
    requires Address(level, index).Contains(subtree.addr) && Address(level, index).Contains(addr)
    requires into.Parent? && Address(level, index) != subtree.addr
    ensures var r := Insert(hs, level, index, into, subtree, marked);
            r.Ok? ==>
              && Fits(level, r.value.0)
              && (Computes(level, index, into, addr) ==> Settled(level, index, r.value.0, addr))
              && (Computes(subtree.addr.level, subtree.addr.index, subtree.root, addr) ==>
                    (Settled(level, index, r.value.0, addr) <==>
                     !(addr == subtree.addr && DropsHash(level, index, into, subtree))))
    decreases into, 0
  {
    ChildContains(Address(level, index), subtree.addr);
    NodeBelow(level, index, into, subtree.addr);
    NodeBelow(level, index, into, addr);
    var l, r := Address(level - 1, 2 * index), Address(level - 1, 2 * index + 1);
    var inLeft := l.Contains(subtree.addr);
    var part, child := if inLeft then into.left else into.right, if inLeft then l else r;
    var done := Insert(hs, level - 1, child.index, part, subtree, marked);
    InsertGrows(hs, level - 1, child.index, part, subtree, marked);
    if done.Ok? {
      var left, right := if inLeft then done.value.0 else into.left, if inLeft then into.right else done.value.0;
      UniteSettled(hs, level, index, into.ann, left, right, addr);
      if addr == Address(level, index) {
        InsertSettles(hs, level - 1, child.index, part, subtree, marked, child);
        ClimbAtMost(subtree.addr, addr);
      } else {
        ChildContains(Address(level, index), addr);
        if child.Contains(addr) {
          InsertSettles(hs, level - 1, child.index, part, subtree, marked, addr);
        } else {
          ComputesSettled(level - 1, if inLeft then r.index else l.index, if inLeft then into.right else into.left,
                          addr);
          if subtree.addr.Contains(addr) { ContainsThrough(child, subtree.addr, addr); }
        }
      }
    }
  }

  /** A node contains nothing at its own level or above but itself. */
  lemma ClimbAtMost(below: Address, addr: Address)
    requires addr.Contains(below)
    ensures below.Contains(addr) ==> below == addr
  {
  }

  /** Settled means just that: computed, or below a leaf. */
  lemma {:induction false} SettledIff<H>(level: nat, index: nat, t: Tree<H>, addr: Address)
    requires Fits(level, t) && Address(level, index).Contains(addr)
    ensures Settled(level, index, t, addr) <==>
      Computes(level, index, t, addr) || (exists above: Address :: LeafAbove(level, index, t, addr, above))
    decreases t
  {
    if !t.Parent? {
      OneNode(level, index, t, addr);
      if t.Leaf? && addr != Address(level, index) { assert LeafAbove(level, index, t, addr, Address(level, index)); }
      forall above: Address | LeafAbove(level, index, t, addr, above) ensures t.Leaf? && addr != Address(level, index) {
        OneNode(level, index, t, above);
      }
    } else {
      NodeBelow(level, index, t, addr);
      if addr == Address(level, index) {
        forall above: Address ensures !LeafAbove(level, index, t, addr, above) {
          NodeBelow(level, index, t, above);
          if NodeAt(level, index, t, above).Some? { ClimbAtMost(above, addr); }
        }
      } else {
        ChildContains(Address(level, index), addr);
        var inLeft := Address(level - 1, 2 * index).Contains(addr);
        var part, i := if inLeft then t.left else t.right, if inLeft then 2 * index else 2 * index + 1;
        SettledIff(level - 1, i, part, addr);
        forall above: Address
          ensures LeafAbove(level, index, t, addr, above) <==> LeafAbove(level - 1, i, part, addr, above)
        {
          LeafAboveBelow(level, index, t, addr, above);
        }
        if above: Address :| LeafAbove(level, index, t, addr, above) {
          assert LeafAbove(level - 1, i, part, addr, above);
        }
        var k := level - 1;
        if above: Address :| LeafAbove(k, i, part, addr, above) { assert LeafAbove(level, index, t, addr, above); }
      }
    }
  }

  ghost predicate LeafAbove<H>(level: nat, index: nat, t: Tree<H>, addr: Address, above: Address)
    requires Fits(level, t)
  {
    var node := NodeAt(level, index, t, above);
    above != addr && above.Contains(addr) && node.Some? && node.value.Leaf?
  }

  lemma LeafAboveBelow<H>(level: nat, index: nat, t: Tree<H>, addr: Address, above: Address)
    requires Fits(level, t) && t.Parent? && Address(level, index).Contains(addr) && addr.level < level
    ensures LeafAbove(level, index, t, addr, above) <==>
      if Address(level - 1, 2 * index).Contains(addr) then LeafAbove(level - 1, 2 * index, t.left, addr, above)
      else LeafAbove(level - 1, 2 * index + 1, t.right, addr, above)
  {
    NodeBelow(level, index, t, above);
    ChildContains(Address(level, index), addr);
    if above.Contains(addr) {
      if Address(level - 1, 2 * index).Contains(above) { ContainsThrough(Address(level - 1, 2 * index), above, addr); }
      if Address(level - 1, 2 * index + 1).Contains(above) {
        ContainsThrough(Address(level - 1, 2 * index + 1), above, addr);
      }
    }
  }

  // ---------- The reported nodes ----------

  ghost predicate IsReported(incomplete: seq<IncompleteAt>, addr: Address)
  {
    exists i :: 0 <= i < |incomplete| && incomplete[i].addr == addr
  }

  /** From the bottom up, each with the same label. */
  ghost predicate BottomUp(incomplete: seq<IncompleteAt>, marked: bool)
  {
    && (forall i, j | 0 <= i < j < |incomplete| :: incomplete[i].addr.level < incomplete[j].addr.level)
    && (forall i | 0 <= i < |incomplete| :: incomplete[i].requiredForWitness == marked)
  }

  /** An empty node of the tree, but not of the inserted part. */
  ghost predicate EmptyBeside<H>(level: nat, index: nat, t: Tree<H>, part: Address, addr: Address)
    requires Fits(level, t)
  {
    NodeAt(level, index, t, addr) == Some(Nil) && !part.Contains(addr)
  }

  lemma ReportedMore(first: IncompleteAt, rest: seq<IncompleteAt>, addr: Address)
    ensures IsReported([first] + rest, addr) <==> addr == first.addr || IsReported(rest, addr)
  {
    var all := [first] + rest;
    if IsReported(rest, addr) {
      var i :| 0 <= i < |rest| && rest[i].addr == addr;
      assert all[i + 1].addr == addr;
    }
    if addr == first.addr { assert all[0].addr == addr; }
    if IsReported(all, addr) && addr != first.addr {
      var i :| 0 <= i < |all| && all[i].addr == addr;
      assert rest[i - 1].addr == addr;
    }
  }

  /** The empty siblings put around a node are exactly those that are reported. */
  lemma {:induction false} ExtendReports<H>(node: Located<H>, level: nat, marked: bool, addr: Address)
    requires node.addr.level <= level && Fits(node.addr.level, node.root)
    ensures Fits(level, Extend(node, level))
    ensures EmptyBeside(level, Climb(node.addr, level).index, Extend(node, level), node.addr, addr) <==>
      IsReported(Missing(node.addr, level, marked), addr)
    decreases level - node.addr.level
  {
    ExtendFits(node, level);
    if node.addr.level == level {
      assert Missing(node.addr, level, marked) == [];
    } else {
      var up := Located(node.addr.Parent(), if node.addr.IsRightChild() then Parent(None, Nil, node.root)
                        else Parent(None, node.root, Nil));
      assert 2 * up.addr.index == if node.addr.IsRightChild() then node.addr.index - 1 else node.addr.index;
      ExtendReports(up, level, marked, addr);
      ReportedMore(IncompleteAt(node.addr.Sibling(), marked), Missing(up.addr, level, marked), addr);
      ReportedAbove(up.addr, level, marked, addr);
      ChildWithin(up.addr.level, up.addr.index, addr);
      if up.addr.Contains(addr) {
        ExtendNodes(up, level, addr);
        NodeBelow(up.addr.level, up.addr.index, up.root, addr);
        if node.addr.Sibling().Contains(addr) {
          OneNode(node.addr.level, node.addr.Sibling().index, Tree<H>.Nil, addr);
        }
      } else if node.addr.Contains(addr) {
        assert false;
      }
    }
  }

  /** Reported siblings lie above the node, and not below it. */
  lemma {:induction false} ReportedAbove(addr: Address, level: nat, marked: bool, sibling: Address)
    ensures IsReported(Missing(addr, level, marked), sibling) ==>
      addr.level <= sibling.level < level && !addr.Contains(sibling)
    decreases level - addr.level
  {
    if addr.level < level {
      ReportedAbove(addr.Parent(), level, marked, sibling);
      ReportedMore(IncompleteAt(addr.Sibling(), marked), Missing(addr.Parent(), level, marked), sibling);
    }
  }

  ghost predicate AllFrom(incomplete: seq<IncompleteAt>, level: nat)
  {
    forall i | 0 <= i < |incomplete| :: incomplete[i].addr.level >= level
  }

  lemma {:induction false} MissingBottomUp(addr: Address, level: nat, marked: bool)
    ensures BottomUp(Missing(addr, level, marked), marked)
    ensures AllFrom(Missing(addr, level, marked), addr.level)
    decreases level - addr.level
  {
    if addr.level < level { MissingBottomUp(addr.Parent(), level, marked); }
  }

  /** What an insertion reports: exactly the empty nodes that it adds outside of the inserted tree, from the bottom up,
      each labelled with whether that tree holds a mark. */
  ghost predicate ReportsAdded<H>(level: nat, index: nat, into: Tree<H>, part: Address, marked: bool, after: Tree<H>,
                                  incomplete: seq<IncompleteAt>)
    requires Fits(level, into) && Fits(level, after)
  {
    && BottomUp(incomplete, marked)
    && forall addr: Address :: IsReported(incomplete, addr) <==>
         NodeAt(level, index, into, addr).None? && EmptyBeside(level, index, after, part, addr)
  }

  lemma {:induction false} InsertReports<H>(hs: Hashable<H>, level: nat, index: nat, into: Tree<H>, subtree: Located<H>,
                                            marked: bool)
    requires Fits(level, into) && Fits(subtree.addr.level, subtree.root)
    requires Address(level, index).Contains(subtree.addr)
    ensures var r := Insert(hs, level, index, into, subtree, marked);
            r.Ok? ==>
              && Fits(level, r.value.0)
              && ReportsAdded(level, index, into, subtree.addr, marked, r.value.0, r.value.1)
    decreases into
  {
    InsertGrows(hs, level, index, into, subtree, marked);
    var r := Insert(hs, level, index, into, subtree, marked);
    if r.Ok? && !subtree.root.Nil? {
      if into.Parent? && Address(level, index) != subtree.addr {
        InsertBelowReports(hs, level, index, into, subtree, marked);
      } else if into.Parent? || Address(level, index) == subtree.addr {
        forall addr: Address ensures !EmptyBeside(level, index, r.value.0, subtree.addr, addr) { }
      } else {
        MissingBottomUp(subtree.addr, level, marked);
        forall addr: Address ensures IsReported(r.value.1, addr) <==>
          NodeAt(level, index, into, addr).None? && EmptyBeside(level, index, r.value.0, subtree.addr, addr)
        {
          OneNode(level, index, into, addr);
          ExtendReports(subtree, level, marked, addr);
          ReportedAbove(subtree.addr, level, marked, addr);
          if addr != Address(level, index) {
            ReannotatedNodes(level, index, Extend(subtree, level), None, addr);
            if into.Leaf? { ReannotatedNodes(level, index, Extend(subtree, level), Some(into.value), addr); }
          }
        }
      }
    }
  }

  lemma {:induction false} InsertBelowReports<H>(hs: Hashable<H>, level: nat, index: nat, into: Tree<H>,
                                                 subtree: Located<H>, marked: bool)
    requires Fits(level, into) && Fits(subtree.addr.level, subtree.root) && !subtree.root.Nil?
    requires Address(level, index).Contains(subtree.addr) && into.Parent? && Address(level, index) != subtree.addr
    ensures var r := Insert(hs, level, index, into, subtree, marked);
            r.Ok? ==>
              && Fits(level, r.value.0)
              && ReportsAdded(level, index, into, subtree.addr, marked, r.value.0, r.value.1)
    decreases into, 0
  {
    ChildContains(Address(level, index), subtree.addr);
    var l, r := Address(level - 1, 2 * index), Address(level - 1, 2 * index + 1);
    var inLeft := l.Contains(subtree.addr);
    var part, child := if inLeft then into.left else into.right, if inLeft then l else r;
    var done := Insert(hs, level - 1, child.index, part, subtree, marked);
    InsertGrows(hs, level, index, into, subtree, marked);
    if done.Ok? {
      InsertReports(hs, level - 1, child.index, part, subtree, marked);
      var left, right := if inLeft then done.value.0 else into.left, if inLeft then into.right else done.value.0;
      var after := Unite(hs, level - 1, into.ann, left, right);
      forall addr: Address ensures
        NodeAt(level, index, into, addr).None? && EmptyBeside(level, index, after, subtree.addr, addr) <==>
        NodeAt(level - 1, child.index, part, addr).None?
          && EmptyBeside(level - 1, child.index, done.value.0, subtree.addr, addr)
      {
        NodeBelow(level, index, into, addr);
        ChildWithin(level, index, addr);
        if after.Parent? { NodeBelow(level, index, after, addr); } else { OneNode(level, index, after, addr); }
        if !left.Parent? { OneNode(level - 1, 2 * index, left, addr); }
        if !right.Parent? { OneNode(level - 1, 2 * index + 1, right, addr); }
      }
    }
  }

  // ---------- Conflicts ----------

  /** A node whose root both trees can compute, and for which they do not have the same. */
  ghost predicate Disagree<H>(hs: Hashable<H>, level: nat, index: nat, t0: Tree<H>, t1: Tree<H>, addr: Address)
    requires Fits(level, t0) && Fits(level, t1)
  {
    var n0, n1 := NodeAt(level, index, t0, addr), NodeAt(level, index, t1, addr);
    && n0.Some? && n1.Some?
    && var r0, r1 := RootHash(hs, addr.level, addr.index, n0.value, addr.RangeEnd()),
         RootHash(hs, addr.level, addr.index, n1.value, addr.RangeEnd());
       r0.Ok? && r1.Ok? && r0.value != r1.value
  }

  lemma DisagreeBelow<H>(hs: Hashable<H>, level: nat, index: nat, t0: Tree<H>, t1: Tree<H>, addr: Address)
    requires Fits(level, t0) && Fits(level, t1) && t0.Parent? && t1.Parent? && addr != Address(level, index)
    ensures Disagree(hs, level, index, t0, t1, addr) <==>
      Disagree(hs, level - 1, 2 * index, t0.left, t1.left, addr)
        || Disagree(hs, level - 1, 2 * index + 1, t0.right, t1.right, addr)
  {
    hide RootHash;
    NodeBelow(level, index, t0, addr);
    NodeBelow(level, index, t1, addr);
    ChildWithin(level, index, addr);
  }

  /** Merging fails exactly if the trees disagree somewhere, and names such a node. */
  lemma {:induction false} MergeOkIff<H>(hs: Hashable<H>, level: nat, index: nat, t0: Tree<H>, t1: Tree<H>)
    requires Fits(level, t0) && Fits(level, t1)
    ensures var r := Merge(hs, level, index, t0, t1);
            && (r.Ok? ==> forall addr: Address :: !Disagree(hs, level, index, t0, t1, addr))
            && (r.Err? ==> r.error.MergeConflict? && Disagree(hs, level, index, t0, t1, r.error.addr))
    decreases t0, t1
  {
    StartMono(level, index, index + 1);
    var here := Address(level, index);
    if t0.Parent? && t1.Parent? {
      MergeOkIff(hs, level - 1, 2 * index, t0.left, t1.left);
      MergeOkIff(hs, level - 1, 2 * index + 1, t0.right, t1.right);
      forall addr: Address | addr != here
        ensures Disagree(hs, level, index, t0, t1, addr) <==>
          Disagree(hs, level - 1, 2 * index, t0.left, t1.left, addr)
            || Disagree(hs, level - 1, 2 * index + 1, t0.right, t1.right, addr)
      {
        DisagreeBelow(hs, level, index, t0, t1, addr);
      }
    } else {
      forall addr: Address | addr != here ensures !Disagree(hs, level, index, t0, t1, addr) {
        if !t0.Parent? { OneNode(level, index, t0, addr); } else { OneNode(level, index, t1, addr); }
      }
    }
  }

  /** What an insertion objects to: a leaf in place of a leaf with another value, or a node that is there and disagrees.
      The hash of a parent put in place of a leaf is not compared. */
  ghost predicate Objects<H>(hs: Hashable<H>, level: nat, index: nat, into: Tree<H>, subtree: Located<H>, addr: Address)
    requires Fits(level, into) && Fits(subtree.addr.level, subtree.root)
  {
    var node := NodeAt(level, index, into, subtree.addr);
    && node.Some?
    && Disagree(hs, subtree.addr.level, subtree.addr.index, node.value, subtree.root, addr)
    && !(node.value.Leaf? && subtree.root.Parent?)
  }

  /** Inserting fails exactly if there is something to object to, and names such a node. */
  lemma {:induction false} InsertOkIff<H>(hs: Hashable<H>, level: nat, index: nat, into: Tree<H>, subtree: Located<H>,
                                          marked: bool)
    requires Fits(level, into) && Fits(subtree.addr.level, subtree.root)
    requires Address(level, index).Contains(subtree.addr)
    ensures var r := Insert(hs, level, index, into, subtree, marked);
            && (r.Ok? ==> forall addr: Address :: !Objects(hs, level, index, into, subtree, addr))
            && (r.Err? ==> r.error.Conflict? && Objects(hs, level, index, into, subtree, r.error.addr))
    decreases into
  {
    hide Disagree;
    NodeAgain(level, index, into, subtree.addr);
    if into.Parent? && Address(level, index) != subtree.addr {
      ChildContains(Address(level, index), subtree.addr);
      NodeBelow(level, index, into, subtree.addr);
      var inLeft := Address(level - 1, 2 * index).Contains(subtree.addr);
      var part, i := if inLeft then into.left else into.right, if inLeft then 2 * index else 2 * index + 1;
      InsertOkIff(hs, level - 1, i, part, subtree, marked);
      forall addr: Address
        ensures Objects(hs, level, index, into, subtree, addr) <==> Objects(hs, level - 1, i, part, subtree, addr)
      {
      }
    } else if Address(level, index) == subtree.addr {
      MergeOkIff(hs, level, index, into, subtree.root);
      NothingDisagrees(hs, level, index, into, subtree.root);
    }
  }

  lemma NodeAgain<H>(level: nat, index: nat, t: Tree<H>, addr: Address)
    requires Fits(level, t)
    ensures addr == Address(level, index) ==> NodeAt(level, index, t, addr) == Some(t)
    ensures !t.Parent? && addr != Address(level, index) ==> NodeAt(level, index, t, addr).None?
  {
  }

  /** Empty trees never disagree with anything. */
  lemma NothingDisagrees<H>(hs: Hashable<H>, level: nat, index: nat, t0: Tree<H>, t1: Tree<H>)
    requires Fits(level, t0) && Fits(level, t1)
    ensures t0.Nil? || t1.Nil? ==> forall addr: Address :: !Disagree(hs, level, index, t0, t1, addr)
  {
    if t0.Nil? || t1.Nil? {
      assert Merge(hs, level, index, t0, t1).Ok?;
      MergeOkIff(hs, level, index, t0, t1);
    }
  }

  /** The checked merge of a wrong parent with a leaf fails, but inserting it in place of the leaf does not. */
  lemma InsertMissesConflict<H>(hs: Hashable<H>, wrong: H, h: H)
    requires wrong != h
    ensures var node := Located(Address(1, 0), Parent(Some(wrong), Nil, Nil));
            && Fits(1, node.root) && node.addr.Contains(node.addr)
            && Merge(hs, 1, 0, Leaf(h, EPHEMERAL), node.root) == Err(MergeConflict(node.addr))
            && Insert(hs, 1, 0, Leaf(h, EPHEMERAL), node, false) == Ok((node.root, []))
  {
    assert Start(1, 0) == 0 && Start(1, 1) == 2;
  }

  // ---------- Depth ----------

  /** A position keeps its depth: if it is marked or a reference, nothing above it has been pruned. */
  ghost predicate KeepsDepth<H>(level: nat, index: nat, t: Tree<H>, p: nat, before: nat)
    requires Fits(level, t)
  {
    var flags := FlagAt(level, index, t, p);
    flags.marked || flags.reference ==> EndLevel(level, index, t, p) <= before
  }

  lemma UniteDepth<H>(hs: Hashable<H>, level: nat, index: nat, ann: Option<H>, left: Tree<H>, right: Tree<H>, p: nat,
                      before: nat)
    requires level > 0 && Fits(level - 1, left) && Fits(level - 1, right)
    requires Start(level, index) <= p < End(level, index)
    requires KeepsDepth(level, index, Parent(ann, left, right), p, before)
    ensures Fits(level, Unite(hs, level - 1, ann, left, right))
    ensures KeepsDepth(level, index, Unite(hs, level - 1, ann, left, right), p, before)
  {
    Halves(level, index);
  }

  /** Merging prunes nothing at a marked leaf or a reference. */
  lemma {:induction false} MergeKeepsDepth<H>(hs: Hashable<H>, level: nat, index: nat, t0: Tree<H>, t1: Tree<H>, p: nat)
    requires Fits(level, t0) && Fits(level, t1) && Start(level, index) <= p < End(level, index)
    ensures var r := Merge(hs, level, index, t0, t1);
            r.Ok? ==>
              && Fits(level, r.value)
              && KeepsDepth(level, index, r.value, p, EndLevel(level, index, t0, p))
              && KeepsDepth(level, index, r.value, p, EndLevel(level, index, t1, p))
    decreases t0, t1
  {
    hide RootHash, Insert, Prunes, Unite;
    MergeGrows(hs, level, index, t0, t1);
    if t0.Parent? && t1.Parent? {
      Halves(level, index);
      var left, right := Merge(hs, level - 1, 2 * index, t0.left, t1.left),
        Merge(hs, level - 1, 2 * index + 1, t0.right, t1.right);
      if left.Ok? && right.Ok? {
        MergeGrows(hs, level - 1, 2 * index, t0.left, t1.left);
        MergeGrows(hs, level - 1, 2 * index + 1, t0.right, t1.right);
        if p < End(level - 1, 2 * index) { MergeKeepsDepth(hs, level - 1, 2 * index, t0.left, t1.left, p); }
        else { MergeKeepsDepth(hs, level - 1, 2 * index + 1, t0.right, t1.right, p); }
        var ann := if t0.ann.Some? then t0.ann else t1.ann;
        UniteDepth(hs, level, index, ann, left.value, right.value, p, EndLevel(level, index, t0, p));
        UniteDepth(hs, level, index, ann, left.value, right.value, p, EndLevel(level, index, t1, p));
      }
    }
  }

  lemma {:induction false} ExtendDepth<H>(node: Located<H>, level: nat, p: nat)
    requires node.addr.level <= level && Fits(node.addr.level, node.root) && node.addr.ContainsPosition(p)
    ensures Fits(level, Extend(node, level))
    ensures EndLevel(level, Climb(node.addr, level).index, Extend(node, level), p) ==
      EndLevel(node.addr.level, node.addr.index, node.root, p)
    decreases level - node.addr.level
  {
    if node.addr.level < level {
      var up := Located(node.addr.Parent(), if node.addr.IsRightChild() then Parent(None, Nil, node.root)
                        else Parent(None, node.root, Nil));
      Halves(up.addr.level, up.addr.index);
      assert 2 * up.addr.index == if node.addr.IsRightChild() then node.addr.index - 1 else node.addr.index;
      ExtendDepth(up, level, p);
    }
  }

  /** Inserting prunes nothing at a marked leaf or a reference, so that its witness can still be given. */
  lemma {:induction false} InsertKeepsDepth<H>(hs: Hashable<H>, level: nat, index: nat, into: Tree<H>,
                                               subtree: Located<H>, marked: bool, p: nat)
    requires Fits(level, into) && Fits(subtree.addr.level, subtree.root) && !subtree.root.Nil?
    requires Address(level, index).Contains(subtree.addr) && Start(level, index) <= p < End(level, index)
    ensures var r := Insert(hs, level, index, into, subtree, marked);
            r.Ok? ==>
              && Fits(level, r.value.0)
              && KeepsDepth(level, index, r.value.0, p, EndLevel(level, index, into, p))
              && (subtree.addr.ContainsPosition(p) ==>
                    KeepsDepth(level, index, r.value.0, p,
                               EndLevel(subtree.addr.level, subtree.addr.index, subtree.root, p)))
    decreases into
  {
    hide Merge;
    InsertGrows(hs, level, index, into, subtree, marked);
    if into.Parent? && Address(level, index) == subtree.addr {
      MergeKeepsDepth(hs, level, index, into, subtree.root, p);
    } else if into.Parent? {
      ChildContains(Address(level, index), subtree.addr);
      Halves(level, index);
      var inLeft := Address(level - 1, 2 * index).Contains(subtree.addr);
      var part, i := if inLeft then into.left else into.right, if inLeft then 2 * index else 2 * index + 1;
      var r := Insert(hs, level - 1, i, part, subtree, marked);
      InsertGrows(hs, level - 1, i, part, subtree, marked);
      if r.Ok? {
        var left, right := if inLeft then r.value.0 else into.left, if inLeft then into.right else r.value.0;
        if inLeft == (p < End(level - 1, 2 * index)) { InsertKeepsDepth(hs, level - 1, i, part, subtree, marked, p); }
        else { ContainsRange(Address(level - 1, i), subtree.addr); }
        UniteDepth(hs, level, index, into.ann, left, right, p, EndLevel(level, index, into, p));
        if subtree.addr.ContainsPosition(p) {
          UniteDepth(hs, level, index, into.ann, left, right, p,
                     EndLevel(subtree.addr.level, subtree.addr.index, subtree.root, p));
        }
      }
    } else if subtree.addr.ContainsPosition(p) {
      ExtendDepth(subtree, level, p);
    }
  }

  // ---------- What has been observed ----------

  /** A position below a leaf, or below a parent with a cached hash. */
  ghost predicate Observed<H>(level: nat, index: nat, t: Tree<H>, p: nat)
    requires Fits(level, t)
  {
    exists addr: Address :: addr.ContainsPosition(p) && HashAt(level, index, t, addr)
  }

  ghost predicate HashAt<H>(level: nat, index: nat, t: Tree<H>, addr: Address)
    requires Fits(level, t)
  {
    var node := NodeAt(level, index, t, addr);
    node.Some? && node.value.NodeValue().Some?
  }

  lemma ObservedBelow<H>(level: nat, index: nat, t: Tree<H>, p: nat)
    requires Fits(level, t)
    ensures Observed(level, index, t, p) ==> Start(level, index) <= p < End(level, index)
    ensures Start(level, index) <= p < End(level, index) && t.NodeValue().Some? ==> Observed(level, index, t, p)
    ensures t.Nil? ==> !Observed(level, index, t, p)
    ensures t.Parent? && t.ann.None? ==>
      (Observed(level, index, t, p) <==>
       Observed(level - 1, 2 * index, t.left, p) || Observed(level - 1, 2 * index + 1, t.right, p))
  {
    var here := Address(level, index);
    if t.NodeValue().Some? { assert HashAt(level, index, t, here); }
    forall addr: Address | addr.ContainsPosition(p) && HashAt(level, index, t, addr)
      ensures Start(level, index) <= p < End(level, index) && !t.Nil?
    {
      ContainsRange(here, addr);
      if t.Nil? { OneNode(level, index, t, addr); }
    }
    if t.Parent? && t.ann.None? {
      forall addr: Address
        ensures HashAt(level, index, t, addr) <==>
          HashAt(level - 1, 2 * index, t.left, addr) || HashAt(level - 1, 2 * index + 1, t.right, addr)
      {
        NodeBelow(level, index, t, addr);
      }
    }
  }

  /** `max_position` is the greatest position that has been observed, if there is any. */
  lemma {:induction false} MaxPositionIs<H>(level: nat, index: nat, t: Tree<H>)
    requires Fits(level, t)
    ensures var m := MaxPosition(level, index, t);
            && (m.Some? ==> Observed(level, index, t, m.value))
            && forall p: nat :: Observed(level, index, t, p) ==> m.Some? && p <= m.value
    decreases t
  {
    StartMono(level, index, index + 1);
    if t.Parent? {
      Halves(level, index);
      MaxPositionIs(level - 1, 2 * index, t.left);
      MaxPositionIs(level - 1, 2 * index + 1, t.right);
    }
    var m := MaxPosition(level, index, t);
    if m.Some? { ObservedBelow(level, index, t, m.value); }
    forall p: nat | Observed(level, index, t, p) ensures m.Some? && p <= m.value {
      ObservedBelow(level, index, t, p);
      if t.Parent? && t.ann.None? && Observed(level - 1, 2 * index, t.left, p) {
        ObservedBelow(level - 1, 2 * index, t.left, p);
      }
      if m.Some? && t.Parent? && t.ann.None? && MaxPosition(level - 1, 2 * index + 1, t.right).Some? {
        ObservedBelow(level - 1, 2 * index + 1, t.right, m.value);
      }
    }
  }

  // ---------- Truncating ----------

  /** Truncation of any tree: it succeeds exactly at the end of a leaf. What lies up to there keeps its leaves, flags
      and hashes, and nothing is left after it. */
  lemma {:induction false} TruncateKeeps<H>(hs: Hashable<H>, level: nat, index: nat, t: Tree<H>, position: nat, p: nat,
                                            addr: Address)
    requires Fits(level, t) && Address(level, index).Contains(addr)
    requires Start(level, index) <= position < End(level, index) && Start(level, index) <= p < End(level, index)
    ensures var r := TruncateTo(hs, level, index, t, position);
            && (r.Some? <==> EndsAt(level, index, t, position))
            && (r.Some? ==>
                  && Fits(level, r.value)
                  && FlagAt(level, index, r.value, p) ==
                    (if p <= position then FlagAt(level, index, t, p) else EPHEMERAL)
                  && (Given(level, index, r.value, p) <==> p <= position && Given(level, index, t, p))
                  && (Computes(level, index, t, addr) && addr.RangeEnd() <= position + 1 ==>
                        Settled(level, index, r.value, addr)))
    decreases t
  {
    TruncateFits(hs, level, index, t, position, level);
    ComputesSettled(level, index, t, addr);
    if t.Parent? {
      Halves(level, index);
      NodeBelow(level, index, t, addr);
      var inLeft := position < Start(level - 1, 2 * index + 1);
      var part, i := if inLeft then t.left else t.right, if inLeft then 2 * index else 2 * index + 1;
      var r := TruncateTo(hs, level - 1, i, part, position);
      TruncateFits(hs, level - 1, i, part, position, level - 1);
      PositionSideOf(level, index, p);
      TruncateKeeps(hs, level - 1, i, part, position,
                    if inLeft == (p < Start(level - 1, 2 * index + 1)) then p else position,
                    if Address(level - 1, i).Contains(addr) then addr else Address(level - 1, i));
      if r.Some? {
        var left, right := if inLeft then r.value else t.left, if inLeft then Nil else r.value;
        UniteFlags(hs, level, index, t.ann, left, right, p);
        UniteGiven(hs, level, index, t.ann, left, right, p);
        if Computes(level, index, t, addr) && addr.RangeEnd() <= position + 1 {
          TruncatedChild(level, index, t, position, addr);
          if addr != Address(level, index) {
            ChildContains(Address(level, index), addr);
            if !inLeft && Address(level - 1, 2 * index).Contains(addr) {
              ComputesSettled(level - 1, 2 * index, t.left, addr);
            }
          } else {
            ComputesSettled(level - 1, 2 * index, t.left, Address(level - 1, 2 * index));
          }
          UniteSettled(hs, level, index, t.ann, left, right, addr);
        }
      }
    }
  }

  lemma PositionSideOf(level: nat, index: nat, p: nat)
    requires level > 0 && Start(level, index) <= p < End(level, index)
    ensures p < Start(level - 1, 2 * index + 1) ==> Start(level - 1, 2 * index) <= p < End(level - 1, 2 * index)
    ensures p >= Start(level - 1, 2 * index + 1) ==> p < End(level - 1, 2 * index + 1)
  {
    Halves(level, index);
  }

  /** A node that ends by the truncation lies on its side, or before it. */
  lemma TruncatedChild<H>(level: nat, index: nat, t: Tree<H>, position: nat, addr: Address)
    requires Fits(level, t) && t.Parent? && Address(level, index).Contains(addr) && addr.RangeEnd() <= position + 1
    requires Start(level, index) <= position < End(level, index)
    ensures addr == Address(level, index) ==> position + 1 == End(level, index)
    ensures addr == Address(level, index) ==> position >= Start(level - 1, 2 * index + 1)
    ensures position < Start(level - 1, 2 * index + 1) ==> Address(level - 1, 2 * index).Contains(addr)
  {
    Halves(level, index);
    if addr != Address(level, index) {
      ChildContains(Address(level, index), addr);
      StartMono(addr.level, addr.index, addr.index + 1);
      if Address(level - 1, 2 * index + 1).Contains(addr) { ContainsRange(Address(level - 1, 2 * index + 1), addr); }
    }
  }
}
