/** Addresses, positions and the root of the full binary tree over a leaf sequence: the one simple
    thing that every compact representation in the repository has to agree with. */
module Merkle {

  import opened Basics

  /** The `Hashable` trait as a value, so that every lemma holds for every hash function. `combine`
      takes the level of its two operands. */
  datatype Hashable<!H> = Hashable(emptyLeaf: H, combine: (nat, H, H) -> H)

  /** The root of an empty subtree. */
  function EmptyRoot<H>(hs: Hashable<H>, level: nat): H
  {
    if level == 0 then hs.emptyLeaf
    else var below := EmptyRoot(hs, level - 1); hs.combine(level - 1, below, below)
  }

  // ---------- Addresses and position ranges ----------

  /** First leaf position below the node at (level, index), that is `index << level`; written as a
      descent along left children so that no multiplication is needed in proofs. */
  function Start(level: nat, index: nat): nat
  {
    if level == 0 then index else Start(level - 1, 2 * index)
  }

  /** One past the last leaf position below the node at (level, index). */
  function End(level: nat, index: nat): nat
  {
    Start(level, index + 1)
  }

  /** Index of the ancestor at `level` of the leaf at `pos`, that is `pos >> level`. */
  function Above(level: nat, pos: nat): nat
  {
    if level == 0 then pos else Above(level - 1, pos) / 2
  }

  /** `index ^ 1` */
  function SiblingIndex(index: nat): nat
  {
    if index % 2 == 0 then index + 1 else index - 1
  }

  datatype Address = Address(level: nat, index: nat)
  {
    function Parent(): Address { Address(level + 1, index / 2) }
    function Sibling(): Address { Address(level, SiblingIndex(index)) }
    predicate IsLeftChild() { index % 2 == 0 }
    predicate IsRightChild() { index % 2 == 1 }
    function RangeStart(): nat { Start(level, index) }
    function RangeEnd(): nat { End(level, index) }

    /** Whether `addr` is this node or one of its descendants. */
    predicate Contains(addr: Address) { addr.level <= level && Climb(addr, level) == this }

    predicate ContainsPosition(pos: nat) { RangeStart() <= pos < RangeEnd() }
  }

  /** The ancestor of `addr` at the given level (`addr` itself if the level is not higher). */
  function Climb(addr: Address, level: nat): Address
    decreases level - addr.level
  {
    if level <= addr.level then addr else Climb(addr.Parent(), level)
  }

  /** The lowest ancestor-or-self that is a left child. */
  function CurrentIncomplete(addr: Address): Address
    decreases addr.index
  {
    if addr.IsRightChild() then CurrentIncomplete(addr.Parent()) else addr
  }

  /** `Address::current_incomplete`: searches for the first zero bit of the index. */
  method FindCurrentIncomplete(addr: Address) returns (r: Address)
    ensures r == CurrentIncomplete(addr)
  {
    var level, index := addr.level, addr.index;
    while index % 2 == 1
      invariant CurrentIncomplete(Address(level, index)) == CurrentIncomplete(addr)
      decreases index
    {
      level, index := level + 1, index / 2;
    }
    r := Address(level, index);
  }

  function NextIncompleteParent(addr: Address): Address
  {
    if addr.IsRightChild() then CurrentIncomplete(addr) else CurrentIncomplete(Address(addr.level, addr.index + 1))
  }

  /** The lowest incomplete ancestor ends where the node ends, and every node below it on the way up
      from a leaf is a right child. */
  lemma {:induction false} CurrentIncompleteRange(addr: Address, pos: nat)
    requires Above(addr.level, pos) == addr.index
    ensures var c := CurrentIncomplete(addr);
            && c.level >= addr.level && c.IsLeftChild() && c.RangeEnd() == addr.RangeEnd()
              && Above(c.level, pos) == c.index
            && forall k | addr.level <= k < c.level :: Above(k, pos) % 2 == 1
    decreases addr.index
  {
    if addr.IsRightChild() {
      var parent := addr.Parent();
      assert Above(addr.level + 1, pos) == addr.index / 2;
      assert parent.RangeEnd() == Start(addr.level, 2 * (addr.index / 2) + 2);
      CurrentIncompleteRange(parent, pos);
    }
  }

  function Pow2(n: nat): (r: nat)
    ensures r >= 1
  {
    if n == 0 then 1 else 2 * Pow2(n - 1)
  }

  lemma {:induction false} StartIsShift(level: nat, index: nat)
    ensures Start(level, index) == index * Pow2(level)
  {
    if level > 0 {
      StartIsShift(level - 1, 2 * index);
      assert 2 * index * Pow2(level - 1) == index * (2 * Pow2(level - 1));
    }
  }

  lemma {:induction false} StartMono(level: nat, i: nat, j: nat)
    requires i <= j
    ensures Start(level, i) + (j - i) <= Start(level, j)
  {
    if level > 0 { StartMono(level - 1, 2 * i, 2 * j); }
  }

  lemma {:induction false} StartZero(level: nat)
    ensures Start(level, 0) == 0
    ensures Start(level, 1) > level
  {
    if level > 0 {
      StartZero(level - 1);
      StartSum(level - 1, 1);
    }
  }

  /** All subtrees of one level have the same size. */
  lemma {:induction false} StartSum(level: nat, index: nat)
    ensures Start(level, index + 1) == Start(level, index) + Start(level, 1)
  {
    if level > 0 {
      StartSum(level - 1, 2 * index);
      StartSum(level - 1, 2 * index + 1);
      StartSum(level - 1, 1);
    }
  }

  lemma {:induction false} AboveRange(level: nat, pos: nat)
    ensures Start(level, Above(level, pos)) <= pos < End(level, Above(level, pos))
  {
    if level > 0 {
      AboveRange(level - 1, pos);
      var below := Above(level - 1, pos);
      StartMono(level - 1, 2 * (below / 2), below);
      StartMono(level - 1, below + 1, 2 * (below / 2) + 2);
    }
  }

  lemma AboveUnique(level: nat, pos: nat, index: nat)
    requires Start(level, index) <= pos < End(level, index)
    ensures index == Above(level, pos)
  {
    AboveRange(level, pos);
    var a := Above(level, pos);
    if index < a { StartMono(level, index + 1, a); }
    if a < index { StartMono(level, a + 1, index); }
  }

  lemma {:induction false} ClimbAbove(pos: nat, from: nat, level: nat)
    requires from <= level
    ensures Climb(Address(from, Above(from, pos)), level) == Address(level, Above(level, pos))
    decreases level - from
  {
    if from < level { ClimbAbove(pos, from + 1, level); }
  }

  /** Going up a path, ranges only grow to the right. */
  lemma {:induction false} PathEnds(m: nat, j: nat, k: nat)
    requires j < k
    ensures End(j, Above(j, m)) <= End(k, Above(k, m))
    ensures Above(j, m) % 2 == 0 ==> End(j, Above(j, m) + 1) <= End(k, Above(k, m))
    decreases k - j
  {
    var index := Above(j, m);
    assert Above(j + 1, m) == index / 2;
    assert End(j + 1, index / 2) == Start(j, 2 * (index / 2) + 2);
    StartMono(j, index + 1, 2 * (index / 2) + 2);
    if j + 1 < k { PathEnds(m, j + 1, k); }
  }

  // ---------- Positions ----------

  lemma {:induction false} ClimbStep(addr: Address, level: nat)
    requires addr.level < level
    ensures Climb(addr, level - 1).level == level - 1
    ensures Climb(addr, level) == Climb(addr, level - 1).Parent()
    decreases level - addr.level
  {
    if addr.level + 1 < level { ClimbStep(addr.Parent(), level); }
  }

  /** A descendant lies under exactly one of the two children. */
  lemma ChildContains(parent: Address, addr: Address)
    requires parent.Contains(addr) && addr.level < parent.level
    ensures Address(parent.level - 1, 2 * parent.index).Contains(addr)
         != Address(parent.level - 1, 2 * parent.index + 1).Contains(addr)
  {
    ClimbStep(addr, parent.level);
  }

  /** Number of bits of a position: the least level of a tree holding it. */
  function RootLevel(pos: nat): nat
  {
    if pos == 0 then 0 else 1 + RootLevel(pos / 2)
  }

  /** Number of set bits of a position: how many ommers its frontier carries. */
  function PastOmmerCount(pos: nat): nat
  {
    if pos == 0 then 0 else pos % 2 + PastOmmerCount(pos / 2)
  }

  /** Whether every one of the low `level` bits of the position is set. */
  predicate IsCompleteSubtree(pos: nat, level: nat)
  {
    level == 0 || (IsCompleteSubtree(pos, level - 1) && Above(level - 1, pos) % 2 == 1)
  }

  /** A leaf completes a subtree exactly when it is the last leaf of its ancestor at that level. */
  lemma {:induction false} CompleteIffLast(pos: nat, level: nat)
    ensures IsCompleteSubtree(pos, level) <==> pos + 1 == End(level, Above(level, pos))
  {
    if level > 0 {
      CompleteIffLast(pos, level - 1);
      var below := Above(level - 1, pos);
      if below % 2 == 0 {
        AboveRange(level - 1, pos);
        StartMono(level - 1, below + 1, below + 2);
        assert End(level, below / 2) == Start(level - 1, below + 2);
      } else {
        assert End(level, below / 2) == Start(level - 1, below + 1);
      }
    }
  }

  // ---------- The reference root ----------

  function LeafAt<H>(hs: Hashable<H>, leaves: seq<H>, pos: nat): H
  {
    if pos < |leaves| then leaves[pos] else hs.emptyLeaf
  }

  /** The hash of the node at (level, index) of the full tree whose leaves are `leaves` padded on the
      right with empty leaves. The tree truncated at `t` is the tree over `Take(leaves, t)`. */
  function Root<H>(hs: Hashable<H>, leaves: seq<H>, level: nat, index: nat): H
  {
    if level == 0 then LeafAt(hs, leaves, index)
    else hs.combine(level - 1, Root(hs, leaves, level - 1, 2 * index), Root(hs, leaves, level - 1, 2 * index + 1))
  }

  function Take<T>(s: seq<T>, n: nat): (r: seq<T>)
  {
    if n <= |s| then s[..n] else s
  }

  /** Only the leaves in a node's range matter for its hash. */
  lemma {:induction false} RootAgree<H>(hs: Hashable<H>, a: seq<H>, b: seq<H>, level: nat, index: nat)
    requires forall p | Start(level, index) <= p < End(level, index) :: LeafAt(hs, a, p) == LeafAt(hs, b, p)
    ensures Root(hs, a, level, index) == Root(hs, b, level, index)
  {
    if level == 0 {
      assert LeafAt(hs, a, index) == LeafAt(hs, b, index);
    } else {
      StartMono(level - 1, 2 * index, 2 * index + 1);
      StartMono(level - 1, 2 * index + 1, 2 * index + 2);
      RootAgree(hs, a, b, level - 1, 2 * index);
      RootAgree(hs, a, b, level - 1, 2 * index + 1);
    }
  }

  /** A complete subtree keeps its hash when leaves are appended or when later leaves are cut off. */
  lemma RootPrefix<H>(hs: Hashable<H>, leaves: seq<H>, n: nat, level: nat, index: nat)
    requires End(level, index) <= n
    ensures Root(hs, Take(leaves, n), level, index) == Root(hs, leaves, level, index)
  {
    RootAgree(hs, Take(leaves, n), leaves, level, index);
  }

  lemma {:induction false} RootEmpty<H>(hs: Hashable<H>, leaves: seq<H>, level: nat, index: nat)
    requires |leaves| <= Start(level, index)
    ensures Root(hs, leaves, level, index) == EmptyRoot(hs, level)
  {
    if level > 0 {
      StartMono(level - 1, 2 * index, 2 * index + 1);
      RootEmpty(hs, leaves, level - 1, 2 * index);
      RootEmpty(hs, leaves, level - 1, 2 * index + 1);
    }
  }

  /** The hash of a node is the root of the leaves below it, taken on their own. */
  lemma {:induction false} RootShift<H>(hs: Hashable<H>, leaves: seq<H>, from: nat, part: seq<H>, level: nat,
                                        index: nat, sub: nat)
    requires Start(level, index) == from + Start(level, sub)
    requires forall p | from + Start(level, sub) <= p < from + End(level, sub) ::
      LeafAt(hs, leaves, p) == LeafAt(hs, part, p - from)
    ensures Root(hs, leaves, level, index) == Root(hs, part, level, sub)
  {
    if level == 0 {
      assert LeafAt(hs, leaves, from + sub) == LeafAt(hs, part, from + sub - from);
    } else {
      StartSum(level - 1, 2 * index);
      StartSum(level - 1, 2 * sub);
      StartMono(level - 1, 2 * sub, 2 * sub + 1);
      StartMono(level - 1, 2 * sub + 1, 2 * sub + 2);
      RootShift(hs, leaves, from, part, level - 1, 2 * index, 2 * sub);
      RootShift(hs, leaves, from, part, level - 1, 2 * index + 1, 2 * sub + 1);
    }
  }

  // ---------- Authentication paths ----------

  /** `MerklePath::root`: hashes a leaf with the elements of its path, bottom up. */
  function PathRoot<H>(hs: Hashable<H>, leaf: H, path: seq<H>, pos: nat): H
  {
    PathRootFrom(hs, leaf, path, pos, 0)
  }

  function PathRootFrom<H>(hs: Hashable<H>, node: H, path: seq<H>, pos: nat, level: nat): H
    requires level <= |path|
    decreases |path| - level
  {
    if level == |path| then node
    else if Above(level, pos) % 2 == 0 then PathRootFrom(hs, hs.combine(level, node, path[level]), path, pos, level + 1)
    else PathRootFrom(hs, hs.combine(level, path[level], node), path, pos, level + 1)
  }

  /** The sibling hashes of the leaf at `pos`, from level 0 up to (not including) level `depth`. */
  function RefPath<H>(hs: Hashable<H>, leaves: seq<H>, pos: nat, depth: nat): (path: seq<H>)
    ensures |path| == depth
    ensures forall k | 0 <= k < depth :: path[k] == Root(hs, leaves, k, SiblingIndex(Above(k, pos)))
  {
    if depth == 0 then []
    else RefPath(hs, leaves, pos, depth - 1) + [Root(hs, leaves, depth - 1, SiblingIndex(Above(depth - 1, pos)))]
  }

  /** A node's hash from its own child hash and the sibling's. */
  lemma RootFromChild<H>(hs: Hashable<H>, leaves: seq<H>, level: nat, index: nat)
    ensures Root(hs, leaves, level + 1, index / 2) ==
      if index % 2 == 0 then hs.combine(level, Root(hs, leaves, level, index),
                                        Root(hs, leaves, level, SiblingIndex(index)))
      else hs.combine(level, Root(hs, leaves, level, SiblingIndex(index)), Root(hs, leaves, level, index))
  {
    var parent := index / 2;
    if index % 2 == 0 { assert 2 * parent == index; } else { assert 2 * parent + 1 == index; }
  }

  /** Folding a leaf with its sibling hashes yields the root: what a witness is for. */
  lemma PathFolds<H>(hs: Hashable<H>, leaves: seq<H>, pos: nat, depth: nat)
    ensures PathRoot(hs, LeafAt(hs, leaves, pos), RefPath(hs, leaves, pos, depth), pos)
         == Root(hs, leaves, depth, Above(depth, pos))
  {
    PathFoldsFrom(hs, leaves, RefPath(hs, leaves, pos, depth), pos, 0);
  }

  ghost predicate SiblingAt<H>(hs: Hashable<H>, leaves: seq<H>, path: seq<H>, pos: nat, k: nat)
    requires k < |path|
  {
    path[k] == Root(hs, leaves, k, SiblingIndex(Above(k, pos)))
  }

  lemma {:induction false} PathFoldsFrom<H>(hs: Hashable<H>, leaves: seq<H>, path: seq<H>, pos: nat, level: nat)
    requires level <= |path|
    requires forall k | 0 <= k < |path| :: SiblingAt(hs, leaves, path, pos, k)
    ensures PathRootFrom(hs, Root(hs, leaves, level, Above(level, pos)), path, pos, level)
         == Root(hs, leaves, |path|, Above(|path|, pos))
    decreases |path| - level
  {
    if level < |path| {
      var index := Above(level, pos);
      var node := Root(hs, leaves, level, index);
      assert SiblingAt(hs, leaves, path, pos, level);
      RootFromChild(hs, leaves, level, index);
      PathFoldsFrom(hs, leaves, path, pos, level + 1);
      PathRootStep(hs, node, path, pos, level);
    }
  }

  lemma PathRootStep<H>(hs: Hashable<H>, node: H, path: seq<H>, pos: nat, level: nat)
    requires level < |path|
    ensures PathRootFrom(hs, node, path, pos, level) ==
      PathRootFrom(hs, if Above(level, pos) % 2 == 0 then hs.combine(level, node, path[level])
                   else hs.combine(level, path[level], node), path, pos, level + 1)
    ensures Above(level + 1, pos) == Above(level, pos) / 2
  {
  }
}
