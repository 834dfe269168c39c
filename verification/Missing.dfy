/** `shardtree/src/prunable.rs`: exactly which nodes `root_hash` and `witness` report as missing. */
module MissingNodes {

  import opened Basics
  import opened Merkle
  import opened PrunableTrees
  import opened Pruning

  // ---------- Nodes by address ----------

  /** The node of a tree at an address, if there is one. */
  function NodeAt<H>(level: nat, index: nat, t: Tree<H>, addr: Address): (r: Option<Tree<H>>)
    requires Fits(level, t)
    ensures r.Some? ==> Address(level, index).Contains(addr) && Fits(addr.level, r.value)
  {
    if Address(level, index).Contains(addr) then Subtree(level, index, t, addr) else None
  }

  lemma ChildWithin(level: nat, index: nat, addr: Address)
    requires level > 0
    ensures Address(level - 1, 2 * index).Contains(addr) || Address(level - 1, 2 * index + 1).Contains(addr) <==>
            Address(level, index).Contains(addr) && addr.level < level
    ensures !(Address(level - 1, 2 * index).Contains(addr) && Address(level - 1, 2 * index + 1).Contains(addr))
  {
    if addr.level < level { ClimbStep(addr, level); }
  }

  /** Every node of a parent is the parent itself, or a node of exactly one child. */
  lemma NodeBelow<H>(level: nat, index: nat, t: Tree<H>, addr: Address)
    requires Fits(level, t) && t.Parent?
    ensures var l, r := NodeAt(level - 1, 2 * index, t.left, addr), NodeAt(level - 1, 2 * index + 1, t.right, addr);
            && (l.None? || r.None?)
            && (if addr == Address(level, index) then l.None? && r.None? && NodeAt(level, index, t, addr) == Some(t)
                else NodeAt(level, index, t, addr) == if l.Some? then l else r)
  {
    ChildWithin(level, index, addr);
    if addr.level < level && Address(level, index).Contains(addr) { ChildContains(Address(level, index), addr); }
  }

  /** A tree that is no parent has one node. */
  lemma OneNode<H>(level: nat, index: nat, t: Tree<H>, addr: Address)
    requires !t.Parent?
    ensures NodeAt(level, index, t, addr) == if addr == Address(level, index) then Some(t) else None
  {
  }

  /** Whether a tree by itself gives the full root of a node. */
  predicate Computes<H>(level: nat, index: nat, t: Tree<H>, addr: Address)
    requires Fits(level, t)
  {
    var node := NodeAt(level, index, t, addr);
    node.Some? && node.value.HasComputableRoot()
  }

  // ---------- What a root lacks ----------

  /** A parent whose hash is cached, and which ends by the truncation point. */
  ghost predicate CachedBy<H>(level: nat, index: nat, t: Tree<H>, cut: nat, addr: Address)
    requires Fits(level, t)
  {
    var node := NodeAt(level, index, t, addr);
    node.Some? && node.value.Parent? && node.value.ann.Some? && addr.RangeEnd() <= cut
  }

  /** Whether some node at or above an address has its hash cached. */
  ghost predicate UnderCached<H>(level: nat, index: nat, t: Tree<H>, cut: nat, addr: Address)
    requires Fits(level, t)
  {
    exists above: Address :: above.Contains(addr) && CachedBy(level, index, t, cut, above)
  }

  /** A node whose hash is needed for the root and not there: it starts before the truncation point and is empty, or a
      leaf that the truncation would split, and no node above it has its hash cached. */
  ghost predicate Lacks<H>(level: nat, index: nat, t: Tree<H>, cut: nat, addr: Address)
    requires Fits(level, t)
  {
    var node := NodeAt(level, index, t, addr);
    && node.Some? && addr.RangeStart() < cut
    && (node.value.Nil? || (node.value.Leaf? && cut < addr.RangeEnd()))
    && !UnderCached(level, index, t, cut, addr)
  }

  /** From left to right, without overlap. */
  ghost predicate LeftToRight(addrs: seq<Address>)
  {
    forall i, j | 0 <= i < j < |addrs| :: addrs[i].RangeEnd() <= addrs[j].RangeStart()
  }

  ghost predicate AllWithin(addrs: seq<Address>, from: nat, to: nat)
  {
    forall i | 0 <= i < |addrs| :: from <= addrs[i].RangeStart() && addrs[i].RangeEnd() <= to
  }

  lemma JoinedInOrder(a: seq<Address>, b: seq<Address>, from: nat, mid: nat, to: nat)
    requires LeftToRight(a) && LeftToRight(b) && AllWithin(a, from, mid) && AllWithin(b, mid, to) && from <= mid <= to
    ensures LeftToRight(a + b) && AllWithin(a + b, from, to)
  {
  }

  lemma UnderCachedBelow<H>(level: nat, index: nat, t: Tree<H>, cut: nat, addr: Address)
    requires Fits(level, t) && t.Parent?
    requires Address(level, index).Contains(addr) && addr.level < level
    ensures UnderCached(level, index, t, cut, addr) <==>
      || (t.ann.Some? && End(level, index) <= cut)
      || UnderCached(level - 1, 2 * index, t.left, cut, addr)
      || UnderCached(level - 1, 2 * index + 1, t.right, cut, addr)
  {
    NodeBelow(level, index, t, Address(level, index));
    if UnderCached(level, index, t, cut, addr) {
      var above: Address :| above.Contains(addr) && CachedBy(level, index, t, cut, above);
      NodeBelow(level, index, t, above);
      if above != Address(level, index) {
        assert CachedBy(level - 1, 2 * index, t.left, cut, above)
               || CachedBy(level - 1, 2 * index + 1, t.right, cut, above);
      }
    }
    if t.ann.Some? && End(level, index) <= cut { assert CachedBy(level, index, t, cut, Address(level, index)); }
    if UnderCached(level - 1, 2 * index, t.left, cut, addr) {
      var above: Address :| above.Contains(addr) && CachedBy(level - 1, 2 * index, t.left, cut, above);
      NodeBelow(level, index, t, above);
      assert CachedBy(level, index, t, cut, above);
    }
    if UnderCached(level - 1, 2 * index + 1, t.right, cut, addr) {
      var above: Address :| above.Contains(addr) && CachedBy(level - 1, 2 * index + 1, t.right, cut, above);
      NodeBelow(level, index, t, above);
      assert CachedBy(level, index, t, cut, above);
    }
  }

  /** Nothing below one child is under a cached node of the other. */
  lemma OtherChild<H>(level: nat, index: nat, t: Tree<H>, cut: nat, addr: Address)
    requires Fits(level, t) && t.Parent?
    ensures Address(level - 1, 2 * index).Contains(addr) ==> !UnderCached(level - 1, 2 * index + 1, t.right, cut, addr)
    ensures Address(level - 1, 2 * index + 1).Contains(addr) ==> !UnderCached(level - 1, 2 * index, t.left, cut, addr)
  {
    ChildWithin(level, index, addr);
    forall above: Address | above.Contains(addr)
      ensures Address(level - 1, 2 * index).Contains(addr) ==> !Address(level - 1, 2 * index + 1).Contains(above)
      ensures Address(level - 1, 2 * index + 1).Contains(addr) ==> !Address(level - 1, 2 * index).Contains(above)
    {
      if Address(level - 1, 2 * index).Contains(above) { ContainsThrough(Address(level - 1, 2 * index), above, addr); }
      if Address(level - 1, 2 * index + 1).Contains(above) {
        ContainsThrough(Address(level - 1, 2 * index + 1), above, addr);
      }
    }
  }

  lemma {:induction false} ContainsThrough(a: Address, b: Address, c: Address)
    requires a.Contains(b) && b.Contains(c)
    ensures a.Contains(c)
    decreases b.level - c.level
  {
    if c.level < b.level { ContainsThrough(a, b, c.Parent()); }
  }

  lemma LacksBelow<H>(level: nat, index: nat, t: Tree<H>, cut: nat, addr: Address)
    requires Fits(level, t) && t.Parent?
    ensures Lacks(level, index, t, cut, addr) <==>
      && !(t.ann.Some? && End(level, index) <= cut)
      && (Lacks(level - 1, 2 * index, t.left, cut, addr) || Lacks(level - 1, 2 * index + 1, t.right, cut, addr))
  {
    NodeBelow(level, index, t, addr);
    if addr != Address(level, index) && NodeAt(level, index, t, addr).Some? {
      ChildWithin(level, index, addr);
      UnderCachedBelow(level, index, t, cut, addr);
      OtherChild(level, index, t, cut, addr);
    }
  }

  /** The one node of a tree that is no parent is never under a cached one. */
  lemma NothingCached<H>(level: nat, index: nat, t: Tree<H>, cut: nat, addr: Address)
    requires !t.Parent?
    ensures !UnderCached(level, index, t, cut, addr)
  {
    forall above: Address ensures !CachedBy(level, index, t, cut, above) { OneNode(level, index, t, above); }
  }

  lemma LacksStart<H>(level: nat, index: nat, t: Tree<H>, cut: nat, addr: Address)
    requires Fits(level, t) && cut <= Start(level, index)
    ensures !Lacks(level, index, t, cut, addr)
  {
    if NodeAt(level, index, t, addr).Some? { ContainsRange(Address(level, index), addr); }
  }

  /** A report that lists exactly what is lacking, each once and from left to right. */
  ghost predicate Reports<H>(level: nat, index: nat, t: Tree<H>, cut: nat, missing: seq<Address>)
    requires Fits(level, t)
  {
    && (forall addr :: addr in missing <==> Lacks(level, index, t, cut, addr))
    && LeftToRight(missing) && AllWithin(missing, Start(level, index), End(level, index))
  }

  /** `root_hash` gives a root exactly if nothing is lacking, and otherwise reports exactly what is. */
  lemma {:induction false} RootHashReports<H>(hs: Hashable<H>, level: nat, index: nat, t: Tree<H>, cut: nat)
    requires Fits(level, t)
    ensures var r := RootHash(hs, level, index, t, cut);
            Reports(level, index, t, cut, if r.Ok? then [] else r.error) && (r.Err? ==> r.error != [])
    decreases t
  {
    var r := RootHash(hs, level, index, t, cut);
    StartMono(level, index, index + 1);
    if cut <= Start(level, index) {
      forall addr ensures !Lacks(level, index, t, cut, addr) { LacksStart(level, index, t, cut, addr); }
    } else if !t.Parent? {
      forall addr ensures Lacks(level, index, t, cut, addr) <==> r.Err? && addr == Address(level, index) {
        OneNode(level, index, t, addr);
        NothingCached(level, index, t, cut, addr);
      }
    } else {
      forall addr ensures Lacks(level, index, t, cut, addr) <==>
        && !(t.ann.Some? && End(level, index) <= cut)
        && (Lacks(level - 1, 2 * index, t.left, cut, addr) || Lacks(level - 1, 2 * index + 1, t.right, cut, addr))
      {
        LacksBelow(level, index, t, cut, addr);
      }
      if !(t.ann.Some? && End(level, index) <= cut) {
        RootHashReports(hs, level - 1, 2 * index, t.left, cut);
        RootHashReports(hs, level - 1, 2 * index + 1, t.right, cut);
        Halves(level, index);
        var a := RootHash(hs, level - 1, 2 * index, t.left, cut);
        var b := RootHash(hs, level - 1, 2 * index + 1, t.right, cut);
        var xs, ys := if a.Ok? then [] else a.error, if b.Ok? then [] else b.error;
        JoinedInOrder(xs, ys, Start(level, index), End(level - 1, 2 * index), End(level, index));
        assert [] + ys == ys && xs + [] == xs;
        assert (if r.Ok? then [] else r.error) == xs + ys;
      }
    }
  }

  // ---------- What a witness lacks ----------

  /** The level of the leaf or the empty node that covers a position. */
  function EndLevel<H>(level: nat, index: nat, t: Tree<H>, p: nat): (k: nat)
    requires Fits(level, t)
    ensures k <= level
    decreases t
  {
    if !t.Parent? then level
    else if p < End(level - 1, 2 * index) then EndLevel(level - 1, 2 * index, t.left, p)
    else EndLevel(level - 1, 2 * index + 1, t.right, p)
  }

  /** The sibling met at a level on the way up from a position. */
  function SiblingOf(position: nat, k: nat): Address
  {
    Address(k, SiblingIndex(Above(k, position)))
  }

  /** A left sibling is never truncated. */
  function SiblingCut(position: nat, cut: nat, k: nat): nat
  {
    if Above(k, position) % 2 == 1 then SiblingOf(position, k).RangeEnd() else cut
  }

  ghost predicate SiblingLacks<H>(level: nat, index: nat, t: Tree<H>, position: nat, cut: nat, k: nat, addr: Address)
    requires Fits(level, t)
  {
    var sibling := SiblingOf(position, k);
    var node := NodeAt(level, index, t, sibling);
    node.Some? && Lacks(k, sibling.index, node.value, SiblingCut(position, cut, k), addr)
  }

  /** The leaf is there and marked, and so is its sibling there, unless it is cut off. */
  ghost predicate PairKnown<H>(level: nat, index: nat, t: Tree<H>, position: nat, cut: nat)
    requires Fits(level, t)
  {
    var leaf, sibling := NodeAt(level, index, t, Address(0, position)), NodeAt(level, index, t, SiblingOf(position, 0));
    && leaf.Some? && leaf.value.IsMarkedLeaf()
    && sibling.Some? && (sibling.value.Leaf? || (position % 2 == 0 && cut <= position + 1))
  }

  ghost predicate AboveLacks<H>(level: nat, index: nat, t: Tree<H>, position: nat, cut: nat, addr: Address)
    requires Fits(level, t)
  {
    exists k :: 0 < k < level && EndLevel(level, index, t, position) <= k
      && SiblingLacks(level, index, t, position, cut, k, addr)
  }

  /** What a witness reports: the node in which the way down to the leaf ends too early, everything that the siblings
      above it lack, and at the bottom the leaf's sibling, if the leaf or the sibling is not as needed. */
  ghost predicate WitnessLacks<H>(level: nat, index: nat, t: Tree<H>, position: nat, cut: nat, addr: Address)
    requires Fits(level, t)
  {
    var end := EndLevel(level, index, t, position);
    || (end > 0 && addr == Address(end, Above(end, position)))
    || (end == 0 && level == 0 && addr == Address(0, index))
    || (end == 0 && level > 0 && addr == SiblingOf(position, 0) && !PairKnown(level, index, t, position, cut))
    || AboveLacks(level, index, t, position, cut, addr)
  }

  /** The siblings on the way up to a child lie under that child. */
  lemma SiblingSide(level: nat, index: nat, position: nat, k: nat)
    requires level > 0 && Start(level, index) <= position < End(level, index) && k + 1 < level
    ensures Address(level - 1, Above(level - 1, position)).Contains(SiblingOf(position, k))
  {
    var sibling := SiblingOf(position, k);
    assert sibling.Parent() == Address(k + 1, Above(k + 1, position));
    ClimbAbove(position, k + 1, level - 1);
  }

  /** The nodes under the child on the way to a position. */
  lemma NodesOnSide<H>(level: nat, index: nat, t: Tree<H>, position: nat, addr: Address)
    requires Fits(level, t) && t.Parent? && Start(level, index) <= position < End(level, index)
    requires Address(level - 1, Above(level - 1, position)).Contains(addr)
    ensures NodeAt(level, index, t, addr) ==
      if position < Start(level - 1, 2 * index + 1) then NodeAt(level - 1, 2 * index, t.left, addr)
        else NodeAt(level - 1, 2 * index + 1, t.right, addr)
  {
    PositionSide(level, index, position);
    NodeBelow(level, index, t, addr);
    ChildWithin(level, index, addr);
  }

  /** The other child is the sibling met below the root. */
  lemma TopSibling<H>(level: nat, index: nat, t: Tree<H>, position: nat)
    requires Fits(level, t) && t.Parent? && Start(level, index) <= position < End(level, index)
    ensures var sibling := SiblingOf(position, level - 1);
            if position < Start(level - 1, 2 * index + 1) then
              && sibling == Address(level - 1, 2 * index + 1) && NodeAt(level, index, t, sibling) == Some(t.right)
            else
              && sibling == Address(level - 1, 2 * index) && NodeAt(level, index, t, sibling) == Some(t.left)
  {
    PositionSide(level, index, position);
    NodeBelow(level, index, t, SiblingOf(position, level - 1));
    ChildWithin(level, index, SiblingOf(position, level - 1));
  }

  /** What the child on the way to the position lacks for a witness, or the other one for its root. */
  ghost predicate EitherLacks<H>(level: nat, index: nat, t: Tree<H>, position: nat, cut: nat, addr: Address)
    requires Fits(level, t) && t.Parent?
  {
    var mid := Start(level - 1, 2 * index + 1);
    if position < mid then
      WitnessLacks(level - 1, 2 * index, t.left, position, cut, addr)
        || Lacks(level - 1, 2 * index + 1, t.right, cut, addr)
    else
      WitnessLacks(level - 1, 2 * index + 1, t.right, position, cut, addr)
        || Lacks(level - 1, 2 * index, t.left, mid, addr)
  }

  /** A witness one level up lacks what it lacks below, and what the other child lacks. */
  lemma WitnessLacksBelow<H>(level: nat, index: nat, t: Tree<H>, position: nat, cut: nat, addr: Address)
    requires Fits(level, t) && t.Parent? && level > 1 && Start(level, index) <= position < End(level, index)
    ensures WitnessLacks(level, index, t, position, cut, addr) <==> EitherLacks(level, index, t, position, cut, addr)
  {
    hide Lacks, Climb, Subtree, NodeAt;
    PositionSide(level, index, position);
    TopSibling(level, index, t, position);
    var child := if position < Start(level - 1, 2 * index + 1) then t.left else t.right;
    var i := Above(level - 1, position);
    assert EndLevel(level, index, t, position) == EndLevel(level - 1, i, child, position);
    forall k | 0 <= k < level - 1
      ensures NodeAt(level, index, t, SiblingOf(position, k)) == NodeAt(level - 1, i, child, SiblingOf(position, k))
    {
      SiblingSide(level, index, position, k);
      NodesOnSide(level, index, t, position, SiblingOf(position, k));
    }
    ClimbAbove(position, 0, level - 1);
    NodesOnSide(level, index, t, position, Address(0, position));
    forall k | 0 <= k < level - 1
      ensures SiblingLacks(level, index, t, position, cut, k, addr) <==>
        SiblingLacks(level - 1, i, child, position, cut, k, addr)
    {
    }
    var top := SiblingLacks(level, index, t, position, cut, level - 1, addr);
    assert top <==>
      if position < Start(level - 1, 2 * index + 1) then Lacks(level - 1, 2 * index + 1, t.right, cut, addr)
      else Lacks(level - 1, 2 * index, t.left, End(level - 1, 2 * index), addr);
    if AboveLacks(level, index, t, position, cut, addr) && !top {
      var k :| 0 < k < level && EndLevel(level, index, t, position) <= k
        && SiblingLacks(level, index, t, position, cut, k, addr);
      assert SiblingLacks(level - 1, i, child, position, cut, k, addr);
    }
    if AboveLacks(level - 1, i, child, position, cut, addr) {
      var k :| 0 < k < level - 1 && EndLevel(level - 1, i, child, position) <= k
        && SiblingLacks(level - 1, i, child, position, cut, k, addr);
      assert SiblingLacks(level, index, t, position, cut, k, addr);
    }
  }

  /** A report of exactly what a witness lacks, each once and from left to right. */
  ghost predicate WitnessReport<H>(level: nat, index: nat, t: Tree<H>, position: nat, cut: nat, missing: seq<Address>)
    requires Fits(level, t)
  {
    && (forall addr :: addr in missing <==> WitnessLacks(level, index, t, position, cut, addr))
    && LeftToRight(missing) && AllWithin(missing, Start(level, index), End(level, index))
  }

  lemma PairReports<H>(hs: Hashable<H>, index: nat, t: Tree<H>, position: nat, cut: nat)
    requires Fits(1, t) && t.Parent? && Start(1, index) <= position < End(1, index)
    ensures var w := TreeWitness(hs, 1, index, t, position, cut);
            WitnessReport(1, index, t, position, cut, if w.Ok? then [] else w.error) && (w.Err? ==> w.error != [])
  {
    Halves(1, index);
    assert Above(0, position) == position;
    PositionSide(1, index, position);
    TopSibling(1, index, t, position);
    SameLevel(Address(0, position));
    NodesOnSide(1, index, t, position, Address(0, position));
    var w := TreeWitness(hs, 1, index, t, position, cut);
    assert w.Ok? <==> PairKnown(1, index, t, position, cut);
    assert w.Err? ==> w.error == [SiblingOf(position, 0)];
  }

  lemma SameLevel(a: Address)
    ensures a.Contains(a)
  {
  }

  /** `witness` answers exactly if nothing is lacking, and otherwise reports exactly what is. */
  lemma {:induction false} WitnessReports<H>(hs: Hashable<H>, level: nat, index: nat, t: Tree<H>, position: nat,
                                             cut: nat)
    requires Fits(level, t) && Start(level, index) <= position < End(level, index)
    ensures var w := TreeWitness(hs, level, index, t, position, cut);
            WitnessReport(level, index, t, position, cut, if w.Ok? then [] else w.error) && (w.Err? ==> w.error != [])
    decreases t
  {
    hide Lacks, RootHash, NodeAt;
    var w := TreeWitness(hs, level, index, t, position, cut);
    if !t.Parent? {
      AboveUnique(level, position, index);
    } else if level == 1 {
      PairReports(hs, index, t, position, cut);
    } else {
      Halves(level, index);
      var mid := Start(level - 1, 2 * index + 1);
      forall addr ensures WitnessLacks(level, index, t, position, cut, addr) <==>
        EitherLacks(level, index, t, position, cut, addr)
      {
        WitnessLacksBelow(level, index, t, position, cut, addr);
      }
      var xs, ys: seq<Address>;
      if position < mid {
        WitnessReports(hs, level - 1, 2 * index, t.left, position, cut);
        RootHashReports(hs, level - 1, 2 * index + 1, t.right, cut);
        var a, b := TreeWitness(hs, level - 1, 2 * index, t.left, position, cut),
          RootHash(hs, level - 1, 2 * index + 1, t.right, cut);
        xs, ys := if a.Ok? then [] else a.error, if b.Ok? then [] else b.error;
      } else {
        RootHashReports(hs, level - 1, 2 * index, t.left, mid);
        WitnessReports(hs, level - 1, 2 * index + 1, t.right, position, cut);
        var a, b := RootHash(hs, level - 1, 2 * index, t.left, mid),
          TreeWitness(hs, level - 1, 2 * index + 1, t.right, position, cut);
        xs, ys := if a.Ok? then [] else a.error, if b.Ok? then [] else b.error;
      }
      JoinedInOrder(xs, ys, Start(level, index), mid, End(level, index));
      assert [] + ys == ys && xs + [] == xs;
      assert (if w.Ok? then [] else w.error) == xs + ys;
    }
  }
}
