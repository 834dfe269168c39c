/** `shardtree/src/batch.rs`: building one pruned tree from a run of leaves with a stack of fragments. */
module Batches {

  import opened Basics
  import opened Merkle
  import opened PrunableTrees
  import opened Pruning
  import opened MissingNodes
  import opened Insertions
  import opened Caps
  import opened ShardTrees

  // ---------- Common ancestors ----------

  /** Bitwise exclusive or. */
  function Xor(a: nat, b: nat): nat
  {
    if a == 0 && b == 0 then 0 else (if a % 2 == b % 2 then 0 else 1) + 2 * Xor(a / 2, b / 2)
  }

  /** `Address::common_ancestor`: lifts the lower node to the level of the higher, and then both by as many
      levels as their indices have differing low bits. */
  function CommonAncestor(a: Address, b: Address): Address
  {
    var higher, lower := if a.level >= b.level then a else b, if a.level >= b.level then b else a;
    var lifted := Above(higher.level - lower.level, lower.index);
    var delta := RootLevel(Xor(higher.index, lifted));
    Address(higher.level + delta, Above(delta, if higher.index >= lifted then higher.index else lifted))
  }

  lemma {:induction false} XorZero(a: nat, b: nat)
    ensures Xor(a, b) == 0 <==> a == b
  {
    if a != 0 || b != 0 { XorZero(a / 2, b / 2); }
  }

  lemma {:induction false} ShiftOut(k: nat, x: nat)
    ensures Above(k + 1, x) == Above(k, x / 2)
  {
    if k > 0 { ShiftOut(k - 1, x); }
  }

  /** Two indices agree after dropping `k` bits exactly if their exclusive or has at most `k` bits. */
  lemma {:induction false} AgreeAbove(k: nat, a: nat, b: nat)
    ensures Above(k, a) == Above(k, b) <==> RootLevel(Xor(a, b)) <= k
    decreases k
  {
    XorZero(a, b);
    if k > 0 {
      ShiftOut(k - 1, a);
      ShiftOut(k - 1, b);
      AgreeAbove(k - 1, a / 2, b / 2);
      XorHalves(a, b);
    }
  }

  lemma XorHalves(a: nat, b: nat)
    ensures Xor(a, b) / 2 == Xor(a / 2, b / 2)
  {
  }

  lemma {:induction false} ClimbShifts(addr: Address, k: nat)
    ensures Climb(addr, addr.level + k) == Address(addr.level + k, Above(k, addr.index))
    decreases k
  {
    if k > 0 {
      ShiftOut(k - 1, addr.index);
      ClimbShifts(addr.Parent(), k - 1);
    }
  }

  /** The common ancestor contains both nodes, and nothing lower does. */
  lemma CommonAncestorLeast(a: Address, b: Address, c: Address)
    ensures CommonAncestor(a, b).Contains(a) && CommonAncestor(a, b).Contains(b)
    ensures c.Contains(a) && c.Contains(b) ==> c.level >= CommonAncestor(a, b).level
  {
    var higher, lower := if a.level >= b.level then a else b, if a.level >= b.level then b else a;
    var lifted := Above(higher.level - lower.level, lower.index);
    var delta := RootLevel(Xor(higher.index, lifted));
    AgreeAbove(delta, higher.index, lifted);
    ClimbShifts(higher, delta);
    ClimbShifts(lower, higher.level - lower.level);
    ClimbOnwards(lower, higher.level, higher.level + delta);
    ClimbShifts(Address(higher.level, lifted), delta);
    if c.Contains(a) && c.Contains(b) && c.level < higher.level + delta {
      ClimbShifts(higher, c.level - higher.level);
      ClimbOnwards(lower, higher.level, c.level);
      ClimbShifts(Address(higher.level, lifted), c.level - higher.level);
      AgreeAbove(c.level - higher.level, higher.index, lifted);
    }
  }

  lemma {:induction false} ClimbOnwards(addr: Address, mid: nat, level: nat)
    requires addr.level <= mid <= level
    ensures Climb(addr, level) == Climb(Climb(addr, mid), level)
    decreases mid - addr.level
  {
    if addr.level < mid { ClimbOnwards(addr.Parent(), mid, level); }
  }

  /** A node contains a position exactly when it contains its leaf. */
  lemma ContainsLeaf(addr: Address, p: nat)
    ensures addr.Contains(Address(0, p)) <==> addr.ContainsPosition(p)
  {
    ClimbAbove(p, 0, addr.level);
    AboveRange(addr.level, p);
    if addr.ContainsPosition(p) { AboveUnique(addr.level, p, addr.index); }
  }

  // ---------- Pieces ----------

  /** The batch: values with their retention, at consecutive positions. */
  datatype Item<H> = Item(value: H, retention: Retention)

  /** The values agree with a leaf sequence from a start position on. */
  ghost predicate Fills<H>(leaves: seq<H>, start: nat, items: seq<Item<H>>)
  {
    start + |items| <= |leaves| && forall i | 0 <= i < |items| :: leaves[start + i] == items[i].value
  }

  function FlagsIn<H>(start: nat, items: seq<Item<H>>, p: nat): Flags
  {
    if start <= p < start + |items| then FlagsOf(items[p - start].retention) else EPHEMERAL
  }

  /** The tree holds, within its range, exactly the leaves at positions from `from` up to `to`, and has no
      parent without any leaf below it. */
  ghost predicate Holds<H>(level: nat, index: nat, from: nat, to: nat, t: Tree<H>)
    decreases t
  {
    match t
    case Nil => to <= Start(level, index) || End(level, index) <= from
    case Leaf(_, flags) =>
      && from <= Start(level, index) && End(level, index) <= to
      && (level > 0 ==> !flags.marked && !flags.reference)
    case Parent(ann, left, right) =>
      && level > 0 && ann.None? && !(left.Nil? && right.Nil?)
      && Holds(level - 1, 2 * index, from, to, left) && Holds(level - 1, 2 * index + 1, from, to, right)
  }

  /** A part of the tree over a batch: true hashes, exactly the batch's leaves, exactly their flags. */
  ghost predicate Piece<H>(hs: Hashable<H>, leaves: seq<H>, start: nat, items: seq<Item<H>>, node: Located<H>)
  {
    && Consistent(hs, leaves, node.addr.level, node.addr.index, node.root)
    && Fits(node.addr.level, node.root)
    && Holds(node.addr.level, node.addr.index, start, start + |items|, node.root)
    && forall p: nat | node.addr.ContainsPosition(p) ::
      FlagAt(node.addr.level, node.addr.index, node.root, p) == FlagsIn(start, items, p)
  }

  /** `incomplete_nodes`: the addresses of the empty nodes, from left to right. */
  function IncompleteNodes<H>(level: nat, index: nat, t: Tree<H>): seq<Address>
    requires Fits(level, t)
    decreases t
  {
    match t
    case Nil => [Address(level, index)]
    case Leaf(_, _) => []
    case Parent(_, left, right) =>
      IncompleteNodes(level - 1, 2 * index, left) + IncompleteNodes(level - 1, 2 * index + 1, right)
  }

  /** These are exactly the empty nodes, each once. */
  lemma {:induction false} IncompleteExact<H>(level: nat, index: nat, t: Tree<H>)
    requires Fits(level, t)
    ensures var addrs := IncompleteNodes(level, index, t);
            && (forall addr :: addr in addrs <==> NodeAt(level, index, t, addr) == Some(Nil))
            && LeftToRight(addrs) && AllWithin(addrs, Start(level, index), End(level, index))
    decreases t
  {
    if t.Parent? {
      var l, r := IncompleteNodes(level - 1, 2 * index, t.left), IncompleteNodes(level - 1, 2 * index + 1, t.right);
      IncompleteExact(level - 1, 2 * index, t.left);
      IncompleteExact(level - 1, 2 * index + 1, t.right);
      Halves(level, index);
      JoinedInOrder(l, r, Start(level, index), Start(level - 1, 2 * index + 1), End(level, index));
      forall addr ensures addr in l + r <==> NodeAt(level, index, t, addr) == Some(Nil) {
        NodeBelow(level, index, t, addr);
      }
    } else {
      forall addr ensures NodeAt(level, index, t, addr) == Some(Nil) <==> t.Nil? && addr == Address(level, index) {
        OneNode(level, index, t, addr);
      }
    }
  }

  ghost function NilsOf<H>(node: Located<H>): multiset<Address>
  {
    if Fits(node.addr.level, node.root) then multiset(IncompleteNodes(node.addr.level, node.addr.index, node.root))
      else multiset{}
  }

  /** The batch's own `unite`: prunes only below the given level. */
  function Join<H>(hs: Hashable<H>, left: Located<H>, right: Located<H>, pruneBelow: nat): (r: Located<H>)
    ensures r.addr == left.addr.Parent()
  {
    Located(left.addr.Parent(),
            if left.addr.level < pruneBelow then Unite(hs, left.addr.level, None, left.root, right.root)
              else Parent(None, left.root, right.root))
  }

  /** Pruned below a level, and only there: no pair below it that could be pruned is left, and no leaf is higher up. */
  predicate Compact<H>(pruneBelow: nat, level: nat, t: Tree<H>)
    decreases t
  {
    match t
    case Nil => true
    case Leaf(_, _) => level == 0 || level <= pruneBelow
    case Parent(_, left, right) =>
      && level > 0 && (level <= pruneBelow ==> !Prunes(left, right))
      && Compact(pruneBelow, level - 1, left) && Compact(pruneBelow, level - 1, right)
  }

  predicate CompactNode<H>(pruneBelow: nat, node: Located<H>)
  {
    Compact(pruneBelow, node.addr.level, node.root)
  }

  lemma JoinCompact<H>(hs: Hashable<H>, left: Located<H>, right: Located<H>, pruneBelow: nat)
    requires CompactNode(pruneBelow, left) && CompactNode(pruneBelow, right) && left.addr.level == right.addr.level
    ensures CompactNode(pruneBelow, Join(hs, left, right, pruneBelow))
  {
  }

  /** Joining the pieces at two siblings gives the piece at their parent, with the empty nodes of both. */
  lemma JoinPieces<H>(hs: Hashable<H>, leaves: seq<H>, start: nat, items: seq<Item<H>>, left: Located<H>,
                      right: Located<H>, pruneBelow: nat)
    requires Piece(hs, leaves, start, items, left) && Piece(hs, leaves, start, items, right)
    requires left.addr.IsLeftChild() && right.addr == left.addr.Sibling() && !(left.root.Nil? && right.root.Nil?)
    ensures var joined := Join(hs, left, right, pruneBelow);
            && Piece(hs, leaves, start, items, joined) && !joined.root.Nil?
            && NilsOf(joined) == NilsOf(left) + NilsOf(right)
  {
    hide Root, Start;
    var level, index := left.addr.level + 1, left.addr.index / 2;
    assert 2 * index == left.addr.index && 2 * index + 1 == right.addr.index;
    Halves(level, index);
    var joined := Join(hs, left, right, pruneBelow);
    UniteFits(hs, level, None, left.root, right.root);
    UniteConsistent(hs, leaves, level, index, None, left.root, right.root);
    forall p: nat | joined.addr.ContainsPosition(p)
      ensures FlagAt(level, index, joined.root, p) == FlagsIn(start, items, p)
    {
      UniteFlags(hs, level, index, None, left.root, right.root, p);
      assert if p < End(level - 1, 2 * index) then left.addr.ContainsPosition(p) else right.addr.ContainsPosition(p);
    }
  }

  /** An empty node away from the batch is a piece. */
  lemma EmptyPiece<H>(hs: Hashable<H>, leaves: seq<H>, start: nat, items: seq<Item<H>>, addr: Address)
    requires addr.RangeEnd() <= start || start + |items| <= addr.RangeStart()
    ensures Piece(hs, leaves, start, items, Located(addr, Nil))
    ensures NilsOf<H>(Located(addr, Nil)) == multiset{addr}
  {
  }

  /** A single leaf of the batch is a piece. */
  lemma LeafPiece<H>(hs: Hashable<H>, leaves: seq<H>, start: nat, items: seq<Item<H>>, p: nat)
    requires Fills(leaves, start, items) && start <= p < start + |items|
    ensures var item := items[p - start];
            Piece(hs, leaves, start, items, Located(Address(0, p), Leaf(item.value, FlagsOf(item.retention))))
    ensures var item := items[p - start];
            NilsOf(Located(Address(0, p), Leaf(item.value, FlagsOf(item.retention)))) == multiset{}
  {
    assert leaves[start + (p - start)] == items[p - start].value;
  }

  // ---------- The stack of fragments ----------

  type Fragment<H> = (Located<H>, bool)

  /** The fragments are complete pieces covering the positions from the start up to a point, no two of them
      siblings. */
  ghost predicate Tiled<H>(hs: Hashable<H>, leaves: seq<H>, start: nat, items: seq<Item<H>>,
                           xs: seq<Fragment<H>>, upTo: nat)
    decreases |xs|
  {
    if xs == [] then upTo == start
    else
      var top := xs[|xs| - 1].0;
      var rest := xs[..|xs| - 1];
      && top.addr.RangeEnd() == upTo && start <= top.addr.RangeStart()
      && Piece(hs, leaves, start, items, top) && !top.root.Nil? && NilsOf(top) == multiset{}
      && Tiled(hs, leaves, start, items, rest, top.addr.RangeStart())
      && (rest != [] ==> rest[|rest| - 1].0.addr.Parent() != top.addr.Parent())
  }

  /** Whether the last leaf under a node is a marked one of the batch. */
  predicate EndMarked<H>(start: nat, items: seq<Item<H>>, b: Address)
  {
    b.RangeEnd() > 0 && FlagsIn(start, items, b.RangeEnd() - 1).marked
  }

  /** Each fragment carries the mark of its last leaf, and no other. */
  ghost predicate Labelled<H>(start: nat, items: seq<Item<H>>, xs: seq<Fragment<H>>)
  {
    forall i | 0 <= i < |xs| :: xs[i].1 == EndMarked(start, items, xs[i].0.addr)
  }

  ghost predicate CompactAll<H>(pruneBelow: nat, xs: seq<Fragment<H>>)
  {
    forall i | 0 <= i < |xs| :: CompactNode(pruneBelow, xs[i].0)
  }

  lemma NoFragments<H>(hs: Hashable<H>, leaves: seq<H>, start: nat, items: seq<Item<H>>)
    ensures Tiled(hs, leaves, start, items, [], start) && Labelled(start, items, [])
  {
  }

  lemma TopEnds<H>(hs: Hashable<H>, leaves: seq<H>, start: nat, items: seq<Item<H>>, xs: seq<Fragment<H>>, upTo: nat)
    requires Tiled(hs, leaves, start, items, xs, upTo) && xs != []
    ensures xs[|xs| - 1].0.addr.RangeEnd() == upTo
  {
  }

  lemma PushFragment<H>(hs: Hashable<H>, leaves: seq<H>, start: nat, items: seq<Item<H>>, xs: seq<Fragment<H>>,
                        x: Fragment<H>)
    requires Tiled(hs, leaves, start, items, xs, x.0.addr.RangeStart()) && start <= x.0.addr.RangeStart()
    requires Piece(hs, leaves, start, items, x.0) && !x.0.root.Nil? && NilsOf(x.0) == multiset{}
    requires xs != [] ==> xs[|xs| - 1].0.addr.Parent() != x.0.addr.Parent()
    ensures Tiled(hs, leaves, start, items, xs + [x], x.0.addr.RangeEnd())
  {
    assert (xs + [x])[..|xs|] == xs;
  }

  /** Where a fragment ends and the next node starts, the lower one faces the higher. */
  lemma FacingSides(a: Address, b: Address)
    requires a.RangeEnd() == b.RangeStart()
    ensures a.level < b.level ==> a.IsRightChild()
    ensures b.level < a.level ==> b.IsLeftChild()
    ensures a.level == b.level ==> b.index == a.index + 1
    ensures a.level == b.level && b.IsRightChild() ==> a.Parent() == b.Parent() && b == a.Sibling()
    ensures a.level == b.level && b.IsLeftChild() ==> a.Parent() != b.Parent() && a.IsRightChild()
  {
    if a.level < b.level { StartsBoth(b.level, b.index, a.level, a.index + 1); }
    if b.level < a.level { StartsBoth(a.level, a.index + 1, b.level, b.index); }
    if a.level == b.level { StartInjective(a.level, a.index + 1, b.index); }
  }

  /** A complete piece on its way into the stack. */
  ghost predicate Incoming<H>(hs: Hashable<H>, leaves: seq<H>, start: nat, items: seq<Item<H>>, xs: seq<Fragment<H>>,
                              node: Located<H>, upTo: nat)
  {
    && Tiled(hs, leaves, start, items, xs, node.addr.RangeStart())
    && start <= node.addr.RangeStart() && node.addr.RangeEnd() == upTo
    && Piece(hs, leaves, start, items, node) && !node.root.Nil? && NilsOf(node) == multiset{}
  }

  lemma JoinTop<H>(hs: Hashable<H>, leaves: seq<H>, start: nat, items: seq<Item<H>>, xs: seq<Fragment<H>>,
                   node: Located<H>, upTo: nat, pruneBelow: nat)
    requires Incoming(hs, leaves, start, items, xs, node, upTo) && xs != []
      && xs[|xs| - 1].0.addr.Parent() == node.addr.Parent()
    ensures Incoming(hs, leaves, start, items, xs[..|xs| - 1], Join(hs, xs[|xs| - 1].0, node, pruneBelow), upTo)
  {
    var top := xs[|xs| - 1].0;
    FacingSides(top.addr, node.addr);
    JoinPieces(hs, leaves, start, items, top, node, pruneBelow);
    Halves(top.addr.level + 1, top.addr.index / 2);
  }

  lemma LabelsMark<H>(start: nat, items: seq<Item<H>>, b: Address, position: nat, item: Item<H>)
    requires start <= position < start + |items| && item == items[position - start] && b.RangeEnd() == position + 1
    ensures EndMarked(start, items, b) == FlagsOf(item.retention).marked
  {
  }

  lemma LeafArrives<H>(hs: Hashable<H>, leaves: seq<H>, start: nat, items: seq<Item<H>>, xs: seq<Fragment<H>>,
                       position: nat, pruneBelow: nat)
    requires Fills(leaves, start, items) && start <= position < start + |items|
    requires Tiled(hs, leaves, start, items, xs, position)
    ensures var item := items[position - start];
            var leaf := Located(Address(0, position), Leaf(item.value, FlagsOf(item.retention)));
            && Incoming(hs, leaves, start, items, xs, leaf, position + 1) && CompactNode(pruneBelow, leaf)
            && leaf.addr.RangeStart() == position && leaf.addr.RangeEnd() == position + 1
            && Piece(hs, leaves, start, items, leaf) && NilsOf(leaf) == multiset{}
  {
    LeafPiece(hs, leaves, start, items, position);
  }

  /** Adds a leaf to the stack: at a right-hand position, unites with as many fragments as possible. */
  method PushLeaf<H>(hs: Hashable<H>, ghost leaves: seq<H>, ghost start: nat, ghost items: seq<Item<H>>,
                     fragments: seq<Fragment<H>>,
                     position: nat, item: Item<H>, pruneBelow: nat) returns (r: seq<Fragment<H>>)
    requires Fills(leaves, start, items) && start <= position < start + |items| && item == items[position - start]
    requires Tiled(hs, leaves, start, items, fragments, position) && Labelled(start, items, fragments)
      && CompactAll(pruneBelow, fragments)
    ensures r != [] && Tiled(hs, leaves, start, items, r, position + 1) && Labelled(start, items, r)
      && CompactAll(pruneBelow, r)
  {
    hide Piece, NilsOf, Tiled, FlagsOf, EndMarked, Fills, FlagsIn, Unite, Above, Join, CompactNode, Start;
    var flags := FlagsOf(item.retention);
    var subtree := Located(Address(0, position), Leaf(item.value, flags));
    LeafArrives(hs, leaves, start, items, fragments, position, pruneBelow);
    var rest := fragments;
    if position % 2 == 1 {
      while rest != [] && rest[|rest| - 1].0.addr.Parent() == subtree.addr.Parent()
        invariant Incoming(hs, leaves, start, items, rest, subtree, position + 1) && Labelled(start, items, rest)
        invariant CompactAll(pruneBelow, rest) && CompactNode(pruneBelow, subtree)
        decreases |rest|
      {
        JoinTop(hs, leaves, start, items, rest, subtree, position + 1, pruneBelow);
        JoinCompact(hs, rest[|rest| - 1].0, subtree, pruneBelow);
        subtree, rest := Join(hs, rest[|rest| - 1].0, subtree, pruneBelow), rest[..|rest| - 1];
      }
    } else if rest != [] {
      TopEnds(hs, leaves, start, items, rest, position);
      FacingSides(rest[|rest| - 1].0.addr, subtree.addr);
    }
    PushFragment(hs, leaves, start, items, rest, (subtree, flags.marked));
    LabelsMark(start, items, subtree.addr, position, item);
    r := rest + [(subtree, flags.marked)];
  }

  // ---------- Building one tree from the fragments ----------

  /** `combine_with_empty`, whose assertion is the precondition. */
  function PadWithEmpty<H>(hs: Hashable<H>, node: Located<H>, expectLeft: bool, pruneBelow: nat): (r: Located<H>)
    requires expectLeft == node.addr.IsLeftChild()
    ensures r.addr == node.addr.Parent()
  {
    if node.addr.IsLeftChild() then Join(hs, node, Located(node.addr.Sibling(), Nil), pruneBelow)
    else Join(hs, Located(node.addr.Sibling(), Nil), node, pruneBelow)
  }

  lemma PadCompact<H>(hs: Hashable<H>, node: Located<H>, pruneBelow: nat)
    requires CompactNode(pruneBelow, node)
    ensures CompactNode(pruneBelow, PadWithEmpty(hs, node, node.addr.IsLeftChild(), pruneBelow))
  {
  }

  ghost function Reported(incomplete: seq<IncompleteAt>): multiset<Address>
  {
    if incomplete == [] then multiset{}
      else Reported(incomplete[..|incomplete| - 1]) + multiset{incomplete[|incomplete| - 1].addr}
  }

  lemma ReportOne(incomplete: seq<IncompleteAt>, next: IncompleteAt)
    ensures Reported(incomplete + [next]) == Reported(incomplete) + multiset{next.addr}
  {
    assert (incomplete + [next])[..|incomplete|] == incomplete;
  }

  lemma SplitLast<T>(a: seq<T>, b: seq<T>)
    requires b != []
    ensures a + b == (a + b[..|b| - 1]) + [b[|b| - 1]]
  {
  }

  lemma Regroup<T>(a: multiset<T>, b: multiset<T>, c: multiset<T>)
    ensures (a + b) + c == a + (b + c)
  {
  }

  lemma {:induction false} ReportBoth(a: seq<IncompleteAt>, b: seq<IncompleteAt>)
    ensures Reported(a + b) == Reported(a) + Reported(b)
  {
    if b == [] {
      assert a + b == a;
    } else {
      var k := |b| - 1;
      ReportBoth(a, b[..k]);
      SplitLast(a, b);
      ReportOne(a + b[..k], b[k]);
      Regroup(Reported(a), Reported(b[..k]), multiset{b[k].addr});
    }
  }

  /** Padding on the side away from the batch keeps a piece a piece, and reports the one new empty node. */
  lemma PadPiece<H>(hs: Hashable<H>, leaves: seq<H>, start: nat, items: seq<Item<H>>, node: Located<H>, pruneBelow: nat)
    requires Piece(hs, leaves, start, items, node) && !node.root.Nil?
    requires if node.addr.IsLeftChild() then start + |items| <= node.addr.RangeEnd()
      else node.addr.RangeStart() <= start
    ensures var padded := PadWithEmpty(hs, node, node.addr.IsLeftChild(), pruneBelow);
            && padded.addr == node.addr.Parent()
            && Piece(hs, leaves, start, items, padded) && !padded.root.Nil?
            && NilsOf(padded) == NilsOf(node) + multiset{node.addr.Sibling()}
            && (if node.addr.IsLeftChild() then
                  && padded.addr.RangeStart() == node.addr.RangeStart()
                  && padded.addr.RangeEnd() >= node.addr.RangeEnd()
                else
                  && padded.addr.RangeEnd() == node.addr.RangeEnd()
                  && padded.addr.RangeStart() <= node.addr.RangeStart())
  {
    Halves(node.addr.level + 1, node.addr.index / 2);
    EmptyPiece(hs, leaves, start, items, node.addr.Sibling());
    if node.addr.IsLeftChild() {
      JoinPieces(hs, leaves, start, items, node, Located(node.addr.Sibling(), Nil), pruneBelow);
    }
    else { JoinPieces(hs, leaves, start, items, Located(node.addr.Sibling(), Nil), node, pruneBelow); }
  }

  /** The least node over the whole batch. */
  ghost predicate Spans(root: Address, start: nat, stop: nat)
  {
    && start < stop && root.ContainsPosition(start) && root.ContainsPosition(stop - 1)
    && forall c: Address | c.ContainsPosition(start) && c.ContainsPosition(stop - 1) :: root.level <= c.level
  }

  lemma SpansLevel(root: Address, start: nat, stop: nat, c: Address)
    requires Spans(root, start, stop)
    ensures c.RangeStart() <= start && stop <= c.RangeEnd() ==> root.level <= c.level
  {
    if c.RangeStart() <= start && stop <= c.RangeEnd() {
      assert c.ContainsPosition(start) && c.ContainsPosition(stop - 1);
    }
  }

  /** While working from the right: fragments up to the current tree, which covers the rest of the batch and
      lies within the root. */
  ghost predicate RightPhase<H>(hs: Hashable<H>, leaves: seq<H>, start: nat, items: seq<Item<H>>, root: Address,
                                xs: seq<Fragment<H>>, cur: Located<H>, incomplete: seq<IncompleteAt>)
  {
    && Tiled(hs, leaves, start, items, xs, cur.addr.RangeStart())
    && start <= cur.addr.RangeStart() < start + |items| <= cur.addr.RangeEnd()
    && Piece(hs, leaves, start, items, cur) && !cur.root.Nil? && Reported(incomplete) == NilsOf(cur)
    && root.Contains(cur.addr)
  }

  lemma {:induction false} TiledStarts<H>(hs: Hashable<H>, leaves: seq<H>, start: nat, items: seq<Item<H>>,
                                          xs: seq<Fragment<H>>, upTo: nat)
    requires Tiled(hs, leaves, start, items, xs, upTo)
    ensures start <= upTo && (xs != [] ==> start < upTo)
  {
    if xs != [] { StartMono(xs[|xs| - 1].0.addr.level, xs[|xs| - 1].0.addr.index, xs[|xs| - 1].0.addr.index + 1); }
  }

  /** The current tree is the root exactly when no fragment is left of it. */
  lemma WholeOrBelow<H>(hs: Hashable<H>, leaves: seq<H>, start: nat, items: seq<Item<H>>, root: Address,
                        xs: seq<Fragment<H>>, cur: Located<H>, incomplete: seq<IncompleteAt>)
    requires RightPhase(hs, leaves, start, items, root, xs, cur, incomplete) && Spans(root, start, start + |items|)
    ensures xs == [] ==> cur.addr == root
    ensures xs != [] ==> cur.addr.level < root.level
  {
    TiledStarts(hs, leaves, start, items, xs, cur.addr.RangeStart());
    ContainsRange(root, cur.addr);
    if xs == [] { assert cur.addr.ContainsPosition(start) && cur.addr.ContainsPosition(start + |items| - 1); }
  }

  lemma PadRightPhase<H>(hs: Hashable<H>, leaves: seq<H>, start: nat, items: seq<Item<H>>, root: Address,
                         xs: seq<Fragment<H>>, cur: Located<H>, incomplete: seq<IncompleteAt>, marked: bool,
                         pruneBelow: nat)
    requires RightPhase(hs, leaves, start, items, root, xs, cur, incomplete)
    requires cur.addr.level < root.level && cur.addr.IsLeftChild()
    ensures RightPhase(hs, leaves, start, items, root, xs, PadWithEmpty(hs, cur, true, pruneBelow),
                       incomplete + [IncompleteAt(cur.addr.Sibling(), marked)])
  {
    PadPiece(hs, leaves, start, items, cur, pruneBelow);
    ReportOne(incomplete, IncompleteAt(cur.addr.Sibling(), marked));
  }

  lemma UniteRightPhase<H>(hs: Hashable<H>, leaves: seq<H>, start: nat, items: seq<Item<H>>, root: Address,
                           xs: seq<Fragment<H>>, cur: Located<H>, incomplete: seq<IncompleteAt>, pruneBelow: nat)
    requires RightPhase(hs, leaves, start, items, root, xs, cur, incomplete)
    requires xs != [] && cur.addr.level < root.level && cur.addr.level == xs[|xs| - 1].0.addr.level
      && cur.addr.IsRightChild()
    ensures xs[|xs| - 1].0.addr.Parent() == cur.addr.Parent()
    ensures RightPhase(hs, leaves, start, items, root, xs[..|xs| - 1], Join(hs, xs[|xs| - 1].0, cur, pruneBelow),
                       incomplete)
  {
    var top := xs[|xs| - 1].0;
    FacingSides(top.addr, cur.addr);
    JoinPieces(hs, leaves, start, items, top, cur, pruneBelow);
    Halves(cur.addr.level + 1, cur.addr.index / 2);
  }

  /** Pads the current tree with empty right siblings up to the level of the top fragment. */
  method PadToTop<H>(hs: Hashable<H>, ghost leaves: seq<H>, ghost start: nat, ghost items: seq<Item<H>>,
                     ghost root: Address,
                     xs: seq<Fragment<H>>, node: Located<H>, reported: seq<IncompleteAt>, pruneBelow: nat)
    returns (cur: Located<H>, incomplete: seq<IncompleteAt>)
    requires xs != [] && RightPhase(hs, leaves, start, items, root, xs, node, reported)
      && Spans(root, start, start + |items|) && CompactNode(pruneBelow, node)
    ensures RightPhase(hs, leaves, start, items, root, xs, cur, incomplete)
    ensures xs[|xs| - 1].0.addr.level <= cur.addr.level < root.level
    ensures cur == node || cur.addr.level == xs[|xs| - 1].0.addr.level
    ensures CompactNode(pruneBelow, cur)
  {
    hide PadWithEmpty, CompactNode;
    var (top, topMarked) := xs[|xs| - 1];
    cur, incomplete := node, reported;
    while cur.addr.level < top.addr.level
      invariant RightPhase(hs, leaves, start, items, root, xs, cur, incomplete)
      invariant cur == node || cur.addr.level <= top.addr.level
      invariant CompactNode(pruneBelow, cur)
      decreases top.addr.level - cur.addr.level
    {
      WholeOrBelow(hs, leaves, start, items, root, xs, cur, incomplete);
      FacingSides(top.addr, cur.addr);
      PadCompact(hs, cur, pruneBelow);
      PadRightPhase(hs, leaves, start, items, root, xs, cur, incomplete, topMarked, pruneBelow);
      incomplete := incomplete + [IncompleteAt(cur.addr.Sibling(), topMarked)];
      cur := PadWithEmpty(hs, cur, true, pruneBelow);
    }
    WholeOrBelow(hs, leaves, start, items, root, xs, cur, incomplete);
  }

  /** A block that reaches so near the end of the batch that working from the right meets it. */
  predicate NearStop(stop: nat, b: Address) {
    stop <= b.RangeEnd() + Pow2(b.level)
  }

  /** A block that is padded up to when working from the left. */
  predicate NearStart(start: nat, b: Address) {
    start < b.RangeStart() && 2 * (b.RangeStart() - start) <= Pow2(b.level)
  }

  ghost predicate MarkedNearStop<H>(stop: nat, xs: seq<Fragment<H>>, from: nat) {
    exists i | from <= i < |xs| :: xs[i].1 && NearStop(stop, xs[i].0.addr)
  }

  ghost predicate MarkedNearStart<H>(start: nat, xs: seq<Fragment<H>>, to: nat) {
    exists i | 0 <= i < to <= |xs| :: xs[i].1 && NearStart(start, xs[i].0.addr)
  }

  /** Some fragment near either end of the batch is labelled as marked. */
  ghost predicate MarkedNearEnds<H>(start: nat, stop: nat, xs: seq<Fragment<H>>) {
    MarkedNearStop(stop, xs, 0) || MarkedNearStart(start, xs, |xs|)
  }

  lemma Width(b: Address)
    ensures b.RangeEnd() == b.RangeStart() + Pow2(b.level)
  {
    StartSum(b.level, b.index);
    StartIsShift(b.level, 1);
  }

  lemma {:induction false} WidthGrows(low: nat, high: nat)
    requires low < high
    ensures 2 * Pow2(low) <= Pow2(high)
  {
    if low + 1 < high { WidthGrows(low, high - 1); }
  }

  /** Below a fragment that is a right child, every fragment is lower than the one after it and far from the end. */
  lemma {:induction false} RisingIsFar<H>(hs: Hashable<H>, leaves: seq<H>, start: nat, items: seq<Item<H>>,
                                          xs: seq<Fragment<H>>, upTo: nat, stop: nat, i: nat)
    requires Tiled(hs, leaves, start, items, xs, upTo) && upTo <= stop && i + 1 < |xs|
    requires xs[|xs| - 1].0.addr.IsRightChild()
    ensures !NearStop(stop, xs[i].0.addr)
    decreases |xs|
  {
    var top, rest := xs[|xs| - 1].0.addr, xs[..|xs| - 1];
    var below := rest[|rest| - 1].0.addr;
    FacingSides(below, top);
    Width(top);
    WidthGrows(below.level, top.level);
    if i + 1 < |rest| { RisingIsFar(hs, leaves, start, items, rest, top.RangeStart(), stop, i); }
  }

  /** While working from the right: the flag is that of the fragments met, all near the end, and the batch
      reaches into the right half of the current tree. */
  ghost predicate RightFlag<H>(stop: nat, fragments: seq<Fragment<H>>, xs: seq<Fragment<H>>, cur: Address, marked: bool)
  {
    && |xs| < |fragments| && xs == fragments[..|xs|]
    && (marked <==> MarkedNearStop(stop, fragments, |xs|))
    && (forall i | |xs| <= i < |fragments| :: NearStop(stop, fragments[i].0.addr))
    && 2 * (stop - cur.RangeStart()) > Pow2(cur.level)
  }

  /** Having worked from the right: the flag is that of all fragments near the end, among them those gone. */
  ghost predicate RightFlagDone<H>(stop: nat, fragments: seq<Fragment<H>>, xs: seq<Fragment<H>>, marked: bool)
  {
    && |xs| < |fragments| && xs == fragments[..|xs|]
    && (marked <==> MarkedNearStop(stop, fragments, 0))
    && forall i | |xs| <= i < |fragments| :: NearStop(stop, fragments[i].0.addr)
  }

  lemma RightFlagStarts<H>(stop: nat, fragments: seq<Fragment<H>>)
    requires fragments != [] && fragments[|fragments| - 1].0.addr.RangeEnd() == stop
    ensures RightFlag(stop, fragments, fragments[..|fragments| - 1], fragments[|fragments| - 1].0.addr,
                      fragments[|fragments| - 1].1)
  {
    var last := |fragments| - 1;
    Width(fragments[last].0.addr);
    assert NearStop(stop, fragments[last].0.addr);
  }

  lemma RightFlagUnites<H>(stop: nat, fragments: seq<Fragment<H>>, xs: seq<Fragment<H>>, from: Address, cur: Address,
                           marked: bool)
    requires RightFlag(stop, fragments, xs, from, marked) && xs != [] && from.RangeStart() == cur.RangeStart() < stop
    requires cur.level == xs[|xs| - 1].0.addr.level && cur == xs[|xs| - 1].0.addr.Sibling() && cur.IsRightChild()
    requires stop <= cur.RangeEnd()
    ensures RightFlag(stop, fragments, xs[..|xs| - 1], cur.Parent(), marked || xs[|xs| - 1].1)
  {
    var k := |xs| - 1;
    var top := xs[k].0.addr;
    assert fragments[k] == xs[k];
    Width(top);
    Width(cur);
    Halves(cur.level + 1, cur.index / 2);
    assert NearStop(stop, fragments[k].0.addr);
    if marked {
      var i :| |xs| <= i < |fragments| && fragments[i].1 && NearStop(stop, fragments[i].0.addr);
      assert k <= i;
    }
  }

  /** Nothing below the top fragment is near the end any more. */
  lemma RightFlagEnds<H>(hs: Hashable<H>, leaves: seq<H>, start: nat, items: seq<Item<H>>, stop: nat,
                         fragments: seq<Fragment<H>>, xs: seq<Fragment<H>>, from: Address, cur: Address, marked: bool)
    requires RightFlag(stop, fragments, xs, from, marked) && from.RangeStart() == cur.RangeStart() < stop
    requires Tiled(hs, leaves, start, items, xs, cur.RangeStart()) && stop <= cur.RangeEnd()
    requires xs != [] ==>
      var top := xs[|xs| - 1].0.addr;
      (cur == from && top.level < cur.level) || (cur.level == top.level && cur.IsLeftChild())
    ensures var met := xs != [] && xs[|xs| - 1].0.addr.level == cur.level && xs[|xs| - 1].1;
            RightFlagDone(stop, fragments, xs, marked || met)
  {
    if xs != [] {
      var k := |xs| - 1;
      var top := xs[k].0.addr;
      assert fragments[k] == xs[k];
      FacingSides(top, cur);
      Width(cur);
      if top.level < cur.level { WidthGrows(top.level, cur.level); }
      assert NearStop(stop, top) <==> top.level == cur.level;
      forall i | 0 <= i < k ensures !NearStop(stop, fragments[i].0.addr) {
        RisingIsFar(hs, leaves, start, items, xs, cur.RangeStart(), stop, i);
        assert fragments[i] == xs[i];
      }
      FlagOfTop(stop, fragments, k);
    }
  }

  lemma FlagOfTop<H>(stop: nat, fragments: seq<Fragment<H>>, k: nat)
    requires k < |fragments| && forall i | 0 <= i < k :: !NearStop(stop, fragments[i].0.addr)
    ensures MarkedNearStop(stop, fragments, 0) <==>
      MarkedNearStop(stop, fragments, k + 1) || (NearStop(stop, fragments[k].0.addr) && fragments[k].1)
  {
    if MarkedNearStop(stop, fragments, k + 1) {
      var i :| k + 1 <= i < |fragments| && fragments[i].1 && NearStop(stop, fragments[i].0.addr);
      assert 0 <= i;
    }
  }

  /** The first loop of `build_minimal_tree`: merges from the right until the next fragment is lower than the
      current tree. */
  method MergeFromRight<H>(hs: Hashable<H>, ghost leaves: seq<H>, ghost start: nat, ghost items: seq<Item<H>>,
                           ghost root: Address,
                           fragments: seq<Fragment<H>>, pruneBelow: nat)
    returns (xs: seq<Fragment<H>>, cur: Located<H>, containsMarked: bool, incomplete: seq<IncompleteAt>)
    requires fragments != [] && Tiled(hs, leaves, start, items, fragments, start + |items|)
      && Spans(root, start, start + |items|) && CompactAll(pruneBelow, fragments)
    ensures RightPhase(hs, leaves, start, items, root, xs, cur, incomplete)
    ensures CompactAll(pruneBelow, xs) && CompactNode(pruneBelow, cur)
    ensures xs != [] ==> xs[|xs| - 1].0.addr.level < cur.addr.level
    ensures RightFlagDone(start + |items|, fragments, xs, containsMarked)
  {
    hide RightFlag, RightFlagDone, Piece, Pow2, NearStop, FlagsIn, Spans, Unite, NilsOf, Climb, Start, CompactNode,
      Join, PadWithEmpty;
    xs, cur, containsMarked := fragments[..|fragments| - 1], fragments[|fragments| - 1].0, fragments[|fragments| - 1].1;
    incomplete := [];
    StartMono(cur.addr.level, cur.addr.index, cur.addr.index + 1);
    LastFragmentWithin(root, cur.addr, start, start + |items|);
    ghost var stop := start + |items|;
    RightFlagStarts(stop, fragments);
    var going := true;
    while going && xs != []
      invariant RightPhase(hs, leaves, start, items, root, xs, cur, incomplete)
      invariant CompactAll(pruneBelow, xs) && CompactNode(pruneBelow, cur)
      invariant !going && xs != [] ==> xs[|xs| - 1].0.addr.level < cur.addr.level
      invariant if going then RightFlag(stop, fragments, xs, cur.addr, containsMarked)
        else RightFlagDone(stop, fragments, xs, containsMarked)
      decreases |xs|, going
    {
      var (top, topMarked) := xs[|xs| - 1];
      ghost var from := cur.addr;
      cur, incomplete := PadToTop(hs, leaves, start, items, root, xs, cur, incomplete, pruneBelow);
      if cur.addr.level == top.addr.level {
        ghost var wasMarked := containsMarked;
        containsMarked := containsMarked || topMarked;
        if cur.addr.IsRightChild() {
          UniteRightPhase(hs, leaves, start, items, root, xs, cur, incomplete, pruneBelow);
          RightFlagUnites(stop, fragments, xs, from, cur.addr, wasMarked);
          JoinCompact(hs, top, cur, pruneBelow);
          cur, xs := Join(hs, top, cur, pruneBelow), xs[..|xs| - 1];
        } else {
          RightFlagEnds(hs, leaves, start, items, stop, fragments, xs, from, cur.addr, wasMarked);
          PadRightPhase(hs, leaves, start, items, root, xs, cur, incomplete, topMarked, pruneBelow);
          PadCompact(hs, cur, pruneBelow);
          incomplete := incomplete + [IncompleteAt(cur.addr.Sibling(), topMarked)];
          cur, going := PadWithEmpty(hs, cur, true, pruneBelow), false;
        }
      } else {
        RightFlagEnds(hs, leaves, start, items, stop, fragments, xs, from, cur.addr, containsMarked);
        going := false;
      }
    }
    if going { RightFlagEnds(hs, leaves, start, items, stop, fragments, xs, cur.addr, cur.addr, containsMarked); }
  }

  /** A complete node that ends with the batch lies within the least node over the batch. */
  lemma LastFragmentWithin(root: Address, addr: Address, start: nat, stop: nat)
    requires Spans(root, start, stop) && start <= addr.RangeStart() < stop == addr.RangeEnd()
    ensures root.Contains(addr)
  {
    AboveUnique(addr.level, stop - 1, addr.index);
    AboveUnique(root.level, stop - 1, root.index);
    if addr.level <= root.level {
      ClimbAbove(stop - 1, addr.level, root.level);
    } else {
      var child := Address(addr.level - 1, Above(addr.level - 1, stop - 1));
      ClimbAbove(stop - 1, root.level, addr.level - 1);
      ContainsRange(child, root);
      assert child.index / 2 == addr.index;
      Halves(addr.level, addr.index);
    }
  }

  /** Nodes at the end of a larger node's range lie within it. */
  lemma {:induction false} EndsTogether(a: Address, large: Address)
    requires a.level <= large.level && a.RangeEnd() == large.RangeEnd()
    ensures large.RangeStart() <= a.RangeStart()
    decreases large.level - a.level
  {
    if a.level < large.level {
      StartsBoth(large.level, large.index + 1, a.level, a.index + 1);
      assert a.Parent().index + 1 == (a.index + 1) / 2;
      Halves(a.level + 1, a.index / 2);
      EndsTogether(a.Parent(), large);
    } else {
      StartInjective(a.level, a.index + 1, large.index + 1);
    }
  }

  /** Fragments rising towards a node all lie within its left sibling. */
  lemma {:induction false} RisingWithin<H>(hs: Hashable<H>, leaves: seq<H>, start: nat, items: seq<Item<H>>,
                                           xs: seq<Fragment<H>>, next: Address)
    requires Tiled(hs, leaves, start, items, xs, next.RangeStart()) && xs != []
      && xs[|xs| - 1].0.addr.level < next.level && next.index > 0
    ensures Start(next.level, next.index - 1) <= start
    decreases |xs|
  {
    var top := xs[|xs| - 1].0.addr;
    var rest := xs[..|xs| - 1];
    FacingSides(top, next);
    EndsTogether(top, Address(next.level, next.index - 1));
    if rest != [] {
      FacingSides(rest[|rest| - 1].0.addr, top);
      RisingWithin(hs, leaves, start, items, rest, top);
      Halves(top.level + 1, top.index / 2);
      assert top.Parent().RangeEnd() == top.RangeEnd();
      EndsTogether(top.Parent(), Address(next.level, next.index - 1));
    }
  }

  /** Once the fragments rise towards the current tree, it is a left child until just below the root. */
  lemma LeftBelowRoot<H>(hs: Hashable<H>, leaves: seq<H>, start: nat, items: seq<Item<H>>, root: Address,
                         xs: seq<Fragment<H>>, cur: Located<H>, incomplete: seq<IncompleteAt>)
    requires RightPhase(hs, leaves, start, items, root, xs, cur, incomplete) && Spans(root, start, start + |items|)
    requires xs != [] ==> xs[|xs| - 1].0.addr.level < cur.addr.level
    requires cur.addr.level + 1 < root.level
    ensures cur.addr.IsLeftChild()
  {
    WholeOrBelow(hs, leaves, start, items, root, xs, cur, incomplete);
    if cur.addr.IsRightChild() {
      RisingWithin(hs, leaves, start, items, xs, cur.addr);
      Halves(cur.addr.level + 1, cur.addr.index / 2);
      SpansLevel(root, start, start + |items|, cur.addr.Parent());
    }
  }

  /** While working from the left: the tree so far ends where the next fragment starts and reaches back to
      the start of the batch. */
  ghost predicate LeftPhase<H>(hs: Hashable<H>, leaves: seq<H>, start: nat, items: seq<Item<H>>, prev: Located<H>,
                               next: Address)
  {
    && Piece(hs, leaves, start, items, prev) && !prev.root.Nil?
    && prev.addr.RangeStart() <= start && prev.addr.RangeEnd() == next.RangeStart() && prev.addr.level <= next.level
  }

  /** Pads the tree so far with empty left siblings up to the level of the next fragment. */
  method PadToNext<H>(hs: Hashable<H>, ghost leaves: seq<H>, ghost start: nat, ghost items: seq<Item<H>>,
                      node: Located<H>, next: Address, marked: bool, reported: seq<IncompleteAt>,
                      ghost others: multiset<Address>, pruneBelow: nat)
    returns (prev: Located<H>, incomplete: seq<IncompleteAt>)
    requires LeftPhase(hs, leaves, start, items, node, next) && Reported(reported) == NilsOf(node) + others
    requires CompactNode(pruneBelow, node)
    ensures LeftPhase(hs, leaves, start, items, prev, next) && prev.addr.level == next.level
      && CompactNode(pruneBelow, prev)
    ensures Reported(incomplete) == NilsOf(prev) + others
  {
    prev, incomplete := node, reported;
    while prev.addr.level < next.level
      invariant LeftPhase(hs, leaves, start, items, prev, next) && Reported(incomplete) == NilsOf(prev) + others
      invariant CompactNode(pruneBelow, prev)
      decreases next.level - prev.addr.level
    {
      FacingSides(prev.addr, next);
      PadPiece(hs, leaves, start, items, prev, pruneBelow);
      PadCompact(hs, prev, pruneBelow);
      ReportOne(incomplete, IncompleteAt(prev.addr.Sibling(), marked));
      incomplete := incomplete + [IncompleteAt(prev.addr.Sibling(), marked)];
      prev := PadWithEmpty(hs, prev, false, pruneBelow);
    }
  }

  lemma JoinNext<H>(hs: Hashable<H>, leaves: seq<H>, start: nat, items: seq<Item<H>>, prev: Located<H>,
                    next: Located<H>, pruneBelow: nat)
    requires LeftPhase(hs, leaves, start, items, prev, next.addr) && prev.addr.level == next.addr.level
    requires Piece(hs, leaves, start, items, next) && !next.root.Nil? && next.addr.IsRightChild()
    ensures prev.addr.Parent() == next.addr.Parent()
    ensures var joined := Join(hs, prev, next, pruneBelow);
            && joined.addr == next.addr.Parent() && Piece(hs, leaves, start, items, joined) && !joined.root.Nil?
            && joined.addr.RangeStart() <= start && joined.addr.RangeEnd() == next.addr.RangeEnd()
            && NilsOf(joined) == NilsOf(prev) + NilsOf(next)
  {
    FacingSides(prev.addr, next.addr);
    JoinPieces(hs, leaves, start, items, prev, next, pruneBelow);
    Halves(next.addr.level + 1, next.addr.index / 2);
  }

  function AddrAt<H>(xs: seq<Fragment<H>>, last: Address, i: nat): Address
  {
    if i < |xs| then xs[i].0.addr else last
  }

  /** What a fragment of a rising stack is, and that the one after it is higher and a right child. */
  lemma {:induction false} RisingAt<H>(hs: Hashable<H>, leaves: seq<H>, start: nat, items: seq<Item<H>>,
                                       xs: seq<Fragment<H>>, next: Address, i: nat)
    requires Tiled(hs, leaves, start, items, xs, next.RangeStart()) && i < |xs|
      && xs[|xs| - 1].0.addr.level < next.level
    ensures Piece(hs, leaves, start, items, xs[i].0) && !xs[i].0.root.Nil? && NilsOf(xs[i].0) == multiset{}
    ensures i == 0 ==> xs[i].0.addr.RangeStart() == start
    ensures xs[i].0.addr.IsRightChild()
    ensures xs[i].0.addr.RangeEnd() == AddrAt(xs, next, i + 1).RangeStart()
      && xs[i].0.addr.level < AddrAt(xs, next, i + 1).level
    decreases |xs|
  {
    var top := xs[|xs| - 1].0.addr;
    var rest := xs[..|xs| - 1];
    FacingSides(top, next);
    if rest != [] { FacingSides(rest[|rest| - 1].0.addr, top); }
    if i < |rest| { RisingAt(hs, leaves, start, items, rest, top, i); }
  }

  /** One step of the closing fold. */
  method FoldNext<H>(hs: Hashable<H>, ghost leaves: seq<H>, ghost start: nat, ghost items: seq<Item<H>>,
                     node: Located<H>, next: Located<H>,
                     nextMarked: bool, marked: bool, reported: seq<IncompleteAt>, ghost others: multiset<Address>,
                     pruneBelow: nat)
    returns (tree: Located<H>, containsMarked: bool, incomplete: seq<IncompleteAt>)
    requires LeftPhase(hs, leaves, start, items, node, next.addr) && Reported(reported) == NilsOf(node) + others
    requires Piece(hs, leaves, start, items, next) && !next.root.Nil? && next.addr.IsRightChild()
    requires CompactNode(pruneBelow, node) && CompactNode(pruneBelow, next)
    ensures CompactNode(pruneBelow, tree)
    ensures tree.addr == next.addr.Parent() && Piece(hs, leaves, start, items, tree) && !tree.root.Nil?
    ensures tree.addr.RangeStart() <= start && tree.addr.RangeEnd() == next.addr.RangeEnd()
    ensures Reported(incomplete) + NilsOf(next) == NilsOf(tree) + others
    ensures containsMarked == (marked || (node.addr.level < next.addr.level && nextMarked))
  {
    containsMarked := marked || (node.addr.level < next.addr.level && nextMarked);
    var prev;
    prev, incomplete := PadToNext(hs, leaves, start, items, node, next.addr, nextMarked, reported, others, pruneBelow);
    JoinNext(hs, leaves, start, items, prev, next, pruneBelow);
    JoinCompact(hs, prev, next, pruneBelow);
    tree := Join(hs, prev, next, pruneBelow);
  }

  /** The fold before fragment `j`. */
  ghost predicate Folding<H>(hs: Hashable<H>, leaves: seq<H>, start: nat, items: seq<Item<H>>, xs: seq<Fragment<H>>,
                             cur: Located<H>,
                             j: nat, tree: Located<H>, incomplete: seq<IncompleteAt>)
  {
    LeftPhase(hs, leaves, start, items, tree, AddrAt(xs, cur.addr, j))
      && Reported(incomplete) == NilsOf(tree) + NilsOf(cur)
  }

  lemma FoldingStarts<H>(hs: Hashable<H>, leaves: seq<H>, start: nat, items: seq<Item<H>>, xs: seq<Fragment<H>>,
                         cur: Located<H>, incomplete: seq<IncompleteAt>)
    requires xs != [] && Tiled(hs, leaves, start, items, xs, cur.addr.RangeStart())
      && xs[|xs| - 1].0.addr.level < cur.addr.level
    requires Reported(incomplete) == NilsOf(cur)
    ensures Folding(hs, leaves, start, items, xs, cur, 1, xs[0].0, incomplete)
  {
    RisingAt(hs, leaves, start, items, xs, cur.addr, 0);
  }

  lemma FoldedOn<H>(hs: Hashable<H>, leaves: seq<H>, start: nat, items: seq<Item<H>>, xs: seq<Fragment<H>>,
                    cur: Located<H>, j: nat,
                    tree: Located<H>, incomplete: seq<IncompleteAt>)
    requires Tiled(hs, leaves, start, items, xs, cur.addr.RangeStart()) && j < |xs|
      && xs[|xs| - 1].0.addr.level < cur.addr.level
    requires tree.addr == xs[j].0.addr.Parent() && Piece(hs, leaves, start, items, tree) && !tree.root.Nil?
    requires tree.addr.RangeStart() <= start && tree.addr.RangeEnd() == xs[j].0.addr.RangeEnd()
    requires Reported(incomplete) + NilsOf(xs[j].0) == NilsOf(tree) + NilsOf(cur)
    ensures Folding(hs, leaves, start, items, xs, cur, j + 1, tree, incomplete)
  {
    RisingAt(hs, leaves, start, items, xs, cur.addr, j);
  }

  lemma Cancel<T>(a: multiset<T>, b: multiset<T>, c: multiset<T>)
    requires a + c == b + c
    ensures a == b
  {
    forall x ensures a[x] == b[x] { assert (a + c)[x] == (b + c)[x]; }
  }

  /** While working from the left: the tree so far is less than twice as wide as the part of the batch in it,
      and the flag has taken in the fragments near the start. */
  ghost predicate LeftFlag<H>(start: nat, xs: seq<Fragment<H>>, j: nat, tree: Address, before: bool, marked: bool) {
    Pow2(tree.level) < 2 * (tree.RangeEnd() - start) && (marked <==> before || MarkedNearStart(start, xs, j))
  }

  lemma LeftFlagStarts<H>(start: nat, xs: seq<Fragment<H>>, before: bool)
    requires xs != [] && xs[0].0.addr.RangeStart() == start
    ensures LeftFlag(start, xs, 1, xs[0].0.addr, before, before)
  {
    Width(xs[0].0.addr);
  }

  lemma LeftFlagNext<H>(start: nat, xs: seq<Fragment<H>>, j: nat, node: Address, before: bool, marked: bool)
    requires LeftFlag(start, xs, j, node, before, marked) && 0 < j < |xs| && node.level <= xs[j].0.addr.level
    requires node.RangeStart() <= start < node.RangeEnd() == xs[j].0.addr.RangeStart() && xs[j].0.addr.IsRightChild()
    ensures LeftFlag(start, xs, j + 1, xs[j].0.addr.Parent(), before,
                     marked || (node.level < xs[j].0.addr.level && xs[j].1))
  {
    var next := xs[j].0.addr;
    Width(node);
    Width(next);
    Halves(next.level + 1, next.index / 2);
    if node.level < next.level { WidthGrows(node.level, next.level); }
    assert NearStart(start, next) <==> node.level < next.level;
    if MarkedNearStart(start, xs, j + 1) {
      var i :| 0 <= i < j + 1 <= |xs| && xs[i].1 && NearStart(start, xs[i].0.addr);
      assert i < j ==> MarkedNearStart(start, xs, j);
    }
  }

  /** The closing fold of `build_minimal_tree`, up to the last tree. */
  method FoldFragments<H>(hs: Hashable<H>, ghost leaves: seq<H>, ghost start: nat, ghost items: seq<Item<H>>,
                          xs: seq<Fragment<H>>, ghost cur: Located<H>, curMarked: bool, reported: seq<IncompleteAt>,
                          pruneBelow: nat)
    returns (tree: Located<H>, containsMarked: bool, incomplete: seq<IncompleteAt>)
    requires xs != [] && Tiled(hs, leaves, start, items, xs, cur.addr.RangeStart())
      && xs[|xs| - 1].0.addr.level < cur.addr.level
    requires Reported(reported) == NilsOf(cur) && CompactAll(pruneBelow, xs)
    ensures Folding(hs, leaves, start, items, xs, cur, |xs|, tree, incomplete) && CompactNode(pruneBelow, tree)
    ensures containsMarked <==> curMarked || MarkedNearStart(start, xs, |xs|)
  {
    tree, containsMarked, incomplete := xs[0].0, curMarked, reported;
    RisingAt(hs, leaves, start, items, xs, cur.addr, 0);
    LeftFlagStarts(start, xs, curMarked);
    FoldingStarts(hs, leaves, start, items, xs, cur, incomplete);
    var j := 1;
    while j < |xs|
      invariant 1 <= j <= |xs| && Folding(hs, leaves, start, items, xs, cur, j, tree, incomplete)
      invariant LeftFlag(start, xs, j, tree.addr, curMarked, containsMarked)
      invariant CompactNode(pruneBelow, tree)
    {
      RisingAt(hs, leaves, start, items, xs, cur.addr, j);
      LeftFlagNext(start, xs, j, tree.addr, curMarked, containsMarked);
      tree, containsMarked, incomplete :=
        FoldNext(hs, leaves, start, items, tree, xs[j].0, xs[j].1, containsMarked, incomplete, NilsOf(cur), pruneBelow);
      FoldedOn(hs, leaves, start, items, xs, cur, j, tree, incomplete);
      j := j + 1;
    }
  }

  /** The closing fold of `build_minimal_tree`. */
  method FoldFromLeft<H>(hs: Hashable<H>, ghost leaves: seq<H>, ghost start: nat, ghost items: seq<Item<H>>,
                         xs: seq<Fragment<H>>, cur: Located<H>, curMarked: bool, reported: seq<IncompleteAt>,
                         pruneBelow: nat)
    returns (tree: Located<H>, containsMarked: bool, incomplete: seq<IncompleteAt>)
    requires xs != [] && Tiled(hs, leaves, start, items, xs, cur.addr.RangeStart())
    requires Piece(hs, leaves, start, items, cur) && !cur.root.Nil? && Reported(reported) == NilsOf(cur)
    requires xs[|xs| - 1].0.addr.level < cur.addr.level && cur.addr.IsRightChild()
    requires CompactAll(pruneBelow, xs) && CompactNode(pruneBelow, cur)
    ensures tree.addr == cur.addr.Parent() && Piece(hs, leaves, start, items, tree)
      && Reported(incomplete) == NilsOf(tree) && CompactNode(pruneBelow, tree)
    ensures containsMarked <==> curMarked || MarkedNearStart(start, xs, |xs|)
  {
    tree, containsMarked, incomplete :=
      FoldFragments(hs, leaves, start, items, xs, cur, curMarked, reported, pruneBelow);
    tree, containsMarked, incomplete :=
      FoldNext(hs, leaves, start, items, tree, cur, curMarked, containsMarked, incomplete, NilsOf(cur), pruneBelow);
    Cancel(Reported(incomplete), NilsOf(tree), NilsOf(cur));
  }

  lemma JustBelowRoot(root: Address, addr: Address, start: nat)
    requires root.Contains(addr) && addr.level + 1 == root.level && root.RangeStart() <= start < addr.RangeStart()
    ensures addr.IsRightChild() && addr.Parent() == root
  {
    ClimbStep(addr, root.level);
    Halves(root.level, root.index);
  }

  /** All leaves under a node are in the batch. */
  predicate Within(start: nat, stop: nat, b: Address) {
    start <= b.RangeStart() && b.RangeEnd() <= stop
  }

  /** A largest node with all its leaves in the batch. */
  predicate Block(start: nat, stop: nat, b: Address) {
    Within(start, stop, b) && !Within(start, stop, b.Parent())
  }

  /** What the batch's flag says: some block that is met from the right or padded up to from the left ends in a
      marked leaf. */
  ghost predicate MarkSeen<H>(start: nat, items: seq<Item<H>>) {
    exists b: Address ::
      && Block(start, start + |items|, b) && EndMarked(start, items, b)
      && (NearStop(start + |items|, b) || NearStart(start, b))
  }

  /** No mark is seen that is not there, and that of the last leaf always is. */
  lemma MarkSeenIsMark<H>(start: nat, items: seq<Item<H>>)
    ensures MarkSeen(start, items) ==> exists k | 0 <= k < |items| :: FlagsOf(items[k].retention).marked
    ensures items != [] && FlagsOf(items[|items| - 1].retention).marked ==> MarkSeen(start, items)
  {
    if MarkSeen(start, items) {
      var b: Address :| Block(start, start + |items|, b) && EndMarked(start, items, b);
      assert FlagsOf(items[b.RangeEnd() - 1 - start].retention).marked;
    }
    if items != [] && FlagsOf(items[|items| - 1].retention).marked {
      var b := LastBlock(start, start + |items|, Address(0, start + |items| - 1));
      assert EndMarked(start, items, b);
    }
  }

  /** The block that ends with the batch. */
  lemma {:induction false} LastBlock(start: nat, stop: nat, from: Address) returns (b: Address)
    requires Within(start, stop, from) && from.RangeEnd() == stop
    ensures Block(start, stop, b) && b.RangeEnd() == stop
    decreases from.RangeStart()
  {
    if Within(start, stop, from.Parent()) {
      Halves(from.level + 1, from.index / 2);
      b := LastBlock(start, stop, from.Parent());
    } else {
      b := from;
    }
  }

  lemma {:induction false} TiledApart<H>(hs: Hashable<H>, leaves: seq<H>, start: nat, items: seq<Item<H>>,
                                         xs: seq<Fragment<H>>, upTo: nat, i: nat)
    requires Tiled(hs, leaves, start, items, xs, upTo) && i < |xs|
    ensures Within(start, upTo, xs[i].0.addr)
    ensures forall j | i < j < |xs| :: xs[i].0.addr.RangeEnd() <= xs[j].0.addr.RangeStart()
    ensures i + 1 < |xs| ==> xs[i].0.addr.RangeEnd() < upTo
    decreases |xs|
  {
    var top, rest := xs[|xs| - 1].0.addr, xs[..|xs| - 1];
    Width(top);
    if i < |rest| { TiledApart(hs, leaves, start, items, rest, top.RangeStart(), i); }
  }

  /** Nodes that share their last position are one within the other, by their levels. */
  lemma Nested(low: Address, high: Address, p: nat)
    requires low.level <= high.level && low.ContainsPosition(p) && high.ContainsPosition(p)
    ensures high.RangeStart() <= low.RangeStart() && low.RangeEnd() <= high.RangeEnd()
    ensures low.level == high.level ==> low == high
    ensures low.level < high.level ==>
      high.RangeStart() <= low.Parent().RangeStart() && low.Parent().RangeEnd() <= high.RangeEnd()
  {
    AboveUnique(low.level, p, low.index);
    AboveUnique(high.level, p, high.index);
    ClimbAbove(p, low.level, high.level);
    ContainsRange(high, low);
    if low.level < high.level { ContainsRange(high, low.Parent()); }
  }

  /** A node over leaves of the batch lies under one of the fragments. */
  lemma {:induction false} FragmentOver<H>(hs: Hashable<H>, leaves: seq<H>, start: nat, items: seq<Item<H>>,
                                           xs: seq<Fragment<H>>, upTo: nat, b: Address) returns (i: nat)
    requires Tiled(hs, leaves, start, items, xs, upTo) && Within(start, upTo, b)
    ensures i < |xs| && b.level <= xs[i].0.addr.level
      && xs[i].0.addr.RangeStart() <= b.RangeStart() && b.RangeEnd() <= xs[i].0.addr.RangeEnd()
    decreases |xs|, b.level
  {
    Width(b);
    var top, rest := xs[|xs| - 1].0.addr, xs[..|xs| - 1];
    if b.RangeEnd() <= top.RangeStart() {
      i := FragmentOver(hs, leaves, start, items, rest, top.RangeStart(), b);
    } else if b.level <= top.level {
      Nested(b, top, b.RangeEnd() - 1);
      i := |xs| - 1;
    } else {
      Nested(top, b, b.RangeEnd() - 1);
      Halves(top.level + 1, top.index / 2);
      i := FragmentOver(hs, leaves, start, items, rest, top.RangeStart(), top.Sibling());
      TiledApart(hs, leaves, start, items, rest, top.RangeStart(), i);
      FacingSides(rest[|rest| - 1].0.addr, top);
      assert false;
    }
  }

  /** The fragments are exactly the largest nodes over leaves of the batch. */
  lemma FragmentIsBlock<H>(hs: Hashable<H>, leaves: seq<H>, start: nat, items: seq<Item<H>>, xs: seq<Fragment<H>>,
                           upTo: nat, i: nat)
    requires Tiled(hs, leaves, start, items, xs, upTo) && i < |xs|
    ensures Block(start, upTo, xs[i].0.addr)
  {
    var b := xs[i].0.addr;
    TiledApart(hs, leaves, start, items, xs, upTo, i);
    if Within(start, upTo, b.Parent()) {
      var j := FragmentOver(hs, leaves, start, items, xs, upTo, b.Parent());
      TiledApart(hs, leaves, start, items, xs, upTo, j);
      Halves(b.level + 1, b.index / 2);
      assert false;
    }
  }

  lemma BlockIsFragment<H>(hs: Hashable<H>, leaves: seq<H>, start: nat, items: seq<Item<H>>, xs: seq<Fragment<H>>,
                           upTo: nat, b: Address) returns (i: nat)
    requires Tiled(hs, leaves, start, items, xs, upTo) && Block(start, upTo, b)
    ensures i < |xs| && xs[i].0.addr == b
  {
    i := FragmentOver(hs, leaves, start, items, xs, upTo, b);
    TiledApart(hs, leaves, start, items, xs, upTo, i);
    Width(b);
    Nested(b, xs[i].0.addr, b.RangeStart());
  }

  lemma SeenIff<H>(hs: Hashable<H>, leaves: seq<H>, start: nat, items: seq<Item<H>>, xs: seq<Fragment<H>>)
    requires Tiled(hs, leaves, start, items, xs, start + |items|) && Labelled(start, items, xs)
    ensures MarkSeen(start, items) <==> MarkedNearEnds(start, start + |items|, xs)
  {
    var stop := start + |items|;
    forall i | 0 <= i < |xs| ensures Block(start, stop, xs[i].0.addr) {
      FragmentIsBlock(hs, leaves, start, items, xs, stop, i);
    }
    if MarkSeen(start, items) {
      var b: Address :| Block(start, stop, b) && EndMarked(start, items, b)
        && (NearStop(stop, b) || NearStart(start, b));
      var i := BlockIsFragment(hs, leaves, start, items, xs, stop, b);
      assert xs[i].1;
    }
  }

  /** Every fragment near the start and already gone is near the end as well. */
  lemma WholeFlag<H>(start: nat, stop: nat, fragments: seq<Fragment<H>>, xs: seq<Fragment<H>>, marked: bool)
    requires RightFlagDone(stop, fragments, xs, marked)
    ensures marked || MarkedNearStart(start, xs, |xs|) <==> MarkedNearEnds(start, stop, fragments)
  {
    if MarkedNearStart(start, fragments, |fragments|) {
      var i :| 0 <= i < |fragments| && fragments[i].1 && NearStart(start, fragments[i].0.addr);
      if i < |xs| { assert xs[i] == fragments[i]; } else { assert NearStop(stop, fragments[i].0.addr); }
    }
    if MarkedNearStart(start, xs, |xs|) {
      var i :| 0 <= i < |xs| && xs[i].1 && NearStart(start, xs[i].0.addr);
      assert xs[i] == fragments[i];
    }
  }

  /** `build_minimal_tree`: one tree at the least node over the batch, with every empty node reported. */
  method BuildMinimalTree<H>(hs: Hashable<H>, ghost leaves: seq<H>, ghost start: nat, ghost items: seq<Item<H>>,
                             root: Address,
                             fragments: seq<Fragment<H>>, pruneBelow: nat)
    returns (tree: Located<H>, containsMarked: bool, incomplete: seq<IncompleteAt>)
    requires fragments != [] && Tiled(hs, leaves, start, items, fragments, start + |items|)
      && Spans(root, start, start + |items|) && CompactAll(pruneBelow, fragments)
    ensures tree.addr == root && Piece(hs, leaves, start, items, tree) && Reported(incomplete) == NilsOf(tree)
    ensures CompactNode(pruneBelow, tree)
    ensures containsMarked == MarkedNearEnds(start, start + |items|, fragments)
  {
    var xs, cur;
    xs, cur, containsMarked, incomplete := MergeFromRight(hs, leaves, start, items, root, fragments, pruneBelow);
    while cur.addr.level + 1 < root.level
      invariant RightPhase(hs, leaves, start, items, root, xs, cur, incomplete)
      invariant xs != [] ==> xs[|xs| - 1].0.addr.level < cur.addr.level
      invariant CompactAll(pruneBelow, xs) && CompactNode(pruneBelow, cur)
      decreases root.level - cur.addr.level
    {
      PadCompact(hs, cur, pruneBelow);
      LeftBelowRoot(hs, leaves, start, items, root, xs, cur, incomplete);
      PadRightPhase(hs, leaves, start, items, root, xs, cur, incomplete, containsMarked, pruneBelow);
      incomplete := incomplete + [IncompleteAt(cur.addr.Sibling(), containsMarked)];
      cur := PadWithEmpty(hs, cur, true, pruneBelow);
    }
    WholeOrBelow(hs, leaves, start, items, root, xs, cur, incomplete);
    WholeFlag(start, start + |items|, fragments, xs, containsMarked);
    if xs == [] { return cur, containsMarked, incomplete; }
    TiledStarts(hs, leaves, start, items, xs, cur.addr.RangeStart());
    JustBelowRoot(root, cur.addr, start);
    tree, containsMarked, incomplete :=
      FoldFromLeft(hs, leaves, start, items, xs, cur, containsMarked, incomplete, pruneBelow);
  }

  // ---------- From the values ----------

  predicate Carries<H>(item: Item<H>, id: int)
  {
    item.retention.CheckpointAt? && item.retention.id == id
  }

  /** The item is the last one that carries the identifier. */
  ghost predicate LastCarrier<H>(items: seq<Item<H>>, id: int, k: nat)
  {
    k < |items| && Carries(items[k], id) && forall j | k < j < |items| :: !Carries(items[j], id)
  }

  /** The checkpoints of a batch: exactly the identifiers that some item carries, each at the position of the
      last item that carries it. */
  ghost predicate LastPositions<H>(start: nat, items: seq<Item<H>>, checkpoints: map<int, nat>)
  {
    && (forall id :: id in checkpoints <==> exists k :: 0 <= k < |items| && Carries(items[k], id))
    && (forall id, k: nat | LastCarrier(items, id, k) :: id in checkpoints && checkpoints[id] == start + k)
  }

  lemma NoPositions<H>(start: nat, items: seq<Item<H>>)
    requires items == []
    ensures LastPositions(start, items, map[])
  {
  }

  lemma NextPosition<H>(start: nat, items: seq<Item<H>>, i: nat, before: map<int, nat>)
    requires i < |items| && LastPositions(start, items[..i], before)
    ensures LastPositions(start, items[..i + 1], WithCheckpoint(before, items[i].retention, start + i))
  {
    var now, retention := items[..i + 1], items[i].retention;
    var after := if retention.CheckpointAt? then before[retention.id := start + i] else before;
    forall id ensures id in after <==> exists k :: 0 <= k < |now| && Carries(now[k], id) {
      if id in before {
        var k :| 0 <= k < i && Carries(items[..i][k], id);
        assert Carries(now[k], id);
      }
      if Carries(now[i], id) { assert id in after; }
      if k :| 0 <= k < |now| && Carries(now[k], id) { if k < i { assert Carries(items[..i][k], id); } }
    }
    forall id, k: nat | LastCarrier(now, id, k) ensures id in after && after[id] == start + k {
      if k < i {
        assert !Carries(now[i], id);
        forall j | k < j < i ensures !Carries(items[..i][j], id) { assert !Carries(now[j], id); }
        assert LastCarrier(items[..i], id, k);
      }
    }
  }

  datatype BatchResult<H> = BatchResult(subtree: Located<H>, containsMarked: bool, incomplete: seq<IncompleteAt>,
                                        maxInsertPosition: nat, checkpoints: map<int, nat>, remainder: seq<Item<H>>)

  /** The values that fit between two positions. */
  function Fitting<H>(start: nat, end: nat, values: seq<Item<H>>): seq<Item<H>>
  {
    if start >= end then [] else Take(values, end - start)
  }

  lemma SpansBatch(start: nat, last: nat)
    requires start <= last
    ensures Spans(CommonAncestor(Address(0, start), Address(0, last)), start, last + 1)
  {
    var root := CommonAncestor(Address(0, start), Address(0, last));
    CommonAncestorLeast(Address(0, start), Address(0, last), root);
    ContainsLeaf(root, start);
    ContainsLeaf(root, last);
    forall c: Address | c.ContainsPosition(start) && c.ContainsPosition(last + 1 - 1) ensures root.level <= c.level {
      ContainsLeaf(c, start);
      ContainsLeaf(c, last);
      CommonAncestorLeast(Address(0, start), Address(0, last), c);
    }
  }

  /** The loop of `from_iter`: turns the values that fit into fragments. */
  method ConsumeValues<H>(hs: Hashable<H>, ghost leaves: seq<H>, start: nat, end: nat, pruneBelow: nat,
                          values: seq<Item<H>>)
    returns (fragments: seq<Fragment<H>>, checkpoints: map<int, nat>, count: nat)
    requires Fills(leaves, start, Fitting(start, end, values))
    ensures count <= |values| && values[..count] == Fitting(start, end, values)
    ensures Tiled(hs, leaves, start, Fitting(start, end, values), fragments, start + count)
      && (count > 0 ==> fragments != []) && Labelled(start, Fitting(start, end, values), fragments)
      && CompactAll(pruneBelow, fragments)
    ensures LastPositions(start, Fitting(start, end, values), checkpoints)
  {
    hide Piece, NilsOf, Tiled, Labelled, FlagsOf, LastPositions;
    ghost var items := Fitting(start, end, values);
    fragments, checkpoints, count := [], map[], 0;
    NoFragments(hs, leaves, start, items);
    NoPositions(start, items[..0]);
    while start + count < end && count < |values|
      invariant 0 <= count <= |items|
      invariant Tiled(hs, leaves, start, items, fragments, start + count) && (count > 0 ==> fragments != [])
      invariant Labelled(start, items, fragments) && CompactAll(pruneBelow, fragments)
      invariant LastPositions(start, items[..count], checkpoints)
    {
      var item := values[count];
      NextPosition(start, items, count, checkpoints);
      if item.retention.CheckpointAt? { checkpoints := checkpoints[item.retention.id := start + count]; }
      fragments := PushLeaf(hs, leaves, start, items, fragments, start + count, item, pruneBelow);
      count := count + 1;
    }
    assert items[..count] == items;
  }

  /** `from_iter`: the tree over the values that fit, rooted at the least common ancestor of the first and
      the last position. No assertion in it fails; its leaves and flags are exactly those given, and the
      reported incomplete nodes are exactly its empty nodes. */
  method FromIter<H>(hs: Hashable<H>, ghost leaves: seq<H>, start: nat, end: nat, pruneBelow: nat, values: seq<Item<H>>)
    returns (r: Option<BatchResult<H>>)
    requires Fills(leaves, start, Fitting(start, end, values))
    ensures r.None? <==> Fitting(start, end, values) == []
    ensures r.Some? ==>
      var items := Fitting(start, end, values);
      && r.value.subtree.addr == CommonAncestor(Address(0, start), Address(0, start + |items| - 1))
      && Piece(hs, leaves, start, items, r.value.subtree) && CompactNode(pruneBelow, r.value.subtree)
      && Reported(r.value.incomplete) == NilsOf(r.value.subtree)
      && r.value.containsMarked == MarkSeen(start, items)
      && r.value.maxInsertPosition == start + |items| - 1
      && LastPositions(start, items, r.value.checkpoints)
      && values == items + r.value.remainder
      && (r.value.remainder == [] || r.value.maxInsertPosition + 1 == end)
  {
    hide Piece, NilsOf, Tiled, LastPositions, MarkSeen, CommonAncestor;
    ghost var items := Fitting(start, end, values);
    var fragments, checkpoints, count := ConsumeValues(hs, leaves, start, end, pruneBelow, values);
    if count == 0 { return None; }
    SpansBatch(start, start + count - 1);
    SeenIff(hs, leaves, start, items, fragments);
    var tree, marked, incomplete :=
      BuildMinimalTree(hs, leaves, start, items, CommonAncestor(Address(0, start), Address(0, start + count - 1)),
                       fragments, pruneBelow);
    r := Some(BatchResult(tree, marked, incomplete, start + count - 1, checkpoints, values[count..]));
  }

  /** The run in which the flag is wrong: of two leaves under one node the first is marked, and the result is
      said to hold no marked leaf. */
  method FlagMissesMark<H>(hs: Hashable<H>, a: H, b: H) returns (r: Option<BatchResult<H>>)
    ensures r.Some? && !r.value.containsMarked
    ensures var node := r.value.subtree;
            node.addr == Address(1, 0) && Fits(1, node.root) && FlagAt(1, 0, node.root, 0).marked
  {
    var values := [Item(a, Marked), Item(b, Ephemeral)];
    r := FromIter(hs, [a, b], 0, 2, 1, values);
    assert Fitting(0, 2, values) == values;
    OneBlock(values);
    CommonAncestorLeast(Address(0, 0), Address(0, 1), Address(1, 0));
  }

  lemma FirstLeaf(b: Address)
    requires b.RangeEnd() == 1
    ensures b == Address(0, 0)
  {
    Width(b);
  }

  lemma PairBlock(b: Address)
    requires Block(0, 2, b)
    ensures b.RangeEnd() == 2
  {
    Width(b);
    if b.RangeEnd() == 1 { FirstLeaf(b); }
  }

  lemma OneBlock<H>(items: seq<Item<H>>)
    requires |items| == 2 && !FlagsOf(items[1].retention).marked
    ensures !MarkSeen(0, items)
  {
    forall b: Address | Block(0, 2, b) ensures !EndMarked(0, items, b) {
      PairBlock(b);
    }
  }

  // ---------- Inserting a batch ----------

  /** The tree over a batch belongs under every node that holds the whole batch. */
  lemma BatchWithin(root: Address, addr: Address, start: nat, last: nat)
    requires start <= last && root == CommonAncestor(Address(0, start), Address(0, last))
    requires addr.ContainsPosition(start) && addr.ContainsPosition(last)
    ensures addr.Contains(root)
  {
    ContainsLeaf(addr, start);
    ContainsLeaf(addr, last);
    CommonAncestorLeast(Address(0, start), Address(0, last), addr);
    ClimbOnwards(Address(0, start), root.level, addr.level);
  }

  /** Every leaf of the batch is under a leaf of its tree, a marked one at level 0. */
  lemma {:induction false} HeldLeaves<H>(level: nat, index: nat, from: nat, to: nat, t: Tree<H>, p: nat)
    requires Holds(level, index, from, to, t) && Fits(level, t)
    requires from <= p < to && Start(level, index) <= p < End(level, index)
    ensures Given(level, index, t, p)
    ensures FlagAt(level, index, t, p).marked ==> EndLevel(level, index, t, p) == 0
    decreases t
  {
    if t.Parent? {
      Halves(level, index);
      if p < End(level - 1, 2 * index) { HeldLeaves(level - 1, 2 * index, from, to, t.left, p); }
      else { HeldLeaves(level - 1, 2 * index + 1, from, to, t.right, p); }
    }
  }

  /** The tree over a batch covers all of its positions, and is not empty. */
  lemma BatchPositions<H>(hs: Hashable<H>, leaves: seq<H>, start: nat, items: seq<Item<H>>, tree: Located<H>)
    requires items != [] && Piece(hs, leaves, start, items, tree)
    requires tree.addr == CommonAncestor(Address(0, start), Address(0, start + |items| - 1))
    ensures forall p | start <= p < start + |items| :: tree.addr.ContainsPosition(p)
    ensures !tree.root.Nil?
  {
    var last := start + |items| - 1;
    CommonAncestorLeast(Address(0, start), Address(0, last), tree.addr);
    ContainsLeaf(tree.addr, start);
    ContainsLeaf(tree.addr, last);
    HeldLeaves(tree.addr.level, tree.addr.index, start, start + |items|, tree.root, start);
  }

  /** What became of a leaf of the batch: it is there with its flags (the reference flag may go), unless the tree
      reached further down at its position than the batch's own pruned tree; marked leaves always are. */
  ghost predicate Landed<H>(shard: Located<H>, batch: Located<H>, after: Tree<H>, p: nat, flags: Flags)
    requires Fits(shard.addr.level, shard.root) && Fits(batch.addr.level, batch.root) && Fits(shard.addr.level, after)
  {
    var was, now := EndLevel(shard.addr.level, shard.addr.index, shard.root, p),
      FlagAt(shard.addr.level, shard.addr.index, after, p);
    && (was >= EndLevel(batch.addr.level, batch.addr.index, batch.root, p) || flags.marked ==>
          Includes(now, flags.Minus(REFERENCE)) && Given(shard.addr.level, shard.addr.index, after, p))
    && now == InsertedFlags(shard.addr.level, shard.addr.index, shard.root, batch, p)
  }

  lemma BatchLands<H>(hs: Hashable<H>, leaves: seq<H>, start: nat, items: seq<Item<H>>, shard: Located<H>,
                      batch: Located<H>, marked: bool, p: nat)
    requires Fits(shard.addr.level, shard.root) && Piece(hs, leaves, start, items, batch) && !batch.root.Nil?
    requires shard.addr.Contains(batch.addr) && batch.addr.ContainsPosition(p) && start <= p < start + |items|
    ensures var r := Insert(hs, shard.addr.level, shard.addr.index, shard.root, batch, marked);
            r.Ok? ==>
              && Fits(shard.addr.level, r.value.0)
              && Landed(shard, batch, r.value.0, p, FlagsOf(items[p - start].retention))
  {
    hide Insert, FlagsOf;
    ContainsRange(shard.addr, batch.addr);
    HeldLeaves(batch.addr.level, batch.addr.index, start, start + |items|, batch.root, p);
    InsertExact(hs, shard.addr.level, shard.addr.index, shard.root, batch, marked, p);
  }

  /** `batch_insert`: into a tree that is a view of the same leaves it never conflicts, and gives a view of
      those leaves: the one that results from inserting the tree over the batch, `batch`. The empty nodes of
      that tree are reported, and then those the insertion adds. */
  method BatchInsert<H(==)>(hs: Hashable<H>, ghost leaves: seq<H>, shard: Located<H>, start: nat, values: seq<Item<H>>)
    returns (r: Result<Option<BatchResult<H>>, InsertionError>, ghost batch: Located<H>)
    requires Fits(shard.addr.level, shard.root)
      && Consistent(hs, leaves, shard.addr.level, shard.addr.index, shard.root)
    requires Fills(leaves, start, Fitting(start, shard.addr.RangeEnd(), values))
    ensures !shard.addr.ContainsPosition(start) <==> r == Err(OutOfRange(start))
    ensures shard.addr.ContainsPosition(start) ==> r.Ok? && (r.value.None? <==> values == [])
    ensures r.Ok? && r.value.Some? ==>
      var items := Fitting(start, shard.addr.RangeEnd(), values);
      var result := r.value.value;
      && result.subtree.addr == shard.addr
        && Consistent(hs, leaves, shard.addr.level, shard.addr.index, result.subtree.root)
      && (shard.root.HasComputableRoot() ==> result.subtree.root.HasComputableRoot())
      && result.maxInsertPosition == start + |items| - 1 && LastPositions(start, items, result.checkpoints)
      && values == items + result.remainder
      && (result.remainder == [] || result.maxInsertPosition + 1 == shard.addr.RangeEnd())
      && result.containsMarked == MarkSeen(start, items)
      && Piece(hs, leaves, start, items, batch)
      && batch.addr == CommonAncestor(Address(0, start), Address(0, start + |items| - 1))
    ensures r.Ok? && r.value.Some? ==>
      var result := r.value.value;
      && Fits(shard.addr.level, shard.root) && Fits(batch.addr.level, batch.root)
      && var inserted := InsertSubtree(hs, shard, batch, result.containsMarked);
         && inserted.Ok? && inserted.value.0 == result.subtree
         && Reported(result.incomplete) == NilsOf(batch) + Reported(inserted.value.1)
         && Fits(shard.addr.level, result.subtree.root)
         && ReportsAdded(shard.addr.level, shard.addr.index, shard.root, batch.addr, result.containsMarked,
                         result.subtree.root, inserted.value.1)
    ensures r.Ok? && r.value.Some? ==>
      var items := Fitting(start, shard.addr.RangeEnd(), values);
      forall k | 0 <= k < |items| ::
        Landed(shard, batch, r.value.value.subtree.root, start + k, FlagsOf(items[k].retention))
    ensures r.Ok? && r.value.Some? && |values| == 1 ==>
      var flags := FlagsOf(values[0].retention);
      && Fits(shard.addr.level, shard.root)
      && var direct := InsertSubtree(hs, shard, Located(Address(0, start), Leaf(values[0].value, flags)), flags.marked);
         direct.Ok? && direct.value.0 == r.value.value.subtree
  {
    hide FlagsIn, Holds, Reported, NilsOf, MarkSeen, Fills, LastPositions, Root, CommonAncestor, Merge, Unite, Insert,
      Landed, ReportsAdded;
    batch := shard;
    if !shard.addr.ContainsPosition(start) { return Err(OutOfRange(start)), batch; }
    var built := FromIter(hs, leaves, start, shard.addr.RangeEnd(), shard.addr.level, values);
    if built.None? { return Ok(None), batch; }
    ghost var items := Fitting(start, shard.addr.RangeEnd(), values);
    BatchWithin(built.value.subtree.addr, shard.addr, start, start + |items| - 1);
    var tree := built.value.subtree;
    batch := tree;
    InsertSucceeds(hs, leaves, shard.addr.level, shard.addr.index, shard.root, tree, built.value.containsMarked);
    InsertReports(hs, shard.addr.level, shard.addr.index, shard.root, tree, built.value.containsMarked);
    BatchPositions(hs, leaves, start, items, tree);
    forall k | 0 <= k < |items|
      ensures var after := Insert(hs, shard.addr.level, shard.addr.index, shard.root, tree, built.value.containsMarked);
              Landed(shard, tree, after.value.0, start + k, FlagsOf(items[k].retention))
    {
      BatchLands(hs, leaves, start, items, shard, tree, built.value.containsMarked, start + k);
    }
    if |values| == 1 { SingleLeaf(hs, leaves, start, items, tree); }
    InsertIgnoresMark(hs, shard.addr.level, shard.addr.index, shard.root, tree, built.value.containsMarked,
                      |values| == 1 && FlagsOf(values[0].retention).marked);
    var inserted := InsertSubtree(hs, shard, tree, built.value.containsMarked);
    ReportBoth(built.value.incomplete, inserted.value.1);
    r := Ok(Some(built.value.(subtree := inserted.value.0, incomplete := built.value.incomplete + inserted.value.1)));
  }

  /** A batch of one is its leaf. */
  lemma SingleLeaf<H>(hs: Hashable<H>, leaves: seq<H>, start: nat, items: seq<Item<H>>, tree: Located<H>)
    requires |items| == 1 && Fills(leaves, start, items) && Piece(hs, leaves, start, items, tree)
    requires tree.addr == CommonAncestor(Address(0, start), Address(0, start))
    ensures tree == Located(Address(0, start), Leaf(items[0].value, FlagsOf(items[0].retention)))
  {
    XorZero(start, start);
    assert tree.addr == Address(0, start) && tree.addr.ContainsPosition(start);
    assert leaves[start + 0] == items[0].value;
  }

  /** The mark passed along with an insertion only matters for the reported nodes. */
  lemma {:induction false} InsertIgnoresMark<H>(hs: Hashable<H>, level: nat, index: nat, into: Tree<H>,
                                                subtree: Located<H>, a: bool, b: bool)
    requires Fits(level, into) && Fits(subtree.addr.level, subtree.root) && Address(level, index).Contains(subtree.addr)
    ensures var x, y := Insert(hs, level, index, into, subtree, a), Insert(hs, level, index, into, subtree, b);
            if x.Ok? then y.Ok? && x.value.0 == y.value.0 else x == y
    decreases into
  {
    if into.Parent? && Address(level, index) != subtree.addr {
      ChildContains(Address(level, index), subtree.addr);
      if Address(level - 1, 2 * index).Contains(subtree.addr) {
        InsertIgnoresMark(hs, level - 1, 2 * index, into.left, subtree, a, b);
      }
      else { InsertIgnoresMark(hs, level - 1, 2 * index + 1, into.right, subtree, a, b); }
    }
  }
}
