/** `shardtree/src/prunable.rs`, second part: which leaves keep which flags, clearing flags, and
    witnesses; and why pruning does not destroy what a checkpoint or a mark still needs. */
module Pruning {

  import opened Basics
  import opened Merkle
  import opened PrunableTrees

  // ---------- Flags by position ----------

  /** The flags of the leaf whose last position is `p`, or none if no leaf ends there. */
  function FlagAt<H>(level: nat, index: nat, t: Tree<H>, p: nat): Flags
    requires Fits(level, t)
    decreases t
  {
    match t
    case Nil => EPHEMERAL
    case Leaf(_, flags) => if p + 1 == End(level, index) then flags else EPHEMERAL
    case Parent(_, left, right) =>
      if p < End(level - 1, 2 * index) then FlagAt(level - 1, 2 * index, left, p)
      else FlagAt(level - 1, 2 * index + 1, right, p)
  }

  /** Uniting, even when it prunes, changes no flag. */
  lemma UniteFlags<H>(hs: Hashable<H>, level: nat, index: nat, ann: Option<H>, left: Tree<H>, right: Tree<H>, p: nat)
    requires level > 0 && Fits(level - 1, left) && Fits(level - 1, right)
    ensures Fits(level, Unite(hs, level - 1, ann, left, right))
    ensures FlagAt(level, index, Unite(hs, level - 1, ann, left, right), p) ==
      FlagAt(level, index, Parent(ann, left, right), p)
  {
    Halves(level, index);
  }

  /** A truncation point that does not cut into a leaf: outside the range, or just after a flagged leaf. */
  ghost predicate Boundary<H>(level: nat, index: nat, t: Tree<H>, cut: nat)
    requires Fits(level, t)
  {
    cut <= Start(level, index) || cut >= End(level, index) || FlagAt(level, index, t, cut - 1) != EPHEMERAL
  }

  /** The same value, or a failure on both sides: the same failure if they are to agree exactly. */
  ghost predicate SameAnswer<T, E>(exact: bool, a: Result<T, E>, b: Result<T, E>)
  {
    (a.Ok? <==> b.Ok?) && (a.Ok? || exact ==> a == b)
  }

  /** No parent stands for nothing at all. Uniting such a parent's children would make it disappear, and its own
      address would be reported missing instead of theirs. */
  ghost predicate Proper<H>(t: Tree<H>)
  {
    t.Parent? ==> !(t.ann.None? && t.left.Nil? && t.right.Nil?) && Proper(t.left) && Proper(t.right)
  }

  /** Uniting keeps the answer at every such truncation point. */
  lemma UniteKeepsRoot<H>(hs: Hashable<H>, leaves: seq<H>, level: nat, index: nat, ann: Option<H>, left: Tree<H>,
                          right: Tree<H>, cut: nat)
    requires level > 0 && Consistent(hs, leaves, level, index, Parent(ann, left, right))
    ensures Fits(level, Parent(ann, left, right)) && Fits(level, Unite(hs, level - 1, ann, left, right))
    ensures Boundary(level, index, Unite(hs, level - 1, ann, left, right), cut) ==>
      SameAnswer(!(ann.None? && left.Nil? && right.Nil?),
                 RootHash(hs, level, index, Unite(hs, level - 1, ann, left, right), cut),
                 RootHash(hs, level, index, Parent(ann, left, right), cut))
  {
    ConsistentFits(hs, leaves, level, index, Parent(ann, left, right));
    UniteFits(hs, level, ann, left, right);
    Halves(level, index);
    if Prunes(left, right) {
      assert Root(hs, leaves, level, index) == hs.combine(level - 1, left.value, right.value);
    }
  }

  // ---------- Clearing flags ----------

  /** The entries of a sorted list with smaller positions than the bound. */
  function PartitionPoint(toClear: seq<(nat, Flags)>, bound: nat): (k: nat)
    ensures k <= |toClear|
    ensures forall i | 0 <= i < k :: toClear[i].0 < bound
    ensures k < |toClear| ==> toClear[k].0 >= bound
  {
    if toClear == [] || toClear[0].0 >= bound then 0 else 1 + PartitionPoint(toClear[1..], bound)
  }

  /** `clear_flags`; `None` stands for its "tree state inconsistent" panic. */
  function ClearFlags<H>(hs: Hashable<H>, level: nat, index: nat, toClear: seq<(nat, Flags)>, t: Tree<H>)
      : Option<Tree<H>>
    requires Fits(level, t)
    decreases t
  {
    if toClear == [] then Some(t)
    else
      match t
      case Nil => Some(Nil)
      case Leaf(value, flags) => if |toClear| == 1 then Some(Leaf(value, flags.Minus(toClear[0].1))) else None
      case Parent(ann, left, right) =>
        var k := PartitionPoint(toClear, End(level - 1, 2 * index));
        var l := ClearFlags(hs, level - 1, 2 * index, toClear[..k], left);
        var r := ClearFlags(hs, level - 1, 2 * index + 1, toClear[k..], right);
        if l.Some? && r.Some? then Some(Unite(hs, level - 1, ann, l.value, r.value)) else None
  }

  /** What a `BTreeMap` of positions within a range is. */
  ghost predicate SortedWithin(toClear: seq<(nat, Flags)>, from: nat, to: nat)
  {
    && (forall i | 0 <= i < |toClear| :: from <= toClear[i].0 < to)
    && (forall i, j | 0 <= i < j < |toClear| :: toClear[i].0 < toClear[j].0)
  }

  /** The flags to clear at a position. */
  function ClearedAt(toClear: seq<(nat, Flags)>, p: nat): Flags
  {
    if toClear == [] then EPHEMERAL else if toClear[0].0 == p then toClear[0].1 else ClearedAt(toClear[1..], p)
  }

  lemma {:induction false} ClearedAtAbsent(toClear: seq<(nat, Flags)>, p: nat)
    requires forall i | 0 <= i < |toClear| :: toClear[i].0 != p
    ensures ClearedAt(toClear, p) == EPHEMERAL
  {
    if toClear != [] { ClearedAtAbsent(toClear[1..], p); }
  }

  lemma {:induction false} ClearedAtSplit(toClear: seq<(nat, Flags)>, k: nat, p: nat)
    requires k <= |toClear|
    ensures (forall i | k <= i < |toClear| :: toClear[i].0 != p) ==> ClearedAt(toClear, p) == ClearedAt(toClear[..k], p)
    ensures (forall i | 0 <= i < k :: toClear[i].0 != p) ==> ClearedAt(toClear, p) == ClearedAt(toClear[k..], p)
    decreases |toClear|
  {
    if k == 0 {
      assert toClear[..0] == [] && toClear[0..] == toClear;
      if forall i | k <= i < |toClear| :: toClear[i].0 != p { ClearedAtAbsent(toClear, p); }
    } else {
      ClearedAtSplit(toClear[1..], k - 1, p);
      assert toClear[1..][..k - 1] == toClear[..k][1..] && toClear[1..][k - 1..] == toClear[k..];
      assert forall i | k <= i < |toClear| :: toClear[i] == toClear[1..][i - 1];
    }
  }

  /** The two halves of a list to clear, and what they say about a position. */
  lemma SplitToClear(level: nat, index: nat, toClear: seq<(nat, Flags)>, p: nat)
    requires level > 0 && SortedWithin(toClear, Start(level, index), End(level, index))
    ensures var mid := End(level - 1, 2 * index);
            var k := PartitionPoint(toClear, mid);
            && SortedWithin(toClear[..k], Start(level - 1, 2 * index), mid)
            && SortedWithin(toClear[k..], mid, End(level - 1, 2 * index + 1))
            && ClearedAt(toClear, p) == if p < mid then ClearedAt(toClear[..k], p) else ClearedAt(toClear[k..], p)
  {
    Halves(level, index);
    var mid := End(level - 1, 2 * index);
    var k := PartitionPoint(toClear, mid);
    assert forall i | k <= i < |toClear| :: toClear[i].0 >= mid;
    ClearedAtSplit(toClear, k, p);
  }

  /** Clearing keeps a view a view, whatever is cleared. */
  lemma {:induction false} ClearConsistent<H>(hs: Hashable<H>, leaves: seq<H>, level: nat, index: nat,
                                              toClear: seq<(nat, Flags)>, t: Tree<H>)
    requires Consistent(hs, leaves, level, index, t)
    ensures Fits(level, t)
    ensures var r := ClearFlags(hs, level, index, toClear, t); r.Some? ==> Consistent(hs, leaves, level, index, r.value)
    decreases t
  {
    ConsistentFits(hs, leaves, level, index, t);
    if toClear != [] && t.Parent? {
      var k := PartitionPoint(toClear, End(level - 1, 2 * index));
      ClearConsistent(hs, leaves, level - 1, 2 * index, toClear[..k], t.left);
      ClearConsistent(hs, leaves, level - 1, 2 * index + 1, toClear[k..], t.right);
      var l := ClearFlags(hs, level - 1, 2 * index, toClear[..k], t.left);
      var r := ClearFlags(hs, level - 1, 2 * index + 1, toClear[k..], t.right);
      if l.Some? && r.Some? { UniteConsistent(hs, leaves, level, index, t.ann, l.value, r.value); }
    }
  }

  lemma {:induction false} ClearFits<H>(hs: Hashable<H>, level: nat, index: nat, toClear: seq<(nat, Flags)>, t: Tree<H>)
    requires Fits(level, t)
    ensures var r := ClearFlags(hs, level, index, toClear, t);
            r.Some? ==> Fits(level, r.value) && MaxPosition(level, index, r.value) == MaxPosition(level, index, t)
    decreases t
  {
    if toClear != [] && t.Parent? {
      var k := PartitionPoint(toClear, End(level - 1, 2 * index));
      ClearFits(hs, level - 1, 2 * index, toClear[..k], t.left);
      ClearFits(hs, level - 1, 2 * index + 1, toClear[k..], t.right);
      var l := ClearFlags(hs, level - 1, 2 * index, toClear[..k], t.left);
      var r := ClearFlags(hs, level - 1, 2 * index + 1, toClear[k..], t.right);
      if l.Some? && r.Some? { UniteMaxPosition(hs, level, index, t.ann, l.value, r.value); }
    }
  }

  /** Every entry names a position whose leaf still carries a flag. */
  ghost predicate AllFlagged<H>(level: nat, index: nat, toClear: seq<(nat, Flags)>, t: Tree<H>)
    requires Fits(level, t)
  {
    forall i | 0 <= i < |toClear| :: FlagAt(level, index, t, toClear[i].0) != EPHEMERAL
  }

  lemma SplitFlagged<H>(level: nat, index: nat, toClear: seq<(nat, Flags)>, t: Tree<H>)
    requires Fits(level, t) && t.Parent? && SortedWithin(toClear, Start(level, index), End(level, index))
    requires AllFlagged(level, index, toClear, t)
    ensures var k := PartitionPoint(toClear, End(level - 1, 2 * index));
            AllFlagged(level - 1, 2 * index, toClear[..k], t.left)
              && AllFlagged(level - 1, 2 * index + 1, toClear[k..], t.right)
  {
    SplitToClear(level, index, toClear, 0);
    var k := PartitionPoint(toClear, End(level - 1, 2 * index));
    var low, high := toClear[..k], toClear[k..];
    forall i | 0 <= i < |low| ensures FlagAt(level - 1, 2 * index, t.left, low[i].0) != EPHEMERAL {
      assert FlagAt(level, index, t, toClear[i].0) != EPHEMERAL;
    }
    forall i | 0 <= i < |high| ensures FlagAt(level - 1, 2 * index + 1, t.right, high[i].0) != EPHEMERAL {
      assert FlagAt(level, index, t, toClear[k + i].0) != EPHEMERAL;
    }
  }

  lemma TwoEntries(toClear: seq<(nat, Flags)>, from: nat, to: nat)
    requires SortedWithin(toClear, from, to)
    ensures |toClear| >= 2 ==> from + 1 < to
  {
    if |toClear| >= 2 { assert toClear[0].0 < toClear[1].0; }
  }

  lemma ClearLeaf<H>(hs: Hashable<H>, level: nat, index: nat, toClear: seq<(nat, Flags)>, t: Tree<H>, p: nat)
    requires t.Leaf? && toClear != [] && SortedWithin(toClear, Start(level, index), End(level, index))
    requires AllFlagged(level, index, toClear, t)
    ensures ClearFlags(hs, level, index, toClear, t).Some?
    ensures FlagAt(level, index, ClearFlags(hs, level, index, toClear, t).value, p) ==
      FlagAt(level, index, t, p).Minus(ClearedAt(toClear, p))
  {
    StartMono(level, index, index + 1);
    assert forall i | 0 <= i < |toClear| :: toClear[i].0 + 1 == End(level, index);
    TwoEntries(toClear, End(level, index) - 1, End(level, index));
  }

  /** Clearing only flagged positions never panics, and clears exactly what was asked. */
  lemma {:induction false} ClearExact<H>(hs: Hashable<H>, level: nat, index: nat, toClear: seq<(nat, Flags)>,
                                         t: Tree<H>, p: nat)
    requires Fits(level, t) && SortedWithin(toClear, Start(level, index), End(level, index))
    requires AllFlagged(level, index, toClear, t)
    ensures var r := ClearFlags(hs, level, index, toClear, t);
            && r.Some? && Fits(level, r.value)
            && (Start(level, index) <= p < End(level, index) ==>
                  FlagAt(level, index, r.value, p) == FlagAt(level, index, t, p).Minus(ClearedAt(toClear, p)))
    decreases t
  {
    if toClear != [] && t.Leaf? { ClearLeaf(hs, level, index, toClear, t, p); }
    if toClear != [] && t.Parent? {
      Halves(level, index);
      SplitToClear(level, index, toClear, p);
      var k := PartitionPoint(toClear, End(level - 1, 2 * index));
      SplitFlagged(level, index, toClear, t);
      var low, high := toClear[..k], toClear[k..];
      ClearExact(hs, level - 1, 2 * index, low, t.left, p);
      ClearExact(hs, level - 1, 2 * index + 1, high, t.right, p);
      UniteFlags(hs, level, index, t.ann, ClearFlags(hs, level - 1, 2 * index, low, t.left).value,
                 ClearFlags(hs, level - 1, 2 * index + 1, high, t.right).value, p);
    }
  }

  /** Whether the two positions are covered by one leaf of the tree. */
  predicate SameLeaf<H>(level: nat, index: nat, t: Tree<H>, p: nat, q: nat)
    requires Fits(level, t)
    decreases t
  {
    match t
    case Nil => false
    case Leaf(_, _) => true
    case Parent(_, left, right) =>
      var mid := End(level - 1, 2 * index);
      if p < mid && q < mid then SameLeaf(level - 1, 2 * index, left, p, q)
      else if p >= mid && q >= mid then SameLeaf(level - 1, 2 * index + 1, right, p, q)
      else false
  }

  ghost predicate ClashAt<H>(level: nat, index: nat, toClear: seq<(nat, Flags)>, t: Tree<H>, i: nat, j: nat)
    requires Fits(level, t)
  {
    i < j < |toClear| && SameLeaf(level, index, t, toClear[i].0, toClear[j].0)
  }

  /** Two entries fall on one leaf. */
  ghost predicate Clash<H>(level: nat, index: nat, toClear: seq<(nat, Flags)>, t: Tree<H>)
    requires Fits(level, t)
  {
    exists i, j :: ClashAt(level, index, toClear, t, i, j)
  }

  lemma ClashBelow<H>(level: nat, index: nat, toClear: seq<(nat, Flags)>, t: Tree<H>, i: nat, j: nat)
    requires Fits(level, t) && t.Parent? && SortedWithin(toClear, Start(level, index), End(level, index))
    ensures var k := PartitionPoint(toClear, End(level - 1, 2 * index));
            && (ClashAt(level - 1, 2 * index, toClear[..k], t.left, i, j) ==> ClashAt(level, index, toClear, t, i, j))
            && (ClashAt(level - 1, 2 * index + 1, toClear[k..], t.right, i, j) ==>
                ClashAt(level, index, toClear, t, k + i, k + j))
  {
    SplitToClear(level, index, toClear, 0);
  }

  lemma ClashAbove<H>(level: nat, index: nat, toClear: seq<(nat, Flags)>, t: Tree<H>, i: nat, j: nat)
    requires Fits(level, t) && t.Parent? && SortedWithin(toClear, Start(level, index), End(level, index))
    requires ClashAt(level, index, toClear, t, i, j)
    ensures var k := PartitionPoint(toClear, End(level - 1, 2 * index));
            if i < k then ClashAt(level - 1, 2 * index, toClear[..k], t.left, i, j)
            else ClashAt(level - 1, 2 * index + 1, toClear[k..], t.right, i - k, j - k)
  {
    var k := PartitionPoint(toClear, End(level - 1, 2 * index));
    assert toClear[i].0 < toClear[j].0;
    if i >= k { assert toClear[k].0 <= toClear[i].0; }
  }

  lemma SplitClash<H>(level: nat, index: nat, toClear: seq<(nat, Flags)>, t: Tree<H>)
    requires Fits(level, t) && t.Parent? && SortedWithin(toClear, Start(level, index), End(level, index))
    ensures var k := PartitionPoint(toClear, End(level - 1, 2 * index));
            Clash(level, index, toClear, t) <==>
              Clash(level - 1, 2 * index, toClear[..k], t.left)
                || Clash(level - 1, 2 * index + 1, toClear[k..], t.right)
  {
    var k := PartitionPoint(toClear, End(level - 1, 2 * index));
    if Clash(level - 1, 2 * index, toClear[..k], t.left) {
      var i, j :| ClashAt(level - 1, 2 * index, toClear[..k], t.left, i, j);
      ClashBelow(level, index, toClear, t, i, j);
    }
    if Clash(level - 1, 2 * index + 1, toClear[k..], t.right) {
      var i, j :| ClashAt(level - 1, 2 * index + 1, toClear[k..], t.right, i, j);
      ClashBelow(level, index, toClear, t, i, j);
    }
    if Clash(level, index, toClear, t) {
      var i, j :| ClashAt(level, index, toClear, t, i, j);
      ClashAbove(level, index, toClear, t, i, j);
    }
  }

  /** Exactly when `clear_flags` panics: when two entries fall on one leaf. */
  lemma {:induction false} ClearPanicsIff<H>(hs: Hashable<H>, level: nat, index: nat, toClear: seq<(nat, Flags)>,
                                             t: Tree<H>)
    requires Fits(level, t) && SortedWithin(toClear, Start(level, index), End(level, index))
    ensures ClearFlags(hs, level, index, toClear, t).None? <==> Clash(level, index, toClear, t)
    decreases t
  {
    if t.Leaf? && |toClear| > 1 { assert ClashAt(level, index, toClear, t, 0, 1); }
    if t.Parent? {
      SplitToClear(level, index, toClear, 0);
      SplitClash(level, index, toClear, t);
      var k := PartitionPoint(toClear, End(level - 1, 2 * index));
      ClearPanicsIff(hs, level - 1, 2 * index, toClear[..k], t.left);
      ClearPanicsIff(hs, level - 1, 2 * index + 1, toClear[k..], t.right);
    }
  }

  lemma BoundaryChildren<H>(level: nat, index: nat, t: Tree<H>, cut: nat)
    requires Fits(level, t) && t.Parent? && Boundary(level, index, t, cut)
    ensures Boundary(level - 1, 2 * index, t.left, cut) && Boundary(level - 1, 2 * index + 1, t.right, cut)
  {
    Halves(level, index);
  }

  lemma BoundaryUnited<H>(hs: Hashable<H>, level: nat, index: nat, ann: Option<H>, left: Tree<H>,
                          right: Tree<H>, cut: nat)
    requires level > 0 && Fits(level - 1, left) && Fits(level - 1, right)
    ensures Fits(level, Unite(hs, level - 1, ann, left, right))
    ensures Boundary(level, index, Unite(hs, level - 1, ann, left, right), cut) ==>
      Boundary(level - 1, 2 * index, left, cut) && Boundary(level - 1, 2 * index + 1, right, cut)
  {
    UniteFits(hs, level, ann, left, right);
    if cut > 0 { UniteFlags(hs, level, index, ann, left, right, cut - 1); }
    if Boundary(level, index, Unite(hs, level - 1, ann, left, right), cut) {
      BoundaryChildren(level, index, Parent(ann, left, right), cut);
    }
  }

  /** Clearing makes nothing disappear. */
  lemma {:induction false} ClearedNil<H>(hs: Hashable<H>, level: nat, index: nat, toClear: seq<(nat, Flags)>,
                                         t: Tree<H>)
    requires Fits(level, t) && Proper(t)
    ensures ClearFlags(hs, level, index, toClear, t) == Some(Nil) <==> t.Nil?
    decreases t
  {
    if t.Parent? && toClear != [] {
      var k := PartitionPoint(toClear, End(level - 1, 2 * index));
      ClearedNil(hs, level - 1, 2 * index, toClear[..k], t.left);
      ClearedNil(hs, level - 1, 2 * index + 1, toClear[k..], t.right);
    }
  }

  lemma RootHashOfChildren<H>(exact: bool, hs: Hashable<H>, level: nat, index: nat, t: Tree<H>, u: Tree<H>, cut: nat)
    requires Fits(level, t) && Fits(level, u) && t.Parent? && u.Parent? && t.ann == u.ann
    requires SameAnswer(exact, RootHash(hs, level - 1, 2 * index, t.left, cut),
                        RootHash(hs, level - 1, 2 * index, u.left, cut))
    requires SameAnswer(exact, RootHash(hs, level - 1, 2 * index + 1, t.right, cut),
                        RootHash(hs, level - 1, 2 * index + 1, u.right, cut))
    ensures SameAnswer(exact, RootHash(hs, level, index, t, cut), RootHash(hs, level, index, u, cut))
  {
  }

  /** A tree gives the other's root, at a truncation point after a leaf that it still flags. */
  ghost predicate RootKept<H>(exact: bool, hs: Hashable<H>, level: nat, index: nat, u: Tree<H>, t: Tree<H>, cut: nat)
    requires Fits(level, u) && Fits(level, t)
  {
    Boundary(level, index, u, cut) ==>
      SameAnswer(exact, RootHash(hs, level, index, u, cut), RootHash(hs, level, index, t, cut))
  }

  /** Uniting cleared children keeps the root that the children keep. */
  lemma UnitedKeepsRoot<H>(exact: bool, hs: Hashable<H>, leaves: seq<H>, level: nat, index: nat, t: Tree<H>, l: Tree<H>,
                           r: Tree<H>, cut: nat)
    requires Fits(level, t) && t.Parent? && Consistent(hs, leaves, level, index, Parent(t.ann, l, r))
    requires exact ==> !(t.ann.None? && l.Nil? && r.Nil?)
    requires Fits(level - 1, l) && RootKept(exact, hs, level - 1, 2 * index, l, t.left, cut)
    requires Fits(level - 1, r) && RootKept(exact, hs, level - 1, 2 * index + 1, r, t.right, cut)
    ensures Fits(level, Unite(hs, level - 1, t.ann, l, r))
    ensures RootKept(exact, hs, level, index, Unite(hs, level - 1, t.ann, l, r), t, cut)
  {
    UniteKeepsRoot(hs, leaves, level, index, t.ann, l, r, cut);
    BoundaryUnited(hs, level, index, t.ann, l, r, cut);
    if Boundary(level, index, Unite(hs, level - 1, t.ann, l, r), cut) {
      RootHashOfChildren(exact, hs, level, index, Parent(t.ann, l, r), t, cut);
    }
  }

  lemma ClearedChildren<H>(hs: Hashable<H>, leaves: seq<H>, level: nat, index: nat, toClear: seq<(nat, Flags)>,
                           t: Tree<H>)
    requires Consistent(hs, leaves, level, index, t) && t.Parent?
    ensures Fits(level - 1, t.left) && Fits(level - 1, t.right)
    ensures var k := PartitionPoint(toClear, End(level - 1, 2 * index));
            var l, r := ClearFlags(hs, level - 1, 2 * index, toClear[..k], t.left),
              ClearFlags(hs, level - 1, 2 * index + 1, toClear[k..], t.right);
            l.Some? && r.Some? ==>
              && Consistent(hs, leaves, level, index, Parent(t.ann, l.value, r.value))
              && (Proper(t) ==> !(t.ann.None? && l.value.Nil? && r.value.Nil?))
  {
    var k := PartitionPoint(toClear, End(level - 1, 2 * index));
    ConsistentFits(hs, leaves, level - 1, 2 * index, t.left);
    ConsistentFits(hs, leaves, level - 1, 2 * index + 1, t.right);
    ClearConsistent(hs, leaves, level - 1, 2 * index, toClear[..k], t.left);
    ClearConsistent(hs, leaves, level - 1, 2 * index + 1, toClear[k..], t.right);
    if Proper(t) {
      ClearedNil(hs, level - 1, 2 * index, toClear[..k], t.left);
      ClearedNil(hs, level - 1, 2 * index + 1, toClear[k..], t.right);
    }
  }

  /** Clearing changes no root at a truncation point after a leaf that is still flagged, and of a proper tree no
      report of missing nodes either. */
  lemma {:induction false} ClearKeepsRoot<H>(exact: bool, hs: Hashable<H>, leaves: seq<H>, level: nat, index: nat,
                                             toClear: seq<(nat, Flags)>,
                                             t: Tree<H>, cut: nat)
    requires Consistent(hs, leaves, level, index, t) && (exact ==> Proper(t))
    ensures Fits(level, t)
    ensures var r := ClearFlags(hs, level, index, toClear, t);
            r.Some? ==> Fits(level, r.value) && RootKept(exact, hs, level, index, r.value, t, cut)
    decreases t
  {
    ConsistentFits(hs, leaves, level, index, t);
    if toClear != [] && t.Parent? {
      var k := PartitionPoint(toClear, End(level - 1, 2 * index));
      ClearKeepsRoot(exact, hs, leaves, level - 1, 2 * index, toClear[..k], t.left, cut);
      ClearKeepsRoot(exact, hs, leaves, level - 1, 2 * index + 1, toClear[k..], t.right, cut);
      ClearedChildren(hs, leaves, level, index, toClear, t);
      var l := ClearFlags(hs, level - 1, 2 * index, toClear[..k], t.left);
      var r := ClearFlags(hs, level - 1, 2 * index + 1, toClear[k..], t.right);
      if l.Some? && r.Some? { UnitedKeepsRoot(exact, hs, leaves, level, index, t, l.value, r.value, cut); }
    }
  }

  // ---------- Witness ----------

  /** `LocatedPrunableTree::witness`, below its range check: the sibling hashes of a marked leaf within
      the tree at (level, index), truncated at a position. */
  function TreeWitness<H>(hs: Hashable<H>, level: nat, index: nat, t: Tree<H>, position: nat, truncateAt: nat)
      : Result<seq<H>, seq<Address>>
    requires Fits(level, t)
    decreases t
  {
    match t
    case Nil => Err([Address(level, index)])
    case Leaf(_, _) => Err([Address(level, index)])
    case Parent(_, left, right) =>
      var l, r := Address(level - 1, 2 * index), Address(level - 1, 2 * index + 1);
      if level > 1 then
        if position < r.RangeStart() then
          Accumulate(TreeWitness(hs, l.level, l.index, left, position, truncateAt),
                     RootHash(hs, r.level, r.index, right, truncateAt),
                     (path, sibling) => path + [sibling])
        else
          Accumulate(RootHash(hs, l.level, l.index, left, r.RangeStart()),
                     TreeWitness(hs, r.level, r.index, right, position, truncateAt),
                     (sibling, path) => path + [sibling])
      else if position % 2 == 1 then
        if right.IsMarkedLeaf() && left.Leaf? then Ok([left.value]) else Err([l])
      else if left.IsMarkedLeaf() then
        if truncateAt <= position + 1 then Ok([hs.emptyLeaf])
        else if right.Leaf? then Ok([right.value])
        else Err([r])
      else Err([r])
  }

  lemma PositionSide(level: nat, index: nat, position: nat)
    requires level > 0 && Start(level, index) <= position < End(level, index)
    ensures Start(level - 1, Above(level - 1, position)) <= position < End(level - 1, Above(level - 1, position))
    ensures Above(level - 1, position) ==
      if position < Start(level - 1, 2 * index + 1) then 2 * index else 2 * index + 1
    ensures Above(level - 1, position) / 2 == index
  {
    Halves(level, index);
    if position < Start(level - 1, 2 * index + 1) { AboveUnique(level - 1, position, 2 * index); }
    else { AboveUnique(level - 1, position, 2 * index + 1); }
  }

  /** The two leaves at the bottom of a path. */
  lemma PairWitnessSound<H>(hs: Hashable<H>, leaves: seq<H>, index: nat, t: Tree<H>, position: nat, truncateAt: nat)
    requires Consistent(hs, leaves, 1, index, t) && Fits(1, t) && t.Parent?
    requires Start(1, index) <= position < End(1, index) && position < truncateAt
    ensures var w := TreeWitness(hs, 1, index, t, position, truncateAt);
            w.Ok? ==> w.value == RefPath(hs, Take(leaves, truncateAt), position, 1)
  {
    var cut := Take(leaves, truncateAt);
    Halves(1, index);
    assert Above(0, position) == position;
    assert RefPath(hs, cut, position, 1) == [LeafAt(hs, cut, SiblingIndex(position))];
    assert Consistent(hs, leaves, 0, 2 * index, t.left) && Consistent(hs, leaves, 0, 2 * index + 1, t.right);
  }

  /** One level of a witness, from its part in a child and the root of the other child. */
  lemma WitnessStep<H>(hs: Hashable<H>, cut: seq<H>, level: nat, index: nat, position: nat, path: seq<H>, sibling: H)
    requires level > 0 && Start(level, index) <= position < End(level, index)
    requires path == RefPath(hs, cut, position, level - 1)
    requires sibling == Root(hs, cut, level - 1, if position < Start(level - 1, 2 * index + 1) then 2 * index + 1
                             else 2 * index)
    ensures path + [sibling] == RefPath(hs, cut, position, level)
  {
    PositionSide(level, index, position);
  }

  /** Every witness a consistent tree gives is right: the sibling hashes in the truncated full tree. */
  lemma {:induction false} TreeWitnessSound<H>(hs: Hashable<H>, leaves: seq<H>, level: nat, index: nat, t: Tree<H>,
                                               position: nat, truncateAt: nat)
    requires Consistent(hs, leaves, level, index, t)
    requires Start(level, index) <= position < End(level, index) && position < truncateAt
    ensures Fits(level, t)
    ensures var w := TreeWitness(hs, level, index, t, position, truncateAt);
            w.Ok? ==> w.value == RefPath(hs, Take(leaves, truncateAt), position, level)
    decreases t
  {
    ConsistentFits(hs, leaves, level, index, t);
    if t.Parent? {
      Halves(level, index);
      if level == 1 {
        PairWitnessSound(hs, leaves, index, t, position, truncateAt);
      } else {
        var l, r := Address(level - 1, 2 * index), Address(level - 1, 2 * index + 1);
        if position < r.RangeStart() {
          TreeWitnessSound(hs, leaves, l.level, l.index, t.left, position, truncateAt);
          RootHashSound(hs, leaves, r.level, r.index, t.right, truncateAt);
          var path, sibling := TreeWitness(hs, l.level, l.index, t.left, position, truncateAt),
            RootHash(hs, r.level, r.index, t.right, truncateAt);
          if path.Ok? && sibling.Ok? {
            WitnessStep(hs, Take(leaves, truncateAt), level, index, position, path.value, sibling.value);
          }
        } else {
          TreeWitnessSound(hs, leaves, r.level, r.index, t.right, position, truncateAt);
          LeftSiblingSound(hs, leaves, l.level, l.index, t.left, truncateAt);
          var path, sibling := TreeWitness(hs, r.level, r.index, t.right, position, truncateAt),
            RootHash(hs, l.level, l.index, t.left, r.RangeStart());
          if path.Ok? && sibling.Ok? {
            WitnessStep(hs, Take(leaves, truncateAt), level, index, position, path.value, sibling.value);
          }
        }
      }
    }
  }

  lemma LeftSiblingSound<H>(hs: Hashable<H>, leaves: seq<H>, level: nat, index: nat, t: Tree<H>, truncateAt: nat)
    requires Consistent(hs, leaves, level, index, t) && End(level, index) <= truncateAt
    ensures Fits(level, t)
    ensures var h := RootHash(hs, level, index, t, End(level, index));
            h.Ok? ==> h.value == Root(hs, Take(leaves, truncateAt), level, index)
  {
    RootHashSound(hs, leaves, level, index, t, End(level, index));
    RootPrefix(hs, leaves, End(level, index), level, index);
    RootPrefix(hs, leaves, truncateAt, level, index);
  }

  /** Where the leaf stays marked, clearing below a parent gives that parent with cleared children. */
  lemma ClearedParent<H>(hs: Hashable<H>, level: nat, index: nat, toClear: seq<(nat, Flags)>, t: Tree<H>,
                         position: nat, cut: nat)
    requires Fits(level, t) && t.Parent? && toClear != [] && ClearFlags(hs, level, index, toClear, t).Some?
    requires Fits(level, ClearFlags(hs, level, index, toClear, t).value)
    requires FlagAt(level, index, ClearFlags(hs, level, index, toClear, t).value, position).marked
    requires Boundary(level, index, ClearFlags(hs, level, index, toClear, t).value, cut)
    ensures var k := PartitionPoint(toClear, End(level - 1, 2 * index));
            var l := ClearFlags(hs, level - 1, 2 * index, toClear[..k], t.left);
            var r := ClearFlags(hs, level - 1, 2 * index + 1, toClear[k..], t.right);
            && l.Some? && r.Some? && Fits(level - 1, l.value) && Fits(level - 1, r.value)
            && ClearFlags(hs, level, index, toClear, t).value == Parent(t.ann, l.value, r.value)
            && Boundary(level - 1, 2 * index, l.value, cut) && Boundary(level - 1, 2 * index + 1, r.value, cut)
            && (if position < End(level - 1, 2 * index) then FlagAt(level - 1, 2 * index, l.value, position).marked
                else FlagAt(level - 1, 2 * index + 1, r.value, position).marked)
  {
    var k := PartitionPoint(toClear, End(level - 1, 2 * index));
    var l := ClearFlags(hs, level - 1, 2 * index, toClear[..k], t.left).value;
    var r := ClearFlags(hs, level - 1, 2 * index + 1, toClear[k..], t.right).value;
    ClearFits(hs, level - 1, 2 * index, toClear[..k], t.left);
    ClearFits(hs, level - 1, 2 * index + 1, toClear[k..], t.right);
    UniteFlags(hs, level, index, t.ann, l, r, position);
    BoundaryUnited(hs, level, index, t.ann, l, r, cut);
    MarkedNotPruned(level, index, t.ann, l, r, position);
  }

  /** The witness of a leaf depends only on its witness in one child and on the root of the other. */
  lemma WitnessOfChildren<H>(exact: bool, hs: Hashable<H>, level: nat, index: nat, t: Tree<H>, u: Tree<H>,
                             position: nat, cut: nat)
    requires level > 1 && Fits(level, t) && Fits(level, u) && t.Parent? && u.Parent?
    requires position < Start(level - 1, 2 * index + 1) ==>
      && SameAnswer(exact, TreeWitness(hs, level - 1, 2 * index, t.left, position, cut),
                    TreeWitness(hs, level - 1, 2 * index, u.left, position, cut))
      && SameAnswer(exact, RootHash(hs, level - 1, 2 * index + 1, t.right, cut),
                    RootHash(hs, level - 1, 2 * index + 1, u.right, cut))
    requires position >= Start(level - 1, 2 * index + 1) ==>
      && SameAnswer(exact, TreeWitness(hs, level - 1, 2 * index + 1, t.right, position, cut),
                    TreeWitness(hs, level - 1, 2 * index + 1, u.right, position, cut))
      && SameAnswer(exact, RootHash(hs, level - 1, 2 * index, t.left, Start(level - 1, 2 * index + 1)),
                    RootHash(hs, level - 1, 2 * index, u.left, Start(level - 1, 2 * index + 1)))
    ensures SameAnswer(exact, TreeWitness(hs, level, index, t, position, cut),
                       TreeWitness(hs, level, index, u, position, cut))
  {
  }

  /** A tree gives the other's witness of a leaf that it still marks, at such a truncation point. */
  ghost predicate WitnessKept<H>(exact: bool, hs: Hashable<H>, level: nat, index: nat, u: Tree<H>, t: Tree<H>,
                                 position: nat, cut: nat)
    requires Fits(level, u) && Fits(level, t)
  {
    FlagAt(level, index, u, position).marked && Boundary(level, index, u, cut) ==>
      SameAnswer(exact, TreeWitness(hs, level, index, u, position, cut),
                 TreeWitness(hs, level, index, t, position, cut))
  }

  /** Above the bottom a witness is kept if the child of the leaf keeps it and the other child its root. */
  lemma StepKept<H>(exact: bool, hs: Hashable<H>, level: nat, index: nat, t: Tree<H>, l: Tree<H>, r: Tree<H>,
                    position: nat, cut: nat)
    requires level > 1 && Fits(level, t) && t.Parent? && Fits(level - 1, l) && Fits(level - 1, r)
    requires position < Start(level - 1, 2 * index + 1) ==>
      && WitnessKept(exact, hs, level - 1, 2 * index, l, t.left, position, cut)
      && RootKept(exact, hs, level - 1, 2 * index + 1, r, t.right, cut)
    requires position >= Start(level - 1, 2 * index + 1) ==>
      && WitnessKept(exact, hs, level - 1, 2 * index + 1, r, t.right, position, cut)
      && RootKept(exact, hs, level - 1, 2 * index, l, t.left, Start(level - 1, 2 * index + 1))
    ensures Fits(level, Parent(t.ann, l, r))
    ensures WitnessKept(exact, hs, level, index, Parent(t.ann, l, r), t, position, cut)
  {
    Halves(level, index);
    var u := Parent(t.ann, l, r);
    if FlagAt(level, index, u, position).marked && Boundary(level, index, u, cut) {
      BoundaryChildren(level, index, u, cut);
      WitnessOfChildren(exact, hs, level, index, u, t, position, cut);
    }
  }

  /** At the bottom clearing keeps the pair's witness as it is. */
  lemma PairKept<H>(exact: bool, hs: Hashable<H>, index: nat, toClear: seq<(nat, Flags)>, t: Tree<H>,
                    position: nat, cut: nat)
    requires Fits(1, t) && t.Parent? && Start(1, index) <= position < End(1, index) && toClear != []
    requires ClearFlags(hs, 1, index, toClear, t).Some? && Fits(1, ClearFlags(hs, 1, index, toClear, t).value)
    ensures WitnessKept(exact, hs, 1, index, ClearFlags(hs, 1, index, toClear, t).value, t, position, cut)
  {
    Halves(1, index);
    var cleared := ClearFlags(hs, 1, index, toClear, t).value;
    if FlagAt(1, index, cleared, position).marked && Boundary(1, index, cleared, cut) {
      ClearedParent(hs, 1, index, toClear, t, position, cut);
      var k := PartitionPoint(toClear, End(0, 2 * index));
      PairWitnessKept(hs, index, t.ann, t.left, t.right, toClear[..k], toClear[k..], position, cut);
    }
  }

  /** Clearing other flags does not change the witness of a leaf that stays marked, at a truncation
      point after a leaf that stays flagged; of a proper tree, the failures are the same as well. */
  lemma {:induction false} ClearKeepsWitness<H>(exact: bool, hs: Hashable<H>, leaves: seq<H>, level: nat, index: nat,
                                                toClear: seq<(nat, Flags)>,
                                                t: Tree<H>, position: nat, cut: nat)
    requires Consistent(hs, leaves, level, index, t) && (exact ==> Proper(t))
    requires Start(level, index) <= position < End(level, index) && position < cut
    ensures Fits(level, t)
    ensures var r := ClearFlags(hs, level, index, toClear, t);
            r.Some? ==> Fits(level, r.value) && WitnessKept(exact, hs, level, index, r.value, t, position, cut)
    decreases t
  {
    ConsistentFits(hs, leaves, level, index, t);
    ClearFits(hs, level, index, toClear, t);
    var cleared := ClearFlags(hs, level, index, toClear, t);
    if toClear != [] && t.Parent? && cleared.Some? {
      if level == 1 {
        PairKept(exact, hs, index, toClear, t, position, cut);
      } else if FlagAt(level, index, cleared.value, position).marked && Boundary(level, index, cleared.value, cut) {
        ClearedParent(hs, level, index, toClear, t, position, cut);
        ClearKeepsBelow(exact, hs, leaves, level, index, toClear, t, position, cut);
      }
    }
  }

  lemma {:induction false} ClearKeepsBelow<H>(exact: bool, hs: Hashable<H>, leaves: seq<H>, level: nat, index: nat,
                                              toClear: seq<(nat, Flags)>,
                                              t: Tree<H>, position: nat, cut: nat)
    requires Consistent(hs, leaves, level, index, t) && (exact ==> Proper(t)) && Fits(level, t) && t.Parent?
      && level > 1
    requires Start(level, index) <= position < End(level, index) && position < cut
    requires var k := PartitionPoint(toClear, End(level - 1, 2 * index));
             && ClearFlags(hs, level - 1, 2 * index, toClear[..k], t.left).Some?
             && ClearFlags(hs, level - 1, 2 * index + 1, toClear[k..], t.right).Some?
    ensures var k := PartitionPoint(toClear, End(level - 1, 2 * index));
            var l := ClearFlags(hs, level - 1, 2 * index, toClear[..k], t.left).value;
            var r := ClearFlags(hs, level - 1, 2 * index + 1, toClear[k..], t.right).value;
            && Fits(level, Parent(t.ann, l, r))
            && WitnessKept(exact, hs, level, index, Parent(t.ann, l, r), t, position, cut)
    decreases t, 0
  {
    var k := PartitionPoint(toClear, End(level - 1, 2 * index));
    var l := ClearFlags(hs, level - 1, 2 * index, toClear[..k], t.left).value;
    var r := ClearFlags(hs, level - 1, 2 * index + 1, toClear[k..], t.right).value;
    Halves(level, index);
    ClearFits(hs, level - 1, 2 * index, toClear[..k], t.left);
    ClearFits(hs, level - 1, 2 * index + 1, toClear[k..], t.right);
    if position < Start(level - 1, 2 * index + 1) {
      ClearKeepsWitness(exact, hs, leaves, level - 1, 2 * index, toClear[..k], t.left, position, cut);
      ClearKeepsRoot(exact, hs, leaves, level - 1, 2 * index + 1, toClear[k..], t.right, cut);
    } else {
      ClearKeepsWitness(exact, hs, leaves, level - 1, 2 * index + 1, toClear[k..], t.right, position, cut);
      ClearKeepsRoot(exact, hs, leaves, level - 1, 2 * index, toClear[..k], t.left, Start(level - 1, 2 * index + 1));
    }
    StepKept(exact, hs, level, index, t, l, r, position, cut);
  }

  lemma MarkedNotPruned<H>(level: nat, index: nat, ann: Option<H>, left: Tree<H>, right: Tree<H>, position: nat)
    requires level > 0 && Fits(level - 1, left) && Fits(level - 1, right)
    requires FlagAt(level, index, Parent(ann, left, right), position).marked
    ensures !Prunes(left, right)
  {
  }

  lemma PairWitnessKept<H>(hs: Hashable<H>, index: nat, ann: Option<H>, left: Tree<H>, right: Tree<H>,
                           toClearLeft: seq<(nat, Flags)>,
                           toClearRight: seq<(nat, Flags)>, position: nat, cut: nat)
    requires Fits(0, left) && Fits(0, right) && 2 * index <= position < 2 * index + 2
    requires ClearFlags(hs, 0, 2 * index, toClearLeft, left).Some?
      && ClearFlags(hs, 0, 2 * index + 1, toClearRight, right).Some?
    ensures var l, r := ClearFlags(hs, 0, 2 * index, toClearLeft, left).value,
      ClearFlags(hs, 0, 2 * index + 1, toClearRight, right).value;
            && Fits(0, l) && Fits(0, r) && Fits(1, Parent(ann, l, r)) && Fits(1, Parent(ann, left, right))
            && (FlagAt(1, index, Parent(ann, l, r), position).marked ==>
                 TreeWitness(hs, 1, index, Parent(ann, l, r), position, cut) ==
                   TreeWitness(hs, 1, index, Parent(ann, left, right), position, cut))
  {
    var l, r := ClearFlags(hs, 0, 2 * index, toClearLeft, left).value,
      ClearFlags(hs, 0, 2 * index + 1, toClearRight, right).value;
    Halves(1, index);
    assert Fits(0, l) && Fits(0, r);
    assert Fits(1, Parent(ann, l, r)) && Fits(1, Parent(ann, left, right));
    assert FlagAt(1, index, Parent(ann, l, r), position) ==
      if position < 2 * index + 1 then FlagAt(0, 2 * index, l, position) else FlagAt(0, 2 * index + 1, r, position);
  }
}
