/** Frontiers as partial trees: `from_frontier_parts` and `frontier_ommers` in `shardtree/src/prunable.rs`,
    `insert_frontier_nodes` and `frontier` in `shardtree/src/lib.rs`. */
module FrontierTrees {

  import opened Basics
  import opened Merkle
  import opened Frontiers
  import opened PrunableTrees
  import opened Pruning
  import opened MissingNodes
  import opened Insertions
  import opened Caps
  import opened RootCaches
  import opened Stores
  import opened DenseTrees
  import opened ShardStates

  // ---------- The spine ----------

  /** How many ommers a frontier has below a level: the set bits of the position there. */
  function OmmersBelow(level: nat, position: nat): nat
  {
    if level == 0 then 0 else OmmersBelow(level - 1, position) + Above(level - 1, position) % 2
  }

  /** The ommers of a position are those below a level and those of its ancestor there. */
  lemma {:induction false} OmmersSplit(level: nat, position: nat)
    ensures OmmersBelow(level, position) + PastOmmerCount(Above(level, position)) == PastOmmerCount(position)
    decreases level
  {
    if level > 0 { OmmersSplit(level - 1, position); }
  }

  lemma {:induction false} OmmersBelowMono(low: nat, high: nat, position: nat)
    requires low <= high
    ensures OmmersBelow(low, position) <= OmmersBelow(high, position)
    decreases high
  {
    if low < high { OmmersBelowMono(low, high - 1, position); }
  }

  /** The path of a position from a base node up to a level, with the ommers hung on its left. Nothing is
      built above an empty base until the first ommer. */
  function Spine<H>(position: nat, base: nat, t: Tree<H>, level: nat, ommers: seq<H>): Tree<H>
    requires OmmersBelow(level, position) <= |ommers|
    decreases level
  {
    if level <= base then t
    else
      OmmersBelowMono(level - 1, level, position);
      var below := Spine(position, base, t, level - 1, ommers);
      if Above(level - 1, position) % 2 == 1
        then Parent(None, Leaf(ommers[OmmersBelow(level - 1, position)], EPHEMERAL), below)
      else if below.Nil? then Nil
      else Parent(None, below, Nil)
  }

  // ---------- Building the trees ----------

  lemma {:induction false} SpineFits<H>(position: nat, base: nat, t: Tree<H>, level: nat, ommers: seq<H>, k: nat)
    requires OmmersBelow(level, position) <= |ommers| && Fits(k, t) && base <= level
    ensures Fits(k + (level - base), Spine(position, base, t, level, ommers))
    ensures !t.Nil? ==> !Spine(position, base, t, level, ommers).Nil?
    decreases level
  {
    if base < level {
      OmmersBelowMono(level - 1, level, position);
      SpineFits(position, base, t, level - 1, ommers, k);
    }
  }

  /** The level of the last ommer's parent is that of the whole frontier. */
  lemma TopBit(level: nat, position: nat)
    requires level > 0 && Above(level - 1, position) % 2 == 1
      && OmmersBelow(level, position) == PastOmmerCount(position)
    ensures level == RootLevel(position) && Above(level, position) == 0
  {
    OmmersSplit(level, position);
    NoOmmers(Above(level, position));
    RootLevelIs(level, position);
  }

  lemma {:induction false} NoOmmers(index: nat)
    ensures PastOmmerCount(index) == 0 ==> index == 0
    decreases index
  {
    if index > 0 { NoOmmers(index / 2); }
  }

  lemma {:induction false} RootLevelIs(level: nat, position: nat)
    requires Above(level, position) == 0
    ensures RootLevel(position) <= level
    ensures level > 0 && Above(level - 1, position) > 0 ==> RootLevel(position) == level
    decreases level
  {
    AboveHalf(position, level);
    if level > 0 {
      AboveHalf(position, level - 1);
      RootLevelIs(level - 1, position / 2);
    }
  }

  // ---------- The two parts of a frontier ----------

  /** What a frontier says of the tree below a level: the spine up from its leaf. */
  function LowerPart<H>(f: NonEmptyFrontier<H>, flags: Flags, sh: nat): Located<H>
    requires f.WellFormed()
  {
    OmmersSplit(sh, f.position);
    Located(Address(sh, Above(sh, f.position)), Spine(f.position, 0, Leaf(f.leaf, flags), sh, f.ommers))
  }

  /** What it says above that level: the rest of the spine, if there are ommers left for it. */
  function UpperPart<H>(position: nat, ommers: seq<H>, sh: nat): Option<Located<H>>
    requires |ommers| == PastOmmerCount(position)
  {
    var top := RootLevel(position);
    OmmersSplit(top, position);
    if OmmersBelow(sh, position) < |ommers|
    then Some(Located(Address(top, 0), Spine(position, sh, Nil, top, ommers)))
    else None
  }

  /** The tree below the split level; stops early if the ommers run out. */
  method BuildSubtree<H>(position: nat, leaf: H, ommers: seq<H>, flags: Flags, splitAt: nat)
    returns (subtree: Located<H>, used: nat)
    ensures used <= |ommers| && subtree.addr.level <= splitAt
    ensures |ommers| == PastOmmerCount(position) ==>
      && used == OmmersBelow(splitAt, position)
      && subtree == Located(Address(splitAt, Above(splitAt, position)),
                            Spine(position, 0, Leaf(leaf, flags), splitAt, ommers))
  {
    var level, index, tree := 0, position, Leaf(leaf, flags);
    used := 0;
    var going := true;
    while going && level < splitAt
      invariant level <= splitAt && index == Above(level, position) && used <= |ommers|
      invariant |ommers| == PastOmmerCount(position) ==>
        going && used == OmmersBelow(level, position) && tree == Spine(position, 0, Leaf(leaf, flags), level, ommers)
          && !tree.Nil?
      decreases going, splitAt - level
    {
      OmmersSplit(level + 1, position);
      if index % 2 == 0 {
        tree, level, index := Parent(None, tree, Nil), level + 1, index / 2;
      } else if used < |ommers| {
        tree, level, index := Parent(None, Leaf(ommers[used], EPHEMERAL), tree), level + 1, index / 2;
        used := used + 1;
      } else {
        going := false;
      }
    }
    subtree := Located(Address(level, index), tree);
  }

  /** The tree above the split level, from the ommers that are left. */
  method BuildSupertree<H>(position: nat, ommers: seq<H>, used: nat, splitAt: nat)
    returns (supertree: Option<Located<H>>)
    requires |ommers| == PastOmmerCount(position) && used == OmmersBelow(splitAt, position)
    ensures supertree == UpperPart(position, ommers, splitAt)
  {
    var level, index, tree, j := splitAt, Above(splitAt, position), Nil, used;
    OmmersSplit(splitAt, position);
    while j < |ommers|
      invariant used <= j <= |ommers| && splitAt <= level && index == Above(level, position)
        && j == OmmersBelow(level, position)
      invariant tree == Spine(position, splitAt, Nil, level, ommers)
      invariant j == used ==> tree == Nil && level == splitAt
      invariant j > used ==> !tree.Nil? && splitAt < level && Above(level - 1, position) % 2 == 1
      decreases |ommers| - j
    {
      OmmersSplit(level, position);
      while index % 2 == 0
        invariant splitAt <= level && index == Above(level, position) && index > 0 && j == OmmersBelow(level, position)
        invariant tree == Spine(position, splitAt, Nil, level, ommers)
        invariant j == used ==> tree == Nil
        invariant j > used ==> !tree.Nil?
        decreases index
      {
        tree := if tree.Nil? then Nil else Parent(None, tree, Nil);
        level, index := level + 1, index / 2;
      }
      OmmersSplit(level + 1, position);
      tree := Parent(None, Leaf(ommers[j], EPHEMERAL), tree);
      level, index, j := level + 1, index / 2, j + 1;
    }
    if used < |ommers| { TopBit(level, position); }
    supertree := if used < |ommers| then Some(Located(Address(level, index), tree)) else None;
  }

  /** `from_frontier_parts` */
  method FromFrontierParts<H>(f: NonEmptyFrontier<H>, flags: Flags, splitAt: nat)
    returns (subtree: Located<H>, supertree: Option<Located<H>>)
    requires f.WellFormed()
    ensures subtree == LowerPart(f, flags, splitAt) && supertree == UpperPart(f.position, f.ommers, splitAt)
  {
    OmmersSplit(splitAt, f.position);
    var used;
    subtree, used := BuildSubtree(f.position, f.leaf, f.ommers, flags, splitAt);
    supertree := BuildSupertree(f.position, f.ommers, used, splitAt);
  }

  // ---------- Reading the frontier back ----------

  datatype FrontierError = MissingNode(addr: Address) | Corrupted(addr: Address)

  datatype Parts<H> = Parts(position: nat, leaf: H, ommers: seq<H>)

  /** The inner `go` of `frontier_ommers`. */
  function FrontierOmmers<H>(hs: Hashable<H>, level: nat, index: nat, t: Tree<H>): Result<Parts<H>, FrontierError>
    requires Fits(level, t)
    decreases t
  {
    match t
    case Nil => Err(MissingNode(Address(level, index)))
    case Leaf(value, _) => if level == 0 then Ok(Parts(index, value, [])) else Err(MissingNode(Address(level, index)))
    case Parent(_, left, right) =>
      if right.Nil? then FrontierOmmers(hs, level - 1, 2 * index, left)
      else
        match FrontierOmmers(hs, level - 1, 2 * index + 1, right)
        case Err(e) => Err(e)
        case Ok(parts) =>
          match RootHash(hs, level - 1, 2 * index, left, Start(level - 1, 2 * index + 1))
          case Err(_) => Err(MissingNode(Address(level - 1, 2 * index)))
          case Ok(h) => Ok(Parts(parts.position, parts.leaf, parts.ommers + [h]))
  }

  /** From a spine down to its leaf, exactly the leaf and the ommers are read back. */
  lemma {:induction false} SpineOmmers<H>(hs: Hashable<H>, f: NonEmptyFrontier<H>, flags: Flags, level: nat)
    requires OmmersBelow(level, f.position) <= |f.ommers|
    ensures var t := Spine(f.position, 0, Leaf(f.leaf, flags), level, f.ommers);
            && Fits(level, t) && !t.Nil?
            && FrontierOmmers(hs, level, Above(level, f.position), t) ==
              Ok(Parts(f.position, f.leaf, f.ommers[..OmmersBelow(level, f.position)]))
    decreases level
  {
    SpineFits(f.position, 0, Leaf(f.leaf, flags), level, f.ommers, 0);
    if level > 0 {
      OmmersBelowMono(level - 1, level, f.position);
      SpineOmmers(hs, f, flags, level - 1);
      var below := Above(level - 1, f.position);
      assert Above(level, f.position) == below / 2;
      Halves(level, below / 2);
      var k := OmmersBelow(level - 1, f.position);
      if below % 2 == 1 { assert f.ommers[..k + 1] == f.ommers[..k] + [f.ommers[k]]; }
    }
  }

  // ---------- The cap ----------

  /** With no ommers left, extending the spine is the spine of a higher level. */
  lemma {:induction false} ExtendSpine<H>(position: nat, base: nat, level: nat, top: nat, ommers: seq<H>)
    requires base <= level <= top && OmmersBelow(top, position) == OmmersBelow(level, position) <= |ommers|
    requires !Spine(position, base, Nil, level, ommers).Nil?
    ensures Extend(Located(Address(level, Above(level, position)), Spine(position, base, Nil, level, ommers)), top) ==
      Spine(position, base, Nil, top, ommers)
    decreases top - level
  {
    if level < top {
      OmmersBelowMono(level, level + 1, position);
      OmmersBelowMono(level + 1, top, position);
      ExtendSpine(position, base, level + 1, top, ommers);
    }
  }

  /** Below the first ommer the cap is empty, from there on it is not. */
  lemma {:induction false} SpineNilIff<H>(position: nat, base: nat, level: nat, ommers: seq<H>)
    requires base <= level && OmmersBelow(level, position) <= |ommers|
    ensures OmmersBelow(base, position) <= OmmersBelow(level, position)
    ensures Spine(position, base, Nil, level, ommers).Nil? <==>
      OmmersBelow(base, position) == OmmersBelow(level, position)
    decreases level
  {
    if base < level {
      OmmersBelowMono(level - 1, level, position);
      SpineNilIff(position, base, level - 1, ommers);
    }
  }

  lemma AboveNext(level: nat, position: nat)
    ensures Above(level + 1, position) == Above(level, position) / 2
  {
  }

  /** The topmost left sibling is one step down. */
  lemma CapGivesTop<H>(hs: Hashable<H>, shards: seq<Located<H>>, sh: nat, position: nat, ommers: seq<H>, level: nat)
    requires ShardsFit(shards, sh) && sh < level && OmmersBelow(level, position) <= |ommers|
    requires Above(level - 1, position) % 2 == 1
    requires Fits(level - sh, Spine(position, sh, Nil, level, ommers))
    ensures OmmersBelow(level - 1, position) < |ommers|
    ensures var cap := Spine(position, sh, Nil, level, ommers);
            var addr, sibling := Address(level, Above(level, position)),
              Address(level - 1, Above(level - 1, position) - 1);
            && addr.Contains(sibling)
            && var r := RootInternal(hs, shards, sh, addr, cap, sibling, position + 1);
               r.Ok? && r.value.root == ommers[OmmersBelow(level - 1, position)]
  {
    var below := Above(level - 1, position);
    assert Above(level, position) == below / 2;
    var sibling := Address(level - 1, below - 1);
    AboveRange(level - 1, position);
    SameLevelContains(sibling, sibling);
    assert sibling.Parent() == Address(level, below / 2);
    ClimbStep(sibling, level);
  }

  /** The root of a left sibling of the path is read from the cap as the ommer stored there. */
  lemma {:induction false} CapGivesOmmer<H>(hs: Hashable<H>, shards: seq<Located<H>>, sh: nat, position: nat,
                                            ommers: seq<H>, level: nat, at: nat)
    requires ShardsFit(shards, sh) && sh <= at < level && OmmersBelow(level, position) <= |ommers|
    requires Above(at, position) % 2 == 1
    ensures OmmersBelow(at, position) < |ommers|
    ensures var cap := Spine(position, sh, Nil, level, ommers);
            var addr, sibling := Address(level, Above(level, position)), Address(at, Above(at, position) - 1);
            && Fits(level - sh, cap) && addr.Contains(sibling)
            && var r := RootInternal(hs, shards, sh, addr, cap, sibling, position + 1);
               r.Ok? && r.value.root == ommers[OmmersBelow(at, position)]
    decreases level
  {
    hide Fits, Root, Start, Pow2, Above, ShardsRoot, Rebuilt, OmmersBelow;
    SpineFits(position, sh, Nil, level, ommers, 0);
    OmmersBelowMono(level - 1, level, position);
    var below := Above(level - 1, position);
    AboveNext(level - 1, position);
    var sibling := Address(at, Above(at, position) - 1);
    if at + 1 == level {
      CapGivesTop(hs, shards, sh, position, ommers, level);
    } else {
      CapGivesOmmer(hs, shards, sh, position, ommers, level - 1, at);
      ClimbStep(sibling, level);
      ChildContains(Address(level, below / 2), sibling);
      OmmersBelowMono(at + 1, level - 1, position);
      OmmersBelowMono(sh, at, position);
      SpineNilIff(position, sh, level - 1, ommers);
    }
  }

  // ---------- Into the store ----------

  /** A store whose shards are trees at the shard level and whose cap stays above it. */
  ghost predicate StoreFits<H>(s: Store<H>, depth: nat, sh: nat)
  {
    sh <= depth && ShardsFit(s.shards, sh) && Fits(depth - sh, s.cap)
  }

  /** A store all of whose hashes are those of a tree over these leaves. */
  ghost predicate StoreTrue<H>(hs: Hashable<H>, leaves: seq<H>, s: Store<H>, depth: nat, sh: nat)
  {
    && StoreFits(s, depth, sh) && ShardsConsistent(hs, leaves, s.shards, sh)
    && CapOk(hs, leaves, sh, Address(depth, 0), s.cap)
  }

  /** The store that holds nothing but a frontier. */
  ghost predicate HoldsFrontier<H>(s: Store<H>, depth: nat, sh: nat, f: NonEmptyFrontier<H>, flags: Flags)
    requires f.WellFormed()
  {
    && OmmersBelow(depth, f.position) == |f.ommers|
    && |s.shards| == Above(sh, f.position) + 1 && s.shards[|s.shards| - 1] == LowerPart(f, flags, sh)
    && (forall i | 0 <= i < |s.shards| - 1 :: s.shards[i] == Located(Address(sh, i), Nil))
    && s.cap == Spine(f.position, sh, Nil, depth, f.ommers)
  }

  /** The frontier is that of the leaves up to its position. */
  ghost predicate FrontierWithin<H>(hs: Hashable<H>, leaves: seq<H>, f: NonEmptyFrontier<H>)
  {
    f.position < |leaves| && f == FrontierOf(hs, leaves[..f.position + 1])
  }

  lemma SpineUnannotated<H>(position: nat, base: nat, t: Tree<H>, level: nat, ommers: seq<H>)
    requires OmmersBelow(level, position) <= |ommers| && t.Reannotate(None) == t
    ensures Spine(position, base, t, level, ommers).Reannotate(None) == Spine(position, base, t, level, ommers)
  {
  }

  lemma PositionTop(depth: nat, position: nat)
    requires position < End(depth, 0)
    ensures Above(depth, position) == 0
  {
    StartZero(depth);
    AboveUnique(depth, position, 0);
  }

  /** The upper part of a frontier lies above the shards, and within the tree if the position does. */
  lemma UpperPartOk<H>(f: NonEmptyFrontier<H>, sh: nat, depth: nat)
    requires f.WellFormed() && UpperPart(f.position, f.ommers, sh).Some?
    ensures var upper := UpperPart(f.position, f.ommers, sh).value;
            && sh < upper.addr.level && !upper.root.Nil? && Fits(upper.addr.level - sh, upper.root)
            && Fits(upper.addr.level, upper.root)
            && (f.position < End(depth, 0) ==>
                  upper.addr.level <= depth && Address(depth, 0).Contains(upper.addr)
                    && Above(upper.addr.level, f.position) == 0)
  {
    var p, top := f.position, RootLevel(f.position);
    AboveRootLevel(p, top);
    OmmersSplit(top, p);
    OmmersSplit(sh, p);
    if top <= sh { OmmersBelowMono(top, sh, p); }
    SpineNilIff(p, sh, top, f.ommers);
    SpineFits(p, sh, Nil, top, f.ommers, 0);
    FitsMono(top - sh, top, Spine(p, sh, Nil, top, f.ommers));
    if p < End(depth, 0) {
      PositionTop(depth, p);
      RootLevelIs(depth, p);
      ClimbAbove(p, top, depth);
    }
  }

  /** Putting the lower part of a frontier into an empty shard leaves just that part. */
  lemma IntoEmptyShard<H>(hs: Hashable<H>, f: NonEmptyFrontier<H>, flags: Flags, sh: nat)
    requires f.WellFormed()
    ensures var lower := LowerPart(f, flags, sh);
            && Fits(sh, lower.root)
            && InsertSubtree(hs, Located(lower.addr, Nil), lower, flags.marked) == Ok((lower, []))
  {
    OmmersSplit(sh, f.position);
    SpineFits(f.position, 0, Leaf(f.leaf, flags), sh, f.ommers, 0);
    SpineUnannotated(f.position, 0, Leaf(f.leaf, flags), sh, f.ommers);
  }

  /** Putting its upper part into an empty cap leaves the spine of the whole tree. */
  lemma IntoEmptyCap<H>(hs: Hashable<H>, f: NonEmptyFrontier<H>, marked: bool, sh: nat, depth: nat)
    requires f.WellFormed() && f.position < End(depth, 0)
    ensures OmmersBelow(depth, f.position) == |f.ommers|
    ensures match UpperPart(f.position, f.ommers, sh)
            case None => sh <= depth ==> Spine(f.position, sh, Nil, depth, f.ommers) == Nil
            case Some(upper) =>
              && Fits(upper.addr.level, upper.root)
              && var r := InsertSubtree(hs, Located(Address(depth, 0), Nil), upper, marked);
                 r.Ok? && r.value.0 == Located(Address(depth, 0), Spine(f.position, sh, Nil, depth, f.ommers))
  {
    var p := f.position;
    PositionTop(depth, p);
    OmmersSplit(depth, p);
    var upper := UpperPart(p, f.ommers, sh);
    if upper.Some? {
      UpperPartOk(f, sh, depth);
      OmmersSplit(upper.value.addr.level, p);
      ExtendSpine(p, sh, upper.value.addr.level, depth, f.ommers);
      SpineUnannotated(p, sh, Nil, depth, f.ommers);
    } else if sh <= depth {
      OmmersSplit(sh, p);
      SpineNilIff(p, sh, depth, f.ommers);
    }
  }

  /** Going down left the ommers above a node stay the same, going down right there is one more. */
  lemma OmmersOfChildren<H>(hs: Hashable<H>, leaves: seq<H>, level: nat, index: nat)
    requires level > 0
    ensures OmmersAbove(hs, leaves, level - 1, 2 * index) == OmmersAbove(hs, leaves, level, index)
    ensures OmmersAbove(hs, leaves, level - 1, 2 * index + 1) ==
      [Root(hs, leaves, level - 1, 2 * index)] + OmmersAbove(hs, leaves, level, index)
  {
  }

  /** The ommers below a level are the left siblings met there. */
  lemma {:induction false} OmmersFrom<H>(hs: Hashable<H>, leaves: seq<H>, level: nat, position: nat)
    ensures OmmersBelow(level, position) <= |OmmersAbove(hs, leaves, 0, position)|
    ensures OmmersAbove(hs, leaves, 0, position)[OmmersBelow(level, position)..] ==
      OmmersAbove(hs, leaves, level, Above(level, position))
    decreases level
  {
    OmmerCount(hs, leaves, 0, position);
    OmmersSplit(level, position);
    if level > 0 { OmmersFrom(hs, leaves, level - 1, position); }
  }

  /** Where the path turns left, the ommer there is the root of the left sibling in any longer sequence. */
  lemma OmmerIs<H>(hs: Hashable<H>, leaves: seq<H>, level: nat, position: nat)
    requires position < |leaves| && Above(level, position) % 2 == 1
    ensures End(level, Above(level, position) - 1) <= |leaves|
    ensures var ommers := OmmersAbove(hs, leaves[..position + 1], 0, position);
            OmmersBelow(level, position) < |ommers| &&
            ommers[OmmersBelow(level, position)] == Root(hs, leaves, level, Above(level, position) - 1)
  {
    hide Root, Start, PastOmmerCount;
    var upTo, k, index := leaves[..position + 1], OmmersBelow(level, position), Above(level, position);
    OmmersFrom(hs, upTo, level, position);
    OmmersOfChildren(hs, upTo, level + 1, index / 2);
    assert OmmersAbove(hs, upTo, 0, position)[k..][0] == Root(hs, upTo, level, index - 1);
    AboveRange(level, position);
    assert upTo == Take(leaves, position + 1);
    RootPrefix(hs, leaves, position + 1, level, index - 1);
  }

  /** A spine over a true base, with the ommers of the leaves up to its position, is true. */
  lemma {:induction false} SpineConsistent<H>(hs: Hashable<H>, leaves: seq<H>, position: nat, base: nat, t: Tree<H>,
                                              level: nat, ommers: seq<H>)
    requires position < |leaves| && ommers == OmmersAbove(hs, leaves[..position + 1], 0, position)
    requires base <= level && Consistent(hs, leaves, base, Above(base, position), t)
    ensures OmmersBelow(level, position) <= |ommers|
    ensures Consistent(hs, leaves, level, Above(level, position), Spine(position, base, t, level, ommers))
    decreases level
  {
    hide Root, OmmersAbove, Start;
    OmmersFrom(hs, leaves[..position + 1], level, position);
    if base < level {
      SpineConsistent(hs, leaves, position, base, t, level - 1, ommers);
      if Above(level - 1, position) % 2 == 1 { OmmerIs(hs, leaves, level - 1, position); }
    }
  }

  /** Both parts of a frontier of the leaves are true of them. */
  lemma PartsTrue<H>(hs: Hashable<H>, leaves: seq<H>, f: NonEmptyFrontier<H>, flags: Flags, sh: nat)
    requires f.WellFormed() && FrontierWithin(hs, leaves, f)
    ensures var lower := LowerPart(f, flags, sh); Consistent(hs, leaves, sh, lower.addr.index, lower.root)
    ensures var upper := UpperPart(f.position, f.ommers, sh);
            upper.Some? ==> Consistent(hs, leaves, upper.value.addr.level, upper.value.addr.index, upper.value.root)
  {
    SpineConsistent(hs, leaves, f.position, 0, Leaf(f.leaf, flags), sh, f.ommers);
    if UpperPart(f.position, f.ommers, sh).Some? {
      UpperPartOk(f, sh, 0);
      AboveRootLevel(f.position, RootLevel(f.position));
      SpineConsistent(hs, leaves, f.position, sh, Nil, RootLevel(f.position), f.ommers);
    }
  }

  // ---------- Insertion stays above the shards ----------

  lemma {:induction false} MergeFits<H>(hs: Hashable<H>, level: nat, index: nat, t0: Tree<H>, t1: Tree<H>, k: nat)
    requires Fits(level, t0) && Fits(level, t1) && Fits(k, t0) && Fits(k, t1)
    ensures var r := Merge(hs, level, index, t0, t1); r.Ok? ==> Fits(k, r.value)
    decreases t0, t1
  {
    if t0.Parent? && t1.Parent? {
      MergeFits(hs, level - 1, 2 * index, t0.left, t1.left, k - 1);
      MergeFits(hs, level - 1, 2 * index + 1, t0.right, t1.right, k - 1);
    }
  }

  lemma {:induction false} ExtendFitsAbove<H>(node: Located<H>, level: nat, sh: nat)
    requires sh <= node.addr.level <= level && Fits(node.addr.level - sh, node.root)
    ensures Fits(level - sh, Extend(node, level))
    decreases level - node.addr.level
  {
    if node.addr.level < level {
      ExtendFitsAbove(Located(node.addr.Parent(), if node.addr.IsRightChild() then Parent(None, Nil, node.root)
                              else Parent(None, node.root, Nil)), level, sh);
    }
  }

  /** Inserting a tree that ends above the shards into a cap that does leaves a cap that does. */
  lemma {:induction false} InsertFitsAbove<H>(hs: Hashable<H>, level: nat, index: nat, into: Tree<H>,
                                              subtree: Located<H>, marked: bool, sh: nat)
    requires Fits(level, into) && Fits(subtree.addr.level, subtree.root)
    requires Address(level, index).Contains(subtree.addr) && sh <= subtree.addr.level
    requires Fits(level - sh, into) && Fits(subtree.addr.level - sh, subtree.root)
    ensures var r := Insert(hs, level, index, into, subtree, marked); r.Ok? ==> Fits(level - sh, r.value.0)
    decreases into
  {
    ExtendFitsAbove(subtree, level, sh);
    if into.Parent? && !subtree.root.Nil? {
      if Address(level, index) == subtree.addr {
        MergeFits(hs, level, index, into, subtree.root, level - sh);
      } else {
        ChildContains(Address(level, index), subtree.addr);
        if Address(level - 1, 2 * index).Contains(subtree.addr) {
          InsertFitsAbove(hs, level - 1, 2 * index, into.left, subtree, marked, sh);
        } else {
          InsertFitsAbove(hs, level - 1, 2 * index + 1, into.right, subtree, marked, sh);
        }
      }
    }
  }

  // ---------- What an insertion leaves of a frontier ----------

  /** The leaf at the end of a spine. */
  lemma {:induction false} SpineEnd<H>(position: nat, base: nat, t: Tree<H>, level: nat, ommers: seq<H>)
    requires OmmersBelow(level, position) <= |ommers| && base <= level && !t.Parent?
    requires Fits(level, Spine(position, base, t, level, ommers))
    ensures var spine, index := Spine(position, base, t, level, ommers), Above(level, position);
            && (Given(level, index, spine, position) <==> t.Leaf?)
            && (t.Leaf? ==>
                  && EndLevel(level, index, spine, position) == base
                  && FlagAt(level, index, spine, position) == FlagAt(base, Above(base, position), t, position))
    decreases level
  {
    if base < level {
      OmmersBelowMono(level - 1, level, position);
      SpineEnd(position, base, t, level - 1, ommers);
      AboveRange(level - 1, position);
      Halves(level, Above(level, position));
    }
  }

  /** The left siblings along a spine are leaves. */
  lemma {:induction false} SpineSiblings<H>(position: nat, base: nat, t: Tree<H>, level: nat, ommers: seq<H>, k: nat)
    requires OmmersBelow(level, position) <= |ommers| && base <= k < level && Above(k, position) % 2 == 1
    requires Fits(level, Spine(position, base, t, level, ommers))
    ensures OmmersBelow(k, position) < |ommers|
    ensures NodeAt(level, Above(level, position), Spine(position, base, t, level, ommers),
                   Address(k, Above(k, position) - 1)) == Some(Leaf(ommers[OmmersBelow(k, position)], EPHEMERAL))
    decreases level
  {
    OmmersBelowMono(level - 1, level, position);
    OmmersBelowMono(k + 1, level, position);
    var spine, index, left := Spine(position, base, t, level, ommers), Above(level, position),
      Address(k, Above(k, position) - 1);
    if k + 1 < level {
      SpineSiblings(position, base, t, level - 1, ommers, k);
      NodeBelow(level, index, spine, left);
    } else {
      NodeBelow(level, index, spine, left);
      SameLevelContains(left, left);
    }
  }

  /** The path to a position goes down to a level, or ends in an empty node. */
  predicate Open<H>(level: nat, index: nat, t: Tree<H>, p: nat, k: nat)
    requires Fits(level, t)
  {
    EndLevel(level, index, t, p) <= k || !Given(level, index, t, p)
  }

  /** Along an open path no left sibling is pruned into a leaf. */
  lemma {:induction false} OpenComputes<H>(level: nat, index: nat, t: Tree<H>, p: nat, k: nat)
    requires Fits(level, t) && Start(level, index) <= p < End(level, index) && k < level
    requires Above(k, p) % 2 == 1 && Open(level, index, t, p, k)
    requires Address(level, index).Contains(Address(k, Above(k, p) - 1))
    requires Settled(level, index, t, Address(k, Above(k, p) - 1))
    ensures Computes(level, index, t, Address(k, Above(k, p) - 1))
    decreases t
  {
    var left := Address(k, Above(k, p) - 1);
    if t.Parent? {
      Halves(level, index);
      ChildContains(Address(level, index), left);
      NodeBelow(level, index, t, left);
      PositionSide(level, index, p);
      assert left.Parent() == Address(k + 1, Above(k + 1, p));
      if k + 1 < level {
        ClimbAbove(p, k + 1, level - 1);
        if p < End(level - 1, 2 * index) { OpenComputes(level - 1, 2 * index, t.left, p, k); }
        else { OpenComputes(level - 1, 2 * index + 1, t.right, p, k); }
      }
    }
  }

  lemma LeftWithin(level: nat, index: nat, p: nat, k: nat)
    requires Start(level, index) <= p < End(level, index) && k < level && Above(k, p) % 2 == 1
    ensures Address(level, index).Contains(Address(k, Above(k, p) - 1))
  {
    AboveUnique(level, p, index);
    assert Address(k, Above(k, p) - 1).Parent() == Address(k + 1, Above(k + 1, p));
    ClimbAbove(p, k + 1, level);
  }

  /** Every left sibling of a position that meets an open part of the path can be computed. */
  ghost predicate LeftsComputed<H>(level: nat, index: nat, t: Tree<H>, p: nat, low: nat)
    requires Fits(level, t)
  {
    forall k | low <= k < level && Above(k, p) % 2 == 1 && Open(level, index, t, p, k) ::
      Computes(level, index, t, Address(k, Above(k, p) - 1))
  }

  /** What the shard of a frontier's position is after the insertion: its leaf is there with the flags asked for (the
      reference flag may go), the flags elsewhere are those of any insertion, and the left siblings are there. */
  ghost predicate LowerLanded<H>(sh: nat, f: NonEmptyFrontier<H>, flags: Flags, before: Tree<H>, after: Tree<H>)
    requires f.WellFormed() && Fits(sh, before) && Fits(sh, after)
  {
    var p, index, lower := f.position, Above(sh, f.position), LowerPart(f, flags, sh);
    && Fits(sh, lower.root)
    && Includes(FlagAt(sh, index, after, p), flags.Minus(REFERENCE)) && Given(sh, index, after, p)
    && (forall q | Start(sh, index) <= q < End(sh, index) ::
          FlagAt(sh, index, after, q) == InsertedFlags(sh, index, before, lower, q))
    && LeftsComputed(sh, index, after, p, 0)
  }

  /** Each left sibling in the shard is there after the insertion. */
  lemma LowerSettles<H>(hs: Hashable<H>, sh: nat, f: NonEmptyFrontier<H>, flags: Flags, into: Tree<H>, k: nat)
    requires f.WellFormed() && Fits(sh, into) && k < sh && Above(k, f.position) % 2 == 1
    ensures var lower := LowerPart(f, flags, sh);
            && Fits(sh, lower.root)
            && var r := Insert(hs, sh, lower.addr.index, into, lower, flags.marked);
               r.Ok? ==>
                 && Fits(sh, r.value.0)
                 && (Open(sh, lower.addr.index, r.value.0, f.position, k) ==>
                       Computes(sh, lower.addr.index, r.value.0, Address(k, Above(k, f.position) - 1)))
  {
    hide Insert, Spine, OmmersBelow, InsertedFlags, Settled;
    var p, lower := f.position, LowerPart(f, flags, sh);
    var index := lower.addr.index;
    IntoEmptyShard(hs, f, flags, sh);
    OmmersSplit(sh, p);
    AboveRange(sh, p);
    SameLevelContains(lower.addr, lower.addr);
    SpineFits(p, 0, Leaf(f.leaf, flags), sh, f.ommers, 0);
    InsertGrows(hs, sh, index, into, lower, flags.marked);
    var r := Insert(hs, sh, index, into, lower, flags.marked);
    if r.Ok? && Open(sh, index, r.value.0, p, k) {
      SpineSiblings(p, 0, Leaf(f.leaf, flags), sh, f.ommers, k);
      LeftWithin(sh, index, p, k);
      InsertSettles(hs, sh, index, into, lower, flags.marked, Address(k, Above(k, p) - 1));
      OpenComputes(sh, index, r.value.0, p, k);
    }
  }

  lemma LowerLands<H>(hs: Hashable<H>, sh: nat, f: NonEmptyFrontier<H>, flags: Flags, into: Tree<H>)
    requires f.WellFormed() && Fits(sh, into)
    ensures var lower := LowerPart(f, flags, sh);
            && Fits(sh, lower.root)
            && var r := InsertSubtree(hs, Located(lower.addr, into), lower, flags.marked);
               r.Ok? ==> Fits(sh, r.value.0.root) && LowerLanded(sh, f, flags, into, r.value.0.root)
  {
    hide Insert, Spine, OmmersBelow, InsertedFlags, Settled;
    var p, lower := f.position, LowerPart(f, flags, sh);
    var index := lower.addr.index;
    IntoEmptyShard(hs, f, flags, sh);
    OmmersSplit(sh, p);
    SpineEnd(p, 0, Leaf(f.leaf, flags), sh, f.ommers);
    AboveRange(sh, p);
    SameLevelContains(lower.addr, lower.addr);
    SpineFits(p, 0, Leaf(f.leaf, flags), sh, f.ommers, 0);
    InsertGrows(hs, sh, index, into, lower, flags.marked);
    InsertKeepsFlags(hs, sh, index, into, lower, flags.marked, p);
    var r := Insert(hs, sh, index, into, lower, flags.marked);
    if r.Ok? {
      forall q | Start(sh, index) <= q < End(sh, index)
        ensures FlagAt(sh, index, r.value.0, q) == InsertedFlags(sh, index, into, lower, q)
      {
        InsertExact(hs, sh, index, into, lower, flags.marked, q);
      }
      forall k | 0 <= k < sh && Above(k, p) % 2 == 1 && Open(sh, index, r.value.0, p, k)
        ensures Computes(sh, index, r.value.0, Address(k, Above(k, p) - 1))
      {
        LowerSettles(hs, sh, f, flags, into, k);
      }
    }
  }

  /** What the cap is after the insertion: the left siblings above the shards are there, and nothing covers the position
      that did not before. */
  ghost predicate UpperLanded<H>(depth: nat, sh: nat, p: nat, before: Tree<H>, after: Tree<H>)
    requires Fits(depth, before) && Fits(depth, after)
  {
    LeftsComputed(depth, 0, after, p, sh) && (Given(depth, 0, after, p) ==> Given(depth, 0, before, p))
  }

  lemma UpperLands<H>(hs: Hashable<H>, depth: nat, sh: nat, f: NonEmptyFrontier<H>, marked: bool, cap: Tree<H>)
    requires f.WellFormed() && Fits(depth, cap) && f.position < End(depth, 0)
    ensures match UpperPart(f.position, f.ommers, sh)
            case None => UpperLanded(depth, sh, f.position, cap, cap)
            case Some(upper) =>
              && Fits(upper.addr.level, upper.root)
              && var r := InsertSubtree(hs, Located(Address(depth, 0), cap), upper, marked);
                 r.Ok? ==> Fits(depth, r.value.0.root) && UpperLanded(depth, sh, f.position, cap, r.value.0.root)
  {
    hide Insert, Spine, OmmersBelow, InsertedFlags, Settled, RootLevel;
    var p, part := f.position, UpperPart(f.position, f.ommers, sh);
    StartZero(depth);
    OmmersSplit(sh, p);
    if part.None? {
      NoOmmers(Above(sh, p));
      forall k | sh <= k < depth ensures Above(k, p) == 0 { AboveStaysZero(sh, k, p); }
    } else {
      var upper := part.value;
      var top := upper.addr.level;
      UpperPartOk(f, sh, depth);
      OmmersSplit(top, p);
      SpineEnd(p, sh, Nil, top, f.ommers);
      AboveRange(top, p);
      InsertGrows(hs, depth, 0, cap, upper, marked);
      InsertExact(hs, depth, 0, cap, upper, marked, p);
      var r := Insert(hs, depth, 0, cap, upper, marked);
      if r.Ok? {
        forall k | sh <= k < depth && Above(k, p) % 2 == 1 && Open(depth, 0, r.value.0, p, k)
          ensures Computes(depth, 0, r.value.0, Address(k, Above(k, p) - 1))
        {
          if top <= k { AboveStaysZero(top, k, p); }
          SpineSiblings(p, sh, Nil, top, f.ommers, k);
          LeftWithin(depth, 0, p, k);
          InsertSettles(hs, depth, 0, cap, upper, marked, Address(k, Above(k, p) - 1));
          OpenComputes(depth, 0, r.value.0, p, k);
        }
      }
    }
  }

  lemma {:induction false} AboveStaysZero(low: nat, high: nat, position: nat)
    requires low <= high && Above(low, position) == 0
    ensures Above(high, position) == 0
    decreases high
  {
    if low < high { AboveStaysZero(low, high - 1, position); }
  }

  // ---------- `insert_frontier_nodes` ----------

  /** Storing a shard keeps the store well formed, and true if the shard is. */
  lemma PutShardOk<H>(hs: Hashable<H>, leaves: seq<H>, s: Store<H>, depth: nat, sh: nat, shard: Located<H>)
    requires StoreFits(s, depth, sh) && ShardFits(shard, sh, shard.addr.index)
    ensures StoreFits(s.PutShard(shard), depth, sh)
    ensures StoreTrue(hs, leaves, s, depth, sh) && Consistent(hs, leaves, sh, shard.addr.index, shard.root) ==>
      StoreTrue(hs, leaves, s.PutShard(shard), depth, sh)
  {
    var after := s.PutShard(shard).shards;
    var padded := Padded(s.shards, shard.addr);
    forall i | 0 <= i < |after| ensures ShardFits(after[i], sh, i) {
      if i < |s.shards| { assert padded[i] == s.shards[i] && ShardFits(s.shards[i], sh, i); }
    }
    if StoreTrue(hs, leaves, s, depth, sh) && Consistent(hs, leaves, sh, shard.addr.index, shard.root) {
      forall i | 0 <= i < |after| ensures Consistent(hs, leaves, sh, i, after[i].root) {
        if i < |s.shards| { assert padded[i] == s.shards[i] && Consistent(hs, leaves, sh, i, s.shards[i].root); }
      }
    }
  }

  /** The shard at an address, empty if there is none. */
  function ShardAt<H>(shards: seq<Located<H>>, addr: Address): Located<H>
  {
    if addr.index < |shards| then shards[addr.index] else Located(addr, Nil)
  }

  lemma ShardAtFits<H>(s: Store<H>, depth: nat, sh: nat, index: nat)
    requires StoreFits(s, depth, sh)
    ensures ShardFits(ShardAt(s.shards, Address(sh, index)), sh, index)
  {
    if index < |s.shards| { assert ShardFits(s.shards[index], sh, index); }
  }

  /** The lower part goes into its shard, always if both are true of the same leaves. */
  lemma LowerInto<H>(hs: Hashable<H>, leaves: seq<H>, s: Store<H>, depth: nat, sh: nat, f: NonEmptyFrontier<H>,
                     flags: Flags)
    requires StoreFits(s, depth, sh) && f.WellFormed()
    ensures var lower := LowerPart(f, flags, sh);
            var shard := ShardAt(s.shards, lower.addr);
            && ShardFits(shard, sh, lower.addr.index) && Fits(sh, lower.root)
            && var r := InsertSubtree(hs, shard, lower, flags.marked);
               && (r.Ok? ==> r.value.0.addr == lower.addr && StoreFits(s.PutShard(r.value.0), depth, sh))
               && (StoreTrue(hs, leaves, s, depth, sh) && FrontierWithin(hs, leaves, f) ==>
                     r.Ok? && StoreTrue(hs, leaves, s.PutShard(r.value.0), depth, sh))
  {
    hide Spine, OmmersBelow, Insert, Consistent, Root, Start;
    var lower := LowerPart(f, flags, sh);
    var addr := lower.addr;
    IntoEmptyShard(hs, f, flags, sh);
    ShardAtFits(s, depth, sh, addr.index);
    SameLevelContains(addr, addr);
    var shard := ShardAt(s.shards, addr);
    InsertGrows(hs, sh, addr.index, shard.root, lower, flags.marked);
    if StoreTrue(hs, leaves, s, depth, sh) && FrontierWithin(hs, leaves, f) {
      PartsTrue(hs, leaves, f, flags, sh);
      assert Consistent(hs, leaves, sh, addr.index, shard.root) by { ShardTrue(hs, leaves, s, depth, sh, addr.index); }
      InsertSucceeds(hs, leaves, sh, addr.index, shard.root, lower, flags.marked);
    }
    var r := InsertSubtree(hs, shard, lower, flags.marked);
    if r.Ok? { PutShardOk(hs, leaves, s, depth, sh, r.value.0); }
  }

  lemma ShardTrue<H>(hs: Hashable<H>, leaves: seq<H>, s: Store<H>, depth: nat, sh: nat, index: nat)
    requires StoreTrue(hs, leaves, s, depth, sh)
    ensures Consistent(hs, leaves, sh, index, ShardAt(s.shards, Address(sh, index)).root)
  {
  }

  /** The upper part goes into the cap, always if both are true of the same leaves and it is in the tree. */
  lemma UpperInto<H>(hs: Hashable<H>, leaves: seq<H>, s: Store<H>, depth: nat, sh: nat, f: NonEmptyFrontier<H>,
                     marked: bool)
    requires StoreFits(s, depth, sh) && f.WellFormed() && UpperPart(f.position, f.ommers, sh).Some?
    ensures var upper := UpperPart(f.position, f.ommers, sh).value;
            && Fits(depth, s.cap) && Fits(upper.addr.level, upper.root)
            && var r := InsertSubtree(hs, Located(Address(depth, 0), s.cap), upper, marked);
               && (r.Ok? ==> StoreFits(s.PutCap(r.value.0.root), depth, sh))
               && (StoreTrue(hs, leaves, s, depth, sh) && FrontierWithin(hs, leaves, f)
                   && f.position < End(depth, 0) ==>
                     r.Ok? && StoreTrue(hs, leaves, s.PutCap(r.value.0.root), depth, sh))
  {
    hide Spine, OmmersBelow, Insert, Root, Start, Consistent, RootLevel;
    var upper := UpperPart(f.position, f.ommers, sh).value;
    UpperPartOk(f, sh, depth);
    FitsMono(depth - sh, depth, s.cap);
    if Address(depth, 0).Contains(upper.addr) {
      InsertFitsAbove(hs, depth, 0, s.cap, upper, marked, sh);
      if StoreTrue(hs, leaves, s, depth, sh) && FrontierWithin(hs, leaves, f) {
        PartsTrue(hs, leaves, f, EPHEMERAL, sh);
        InsertSucceeds(hs, leaves, depth, 0, s.cap, upper, marked);
      }
    }
  }

  /** The upper part of a frontier beyond the tree does not fit below its root. */
  lemma BeyondTree<H>(hs: Hashable<H>, f: NonEmptyFrontier<H>, depth: nat, sh: nat, cap: Tree<H>, marked: bool)
    requires f.WellFormed() && sh <= depth && f.position >= End(depth, 0) && Fits(depth, cap)
    ensures var upper := UpperPart(f.position, f.ommers, sh);
            && upper.Some? && Fits(upper.value.addr.level, upper.value.root)
            && InsertSubtree(hs, Located(Address(depth, 0), cap), upper.value, marked) ==
               Err(NotContained(upper.value.addr))
  {
    var p := f.position;
    if RootLevel(p) <= depth {
      AboveRootLevel(p, depth);
      AboveRange(depth, p);
      assert false;
    }
    if Above(sh, p) == 0 {
      RootLevelBound(sh, p);
      assert false;
    }
    OmmersSplit(sh, p);
    NoOmmers(Above(sh, p));
    OmmersSplit(RootLevel(p), p);
    SpineFits(p, sh, Tree<H>.Nil, RootLevel(p), f.ommers, sh);
  }

  /** The shards padded up to that of the frontier, and the cap that the upper part leaves, hold the frontier. */
  lemma HeldNow<H>(depth: nat, sh: nat, f: NonEmptyFrontier<H>, flags: Flags, s: Store<H>)
    requires f.WellFormed() && f.position < End(depth, 0)
    requires var lower := LowerPart(f, flags, sh);
             s.shards == Padded([], lower.addr)[lower.addr.index := lower]
    requires OmmersBelow(depth, f.position) == |f.ommers| && s.cap == Spine(f.position, sh, Nil, depth, f.ommers)
    ensures HoldsFrontier(s, depth, sh, f, flags)
  {
  }

  /** Only one shard is new; missing ones before it are put in empty. */
  ghost predicate OneShardPut<H>(before: seq<Located<H>>, after: seq<Located<H>>, addr: Address)
  {
    && |after| == (if addr.index < |before| then |before| else addr.index + 1) && after[addr.index].addr == addr
    && forall i | 0 <= i < |after| && i != addr.index ::
         after[i] == if i < |before| then before[i] else Located(Address(addr.level, i), Nil)
  }

  /** What a store is after a frontier was inserted into it. */
  ghost predicate FrontierLanded<H>(before: Store<H>, after: Store<H>, depth: nat, sh: nat, f: NonEmptyFrontier<H>,
                                    flags: Flags)
    requires StoreFits(before, depth, sh) && f.WellFormed()
  {
    var addr := Address(sh, Above(sh, f.position));
    && OneShardPut(before.shards, after.shards, addr)
    && Fits(sh, ShardAt(before.shards, addr).root) && Fits(sh, after.shards[addr.index].root)
    && LowerLanded(sh, f, flags, ShardAt(before.shards, addr).root, after.shards[addr.index].root)
    && Fits(depth, before.cap) && Fits(depth, after.cap) && UpperLanded(depth, sh, f.position, before.cap, after.cap)
  }

  /** Putting a shard at an address. */
  lemma PutOneShard<H>(s: Store<H>, shard: Located<H>)
    ensures OneShardPut(s.shards, s.PutShard(shard).shards, shard.addr)
    ensures s.PutShard(shard).shards[shard.addr.index] == shard
  {
  }

  /** The checkpoints make no difference to what a store says of the leaves. */
  lemma SameLeaves<H>(hs: Hashable<H>, leaves: seq<H>, before: Store<H>, a: Store<H>, b: Store<H>, depth: nat, sh: nat,
                      f: NonEmptyFrontier<H>, flags: Flags)
    requires a.shards == b.shards && a.cap == b.cap && StoreFits(before, depth, sh) && f.WellFormed()
    ensures StoreFits(a, depth, sh) <==> StoreFits(b, depth, sh)
    ensures StoreTrue(hs, leaves, a, depth, sh) <==> StoreTrue(hs, leaves, b, depth, sh)
    ensures FrontierLanded(before, a, depth, sh, f, flags) <==> FrontierLanded(before, b, depth, sh, f, flags)
    ensures HoldsFrontier(a, depth, sh, f, flags) <==> HoldsFrontier(b, depth, sh, f, flags)
  {
  }

  /** The cap after the upper part of a frontier went into it. */
  predicate CapAfterUpper<H(==)>(hs: Hashable<H>, depth: nat, sh: nat, f: NonEmptyFrontier<H>, marked: bool,
                                 cap: Tree<H>, after: Tree<H>)
    requires Fits(depth, cap) && f.WellFormed()
  {
    match UpperPart(f.position, f.ommers, sh)
    case None => after == cap
    case Some(upper) =>
      && Fits(upper.addr.level, upper.root)
      && var r := InsertSubtree(hs, Located(Address(depth, 0), cap), upper, marked);
         r.Ok? && r.value.0.root == after
  }

  /** Neither part is refused by an empty store. */
  lemma IntoBothEmpty<H>(hs: Hashable<H>, f: NonEmptyFrontier<H>, flags: Flags, depth: nat, sh: nat)
    requires f.WellFormed()
    ensures var lower := LowerPart(f, flags, sh);
            Fits(sh, lower.root) && InsertSubtree(hs, Located(lower.addr, Nil), lower, flags.marked).Ok?
    ensures f.position < End(depth, 0) ==>
      match UpperPart(f.position, f.ommers, sh)
      case None => true
      case Some(upper) =>
        && Fits(upper.addr.level, upper.root)
        && InsertSubtree(hs, Located(Address(depth, 0), Nil), upper, flags.marked).Ok?
  {
    IntoEmptyShard(hs, f, flags, sh);
    if f.position < End(depth, 0) { IntoEmptyCap(hs, f, flags.marked, sh, depth); }
  }

  /** The whole insertion: what it keeps, and what it leaves of the frontier. */
  lemma WholeInsertion<H>(hs: Hashable<H>, leaves: seq<H>, before: Store<H>, shard: Located<H>, cap: Tree<H>,
                          depth: nat, sh: nat, f: NonEmptyFrontier<H>, flags: Flags)
    requires StoreFits(before, depth, sh) && f.WellFormed() && Fits(depth, before.cap)
    requires var lower := LowerPart(f, flags, sh);
             && Fits(sh, lower.root) && ShardFits(ShardAt(before.shards, lower.addr), sh, lower.addr.index)
             && var r := InsertSubtree(hs, ShardAt(before.shards, lower.addr), lower, flags.marked);
                r.Ok? && r.value.0 == shard
    requires CapAfterUpper(hs, depth, sh, f, flags.marked, before.cap, cap)
    ensures var after := before.PutShard(shard).PutCap(cap);
            && StoreFits(after, depth, sh)
            && (StoreTrue(hs, leaves, before, depth, sh) && FrontierWithin(hs, leaves, f)
                && f.position < End(depth, 0) ==>
                  StoreTrue(hs, leaves, after, depth, sh))
            && (f.position < End(depth, 0) ==> FrontierLanded(before, after, depth, sh, f, flags))
            && (f.position < End(depth, 0) && before == EmptyStore() ==> HoldsFrontier(after, depth, sh, f, flags))
  {
    hide Spine, OmmersBelow, Insert, Root, Start, Consistent, RootLevel, HoldsFrontier, LowerLanded, UpperLanded,
      OneShardPut, UpperPart;
    var mid := before.PutShard(shard);
    LowerInto(hs, leaves, before, depth, sh, f, flags);
    LowerLands(hs, sh, f, flags, ShardAt(before.shards, shard.addr).root);
    PutOneShard(before, shard);
    if UpperPart(f.position, f.ommers, sh).Some? { UpperInto(hs, leaves, mid, depth, sh, f, flags.marked); }
    if f.position < End(depth, 0) {
      UpperLands(hs, depth, sh, f, flags.marked, before.cap);
      if before == EmptyStore() {
        IntoEmptyCap(hs, f, flags.marked, sh, depth);
        IntoEmptyShard(hs, f, flags, sh);
        HeldNow(depth, sh, f, flags, mid.PutCap(cap));
      }
    }
  }

  /** `LocatedPrunableTree::insert_frontier_nodes`: the lower part of the frontier goes into the tree, the upper part is
      given back. */
  method InsertIntoTree<H(==)>(hs: Hashable<H>, tree: Located<H>, f: NonEmptyFrontier<H>, flags: Flags)
    returns (r: Result<(Located<H>, Option<Located<H>>), InsertionError>)
    requires Fits(tree.addr.level, tree.root) && f.WellFormed()
    ensures !tree.addr.ContainsPosition(f.position) ==> r == Err(OutOfRange(f.position))
    ensures tree.addr.ContainsPosition(f.position) ==>
      var level, lower := tree.addr.level, LowerPart(f, flags, tree.addr.level);
      && lower.addr == tree.addr && Fits(level, lower.root)
      && match InsertSubtree(hs, tree, lower, flags.marked)
         case Err(e) => r == Err(e)
         case Ok((after, _)) => r == Ok((after, UpperPart(f.position, f.ommers, level)))
  {
    hide Insert, Spine, Start;
    if !tree.addr.ContainsPosition(f.position) { return Err(OutOfRange(f.position)); }
    AboveUnique(tree.addr.level, f.position, tree.addr.index);
    IntoEmptyShard(hs, f, flags, tree.addr.level);
    var subtree, supertree := FromFrontierParts(f, flags, tree.addr.level);
    var inserted := InsertSubtree(hs, tree, subtree, flags.marked);
    if inserted.Err? { return Err(inserted.error); }
    r := Ok((inserted.value.0, supertree));
  }

  /** `insert_frontier_nodes`, up to the pruning that follows. It never fails on a store and a frontier that
      are true of the same leaves, and leaves the store true of them. */
  method InsertFrontierNodes<H(==)>(hs: Hashable<H>, store: MemoryShardStore<H>, depth: nat, sh: nat,
                                    f: NonEmptyFrontier<H>, flags: Flags, checkpoint: Option<int>, ghost leaves: seq<H>)
    returns (r: Result<(), InsertionError>)
    requires store.Valid() && StoreFits(store.Contents(), depth, sh) && f.WellFormed()
    modifies store
    ensures store.Valid() && StoreFits(store.Contents(), depth, sh)
    ensures old(StoreTrue(hs, leaves, store.Contents(), depth, sh)) ==>
      FrontierWithin(hs, leaves, f) && f.position < End(depth, 0) ==>
      r.Ok? && StoreTrue(hs, leaves, store.Contents(), depth, sh)
    ensures old(store.Contents()) == EmptyStore() && f.position < End(depth, 0) ==>
      r.Ok? && HoldsFrontier(store.Contents(), depth, sh, f, flags)
    ensures r.Ok? && f.position < End(depth, 0) ==>
      FrontierLanded(old(store.Contents()), store.Contents(), depth, sh, f, flags)
    ensures f.position >= End(depth, 0) ==> r.Err?
    ensures r.Err? ==> store.cap == old(store.cap) && store.checkpoints == old(store.checkpoints)
    ensures r.Ok? && checkpoint.None? ==> store.checkpoints == old(store.checkpoints)
    ensures r.Ok? && checkpoint.Some? ==>
      store.checkpoints == old(store.checkpoints)[checkpoint.value := Checkpoint(AtPosition(f.position), {})]
  {
    hide Spine, OmmersBelow, Insert, Root, Start, Consistent, RootLevel, HoldsFrontier, FrontierLanded, StoreTrue,
      UpperPart;
    ghost var before := store.Contents();
    var addr := Address(sh, Above(sh, f.position));
    FitsMono(depth - sh, depth, store.cap);
    AboveRange(sh, f.position);
    ShardAtFits(before, depth, sh, addr.index);
    LowerInto(hs, leaves, before, depth, sh, f, flags);
    IntoBothEmpty(hs, f, flags, depth, sh);
    var found := store.GetShard(addr);
    var current := if found.Some? then found.value else Located(addr, Nil);
    var inserted := InsertIntoTree(hs, current, f, flags);
    if inserted.Err? { return Err(inserted.error); }
    var (shard, supertree) := inserted.value;
    if supertree.Some? { UpperInto(hs, leaves, before.PutShard(shard), depth, sh, f, flags.marked); }
    if f.position >= End(depth, 0) { BeyondTree(hs, f, depth, sh, store.cap, flags.marked); }
    store.PutShard(shard);
    if supertree.Some? {
      var newCap := InsertSubtree(hs, Located(Address(depth, 0), store.cap), supertree.value, flags.marked);
      if newCap.Err? { return Err(newCap.error); }
      store.PutCap(newCap.value.0.root);
    }
    ghost var inside := store.Contents();
    WholeInsertion(hs, leaves, before, shard, store.cap, depth, sh, f, flags);
    if checkpoint.Some? { store.AddCheckpoint(checkpoint.value, Checkpoint(AtPosition(f.position), {})); }
    SameLeaves(hs, leaves, before, inside, store.Contents(), depth, sh, f, flags);
    r := Ok(());
  }

  // ---------- `frontier` ----------

  lemma SiblingContained(root: Address, addr: Address)
    requires root.Contains(addr) && addr.level < root.level
    ensures root.Contains(addr.Sibling()) && root.Contains(addr.Parent())
  {
    assert addr.Sibling().Parent() == addr.Parent();
    assert Climb(addr.Sibling(), root.level) == Climb(addr.Sibling().Parent(), root.level);
  }

  lemma ShardWithin(depth: nat, sh: nat, index: nat)
    requires sh <= depth && index < Start(depth - sh, 1)
    ensures Address(depth, 0).Contains(Address(sh, index))
  {
    var p := Start(sh, index);
    StartOfStart(sh, depth - sh, 1);
    StartMono(sh, index, Start(depth - sh, 1));
    StartMono(sh, index, index + 1);
    AboveUnique(sh, p, index);
    PositionTop(depth, p);
    ClimbAbove(p, sh, depth);
  }

  /** The left siblings from a node up to the root, each asked of the tree cut off after the last leaf. */
  function LeftRoots<H>(hs: Hashable<H>, s: Store<H>, depth: nat, sh: nat, addr: Address, cut: nat)
    : Result<seq<H>, seq<Address>>
    requires StoreFits(s, depth, sh) && Address(depth, 0).Contains(addr)
    decreases depth - addr.level
  {
    if addr.level >= depth then Ok([])
    else (
      SiblingContained(Address(depth, 0), addr);
      if addr.IsLeftChild() then LeftRoots(hs, s, depth, sh, addr.Parent(), cut)
      else
        match RootInternal(hs, s.shards, sh, Address(depth, 0), s.cap, addr.Sibling(), cut)
        case Err(e) => Err(e)
        case Ok(sibling) =>
          match LeftRoots(hs, s, depth, sh, addr.Parent(), cut)
          case Err(e) => Err(e)
          case Ok(above) => Ok([sibling.root] + above))
  }

  /** What `frontier` finds in a store: the parts in the last shard, then the left siblings above it. */
  function Extracted<H>(hs: Hashable<H>, s: Store<H>, depth: nat, sh: nat)
    : Result<Option<NonEmptyFrontier<H>>, seq<Address>>
    requires StoreFits(s, depth, sh) && |s.shards| <= Start(depth - sh, 1)
  {
    if s.shards == [] || s.shards[|s.shards| - 1].root.Nil? then Ok(None)
    else (
      var index := |s.shards| - 1;
      assert ShardFits(s.shards[index], sh, index);
      match FrontierOmmers(hs, sh, index, s.shards[index].root)
      case Err(e) => Err([e.addr])
      case Ok(parts) =>
        ShardWithin(depth, sh, index);
        match LeftRoots(hs, s, depth, sh, Address(sh, index), parts.position + 1)
        case Err(e) => Err(e)
        case Ok(above) => Ok(Some(NonEmptyFrontier(parts.position, parts.leaf, parts.ommers + above))))
  }

  /** What is read from a tree has its position in the tree's range and an ommer for every set bit below. */
  lemma {:induction false} OmmersShape<H>(hs: Hashable<H>, level: nat, index: nat, t: Tree<H>)
    requires Fits(level, t)
    ensures var r := FrontierOmmers(hs, level, index, t);
            && (r.Ok? ==>
                  && Start(level, index) <= r.value.position < End(level, index)
                  && Above(level, r.value.position) == index
                  && |r.value.ommers| == OmmersBelow(level, r.value.position))
    decreases t
  {
    if t.Parent? {
      Halves(level, index);
      if t.right.Nil? { OmmersShape(hs, level - 1, 2 * index, t.left); }
      else { OmmersShape(hs, level - 1, 2 * index + 1, t.right); }
    }
  }

  lemma {:induction false} LeftRootsShape<H>(hs: Hashable<H>, s: Store<H>, depth: nat, sh: nat, addr: Address, cut: nat)
    requires StoreFits(s, depth, sh) && Address(depth, 0).Contains(addr)
    ensures var r := LeftRoots(hs, s, depth, sh, addr, cut); r.Ok? ==> |r.value| == PastOmmerCount(addr.index)
    decreases depth - addr.level
  {
    if addr.level < depth {
      SiblingContained(Address(depth, 0), addr);
      LeftRootsShape(hs, s, depth, sh, addr.Parent(), cut);
    }
  }

  /** Whatever the store holds, the parts that are found make up a frontier of the tree: the check that
      closes `frontier` never fails. */
  lemma ExtractedWellFormed<H>(hs: Hashable<H>, s: Store<H>, depth: nat, sh: nat)
    requires StoreFits(s, depth, sh) && |s.shards| <= Start(depth - sh, 1)
    ensures var r := Extracted(hs, s, depth, sh);
            r.Ok? && r.value.Some? ==> r.value.value.WellFormed() && r.value.value.position < End(depth, 0)
  {
    var r := Extracted(hs, s, depth, sh);
    if r.Ok? && r.value.Some? {
      var index := |s.shards| - 1;
      assert ShardFits(s.shards[index], sh, index);
      OmmersShape(hs, sh, index, s.shards[index].root);
      ShardWithin(depth, sh, index);
      LeftRootsShape(hs, s, depth, sh, Address(sh, index), r.value.value.position + 1);
      OmmersSplit(sh, r.value.value.position);
      ContainsRange(Address(depth, 0), Address(sh, index));
    }
  }

  /** What was found so far, before the rest that may be found. */
  function After<A, E>(found: seq<A>, rest: Result<seq<A>, E>): Result<seq<A>, E>
  {
    if rest.Ok? then Ok(found + rest.value) else rest
  }

  lemma NothingBefore<A, E>(rest: Result<seq<A>, E>)
    ensures After([], rest) == rest
  {
    if rest.Ok? { assert [] + rest.value == rest.value; }
  }

  lemma OneMoreBefore<A, E>(found: seq<A>, a: A, rest: Result<seq<A>, E>)
    ensures After(found, After([a], rest)) == After(found + [a], rest)
  {
    if rest.Ok? { assert found + ([a] + rest.value) == (found + [a]) + rest.value; }
  }

  /** `Frontier::from_parts`, and the error that `frontier` turns its refusal into. */
  function FromParts<H>(f: NonEmptyFrontier<H>, depth: nat): Result<Option<NonEmptyFrontier<H>>, seq<Address>>
  {
    if f.WellFormed() && f.position < End(depth, 0) then Ok(Some(f)) else Err([Address(depth, 0)])
  }

  /** `ShardTree::frontier` */
  method ExtractFrontier<H>(hs: Hashable<H>, store: MemoryShardStore<H>, depth: nat, sh: nat)
    returns (r: Result<Option<NonEmptyFrontier<H>>, seq<Address>>)
    requires store.Valid() && StoreFits(store.Contents(), depth, sh) && |store.shards| <= Start(depth - sh, 1)
    ensures r == Extracted(hs, store.Contents(), depth, sh)
  {
    hide Fits, Root, Start, Above, Climb, ShardsRoot, OmmersBelow, FrontierOmmers, RootInternal;
    var last := store.LastShard();
    if last.None? { return Ok(None); }
    var index := |store.shards| - 1;
    assert ShardFits(store.shards[index], sh, index);
    if last.value.root.Nil? { return Ok(None); }
    var parts := FrontierOmmers(hs, sh, index, last.value.root);
    if parts.Err? { return Err([parts.error.addr]); }
    ghost var s := store.Contents();
    var position, ommers, addr := parts.value.position, parts.value.ommers, Address(sh, index);
    ShardWithin(depth, sh, index);
    ghost var whole, above := LeftRoots(hs, s, depth, sh, addr, position + 1), [];
    NothingBefore(whole);
    while addr.level < depth
      invariant Address(depth, 0).Contains(addr) && ommers == parts.value.ommers + above
      invariant whole == After(above, LeftRoots(hs, s, depth, sh, addr, position + 1))
      decreases depth - addr.level
    {
      SiblingContained(Address(depth, 0), addr);
      if addr.IsRightChild() {
        var sibling := RootInternal(hs, store.shards, sh, Address(depth, 0), store.cap, addr.Sibling(), position + 1);
        if sibling.Err? { return Err(sibling.error); }
        OneMoreBefore(above, sibling.value.root, LeftRoots(hs, s, depth, sh, addr.Parent(), position + 1));
        ommers, above := ommers + [sibling.value.root], above + [sibling.value.root];
      }
      addr := addr.Parent();
    }
    assert above + [] == above;
    ExtractedWellFormed(hs, s, depth, sh);
    r := FromParts(NonEmptyFrontier(position, parts.value.leaf, ommers), depth);
  }

  // ---------- What is extracted ----------

  /** In a store that holds a frontier the left siblings of its path are its ommers. */
  lemma {:induction false} HeldLeftRoots<H>(hs: Hashable<H>, s: Store<H>, depth: nat, sh: nat, f: NonEmptyFrontier<H>,
                                            flags: Flags, level: nat)
    requires StoreFits(s, depth, sh) && f.WellFormed() && HoldsFrontier(s, depth, sh, f, flags)
    requires sh <= level <= depth && Address(depth, 0).Contains(Address(level, Above(level, f.position)))
    ensures OmmersBelow(level, f.position) <= |f.ommers|
    ensures LeftRoots(hs, s, depth, sh, Address(level, Above(level, f.position)), f.position + 1) ==
      Ok(f.ommers[OmmersBelow(level, f.position)..])
    decreases depth - level
  {
    hide Root, Start, RootInternal, Spine, PastOmmerCount, Fits;
    OmmersSplit(level, f.position);
    var addr := Address(level, Above(level, f.position));
    if level == depth {
      assert f.ommers[|f.ommers|..] == [];
    } else {
      SiblingContained(Address(depth, 0), addr);
      OmmersSplit(level + 1, f.position);
      HeldLeftRoots(hs, s, depth, sh, f, flags, level + 1);
      if addr.IsRightChild() {
        ClimbAbove(f.position, level, depth);
        CapGivesOmmer(hs, s.shards, sh, f.position, f.ommers, depth, level);
        var k := OmmersBelow(level, f.position);
        assert f.ommers[k..] == [f.ommers[k]] + f.ommers[k + 1..];
      }
    }
  }

  /** From a store that holds a frontier just that frontier is extracted. */
  lemma HeldExtracts<H>(hs: Hashable<H>, s: Store<H>, depth: nat, sh: nat, f: NonEmptyFrontier<H>, flags: Flags)
    requires sh <= depth && f.WellFormed() && f.position < End(depth, 0) && HoldsFrontier(s, depth, sh, f, flags)
    ensures StoreFits(s, depth, sh) && |s.shards| <= Start(depth - sh, 1)
    ensures Extracted(hs, s, depth, sh) == Ok(Some(f))
  {
    HeldFits(depth, sh, f, flags, s);
    var index := Above(sh, f.position);
    OmmersSplit(sh, f.position);
    SpineOmmers(hs, f, flags, sh);
    ShardWithin(depth, sh, index);
    HeldLeftRoots(hs, s, depth, sh, f, flags, sh);
    var k := OmmersBelow(sh, f.position);
    assert f.ommers[..k] + f.ommers[k..] == f.ommers;
  }

  lemma HeldFits<H>(depth: nat, sh: nat, f: NonEmptyFrontier<H>, flags: Flags, s: Store<H>)
    requires sh <= depth && f.WellFormed() && f.position < End(depth, 0) && HoldsFrontier(s, depth, sh, f, flags)
    ensures StoreFits(s, depth, sh) && |s.shards| <= Start(depth - sh, 1)
  {
    OmmersSplit(sh, f.position);
    SpineFits(f.position, 0, Leaf(f.leaf, flags), sh, f.ommers, 0);
    SpineFits(f.position, sh, Nil, depth, f.ommers, 0);
    forall i | 0 <= i < |s.shards| ensures ShardFits(s.shards[i], sh, i) {
      if i < |s.shards| - 1 { assert s.shards[i] == Located(Address(sh, i), Nil); }
    }
    FewShards(depth, sh, f.position);
  }

  /** The left child of a node is a true left sibling of what lies below the right one. */
  lemma LeftSibling<H>(hs: Hashable<H>, leaves: seq<H>, level: nat, index: nat, left: Tree<H>, p: nat)
    requires level > 0 && Consistent(hs, leaves, level - 1, 2 * index, left) && Fits(level - 1, left)
    requires Start(level - 1, 2 * index + 1) <= p < |leaves|
    ensures var h := RootHash(hs, level - 1, 2 * index, left, Start(level - 1, 2 * index + 1));
            var upTo := leaves[..p + 1];
            h.Ok? ==> OmmersAbove(hs, upTo, level - 1, 2 * index + 1) == [h.value] + OmmersAbove(hs, upTo, level, index)
  {
    hide Root, RootHash, OmmersAbove, Consistent, Fits;
    var cut := Start(level - 1, 2 * index + 1);
    RootHashSound(hs, leaves, level - 1, 2 * index, left, cut);
    RootPrefix(hs, leaves, cut, level - 1, 2 * index);
    assert leaves[..p + 1] == Take(leaves, p + 1);
    RootPrefix(hs, leaves, p + 1, level - 1, 2 * index);
    OmmersOfChildren(hs, leaves[..p + 1], level, index);
  }

  /** What is read from a tree that is true of the leaves is the leaf at its position and the true left siblings. */
  lemma {:induction false} OmmersSound<H>(hs: Hashable<H>, leaves: seq<H>, level: nat, index: nat, t: Tree<H>)
    requires Consistent(hs, leaves, level, index, t) && Fits(level, t)
    ensures var r := FrontierOmmers(hs, level, index, t);
            r.Ok? ==>
              && r.value.position < |leaves| && r.value.leaf == leaves[r.value.position]
              && var upTo := leaves[..r.value.position + 1];
                 OmmersAbove(hs, upTo, 0, r.value.position) == r.value.ommers + OmmersAbove(hs, upTo, level, index)
    decreases t
  {
    hide OmmersAbove;
    var r := FrontierOmmers(hs, level, index, t);
    if r.Ok? {
      if t.Leaf? {
        var above := OmmersAbove(hs, leaves[..index + 1], 0, index);
        assert above == [] + above;
      } else if t.right.Nil? {
        OmmersSound(hs, leaves, level - 1, 2 * index, t.left);
        OmmersOfChildren(hs, leaves[..r.value.position + 1], level, index);
      } else {
        OmmersSound(hs, leaves, level - 1, 2 * index + 1, t.right);
        OmmersShape(hs, level - 1, 2 * index + 1, t.right);
        LeftSibling(hs, leaves, level, index, t.left, r.value.position);
        var below := FrontierOmmers(hs, level - 1, 2 * index + 1, t.right).value.ommers;
        var h, above := [r.value.ommers[|below|]], OmmersAbove(hs, leaves[..r.value.position + 1], level, index);
        assert below + (h + above) == (below + h) + above;
      }
    }
  }

  lemma {:induction false} LeftRootsSound<H>(hs: Hashable<H>, leaves: seq<H>, s: Store<H>, depth: nat, sh: nat,
                                             addr: Address, cut: nat)
    requires StoreTrue(hs, leaves, s, depth, sh) && Address(depth, 0).Contains(addr)
    ensures var r := LeftRoots(hs, s, depth, sh, addr, cut);
            r.Ok? ==> r.value == OmmersAbove(hs, Take(leaves, cut), addr.level, addr.index)
    decreases depth - addr.level
  {
    hide Start, Consistent, RootInternal, Root;
    if addr.level < depth {
      SiblingContained(Address(depth, 0), addr);
      LeftRootsSound(hs, leaves, s, depth, sh, addr.Parent(), cut);
      if addr.IsRightChild() {
        RootInternalSound(hs, leaves, s.shards, sh, Address(depth, 0), s.cap, addr.Sibling(), cut);
      }
    }
  }

  /** Whatever is extracted from a store that is true of some leaves is the frontier of those up to its
      position. */
  lemma ExtractedSound<H>(hs: Hashable<H>, leaves: seq<H>, s: Store<H>, depth: nat, sh: nat)
    requires StoreTrue(hs, leaves, s, depth, sh) && |s.shards| <= Start(depth - sh, 1)
    ensures var r := Extracted(hs, s, depth, sh); r.Ok? && r.value.Some? ==> FrontierWithin(hs, leaves, r.value.value)
  {
    var r := Extracted(hs, s, depth, sh);
    if r.Ok? && r.value.Some? {
      var index, p := |s.shards| - 1, r.value.value.position;
      assert ShardFits(s.shards[index], sh, index) && Consistent(hs, leaves, sh, index, s.shards[index].root);
      OmmersSound(hs, leaves, sh, index, s.shards[index].root);
      ShardWithin(depth, sh, index);
      LeftRootsSound(hs, leaves, s, depth, sh, Address(sh, index), p + 1);
      assert leaves[..p + 1] == Take(leaves, p + 1);
    }
  }

  // ---------- When a frontier can be extracted ----------

  /** Whether the tree, cut off after a position, gives the root of the left sibling that the way up from the
      position meets at a level, if it meets one there. */
  ghost predicate KnowsLeft<H>(hs: Hashable<H>, s: Store<H>, depth: nat, sh: nat, position: nat, level: nat)
    requires StoreFits(s, depth, sh)
  {
    var index := Above(level, position);
    index % 2 == 1 ==>
      var left := Address(level, index - 1);
      if level < sh then ShardsRoot(hs, s.shards, sh, left, position + 1).Ok?
      else
        && Address(depth, 0).Contains(left)
        && RootInternal(hs, s.shards, sh, Address(depth, 0), s.cap, left, position + 1).Ok?
  }

  ghost predicate KnowsLefts<H>(hs: Hashable<H>, s: Store<H>, depth: nat, sh: nat, position: nat, low: nat, high: nat)
    requires StoreFits(s, depth, sh)
  {
    forall level | low <= level < high :: KnowsLeft(hs, s, depth, sh, position, level)
  }

  lemma KnowsOneMore<H>(hs: Hashable<H>, s: Store<H>, depth: nat, sh: nat, position: nat, low: nat, high: nat)
    requires StoreFits(s, depth, sh) && low < high
    ensures KnowsLefts(hs, s, depth, sh, position, low, high) <==>
      KnowsLeft(hs, s, depth, sh, position, low) && KnowsLefts(hs, s, depth, sh, position, low + 1, high)
  {
    hide KnowsLeft;
  }

  lemma KnowsBoth<H>(hs: Hashable<H>, s: Store<H>, depth: nat, sh: nat, position: nat)
    requires StoreFits(s, depth, sh)
    ensures KnowsLefts(hs, s, depth, sh, position, 0, depth) <==>
      KnowsLefts(hs, s, depth, sh, position, 0, sh) && KnowsLefts(hs, s, depth, sh, position, sh, depth)
  {
    hide KnowsLeft;
  }

  function LeftOf(position: nat, level: nat): Address
    requires Above(level, position) > 0
  {
    Address(level, Above(level, position) - 1)
  }

  /** The first left sibling that is not known, on the way up between two levels. */
  ghost predicate FirstGap<H>(hs: Hashable<H>, s: Store<H>, depth: nat, sh: nat, position: nat, low: nat, high: nat,
                                  level: nat)
    requires StoreFits(s, depth, sh)
  {
    && low <= level < high && !KnowsLeft(hs, s, depth, sh, position, level)
    && KnowsLefts(hs, s, depth, sh, position, low, level)
  }

  /** An error names the first left sibling that is not known if that is in the last shard, and otherwise reports what
      the shards lack for it. */
  ghost predicate StopsAt<H>(hs: Hashable<H>, s: Store<H>, depth: nat, sh: nat, position: nat, low: nat,
                             missing: seq<Address>, level: nat)
    requires StoreFits(s, depth, sh)
  {
    && FirstGap(hs, s, depth, sh, position, low, depth, level) && Above(level, position) > 0
    && ShardsFit(s.shards, sh)
    && if level < sh then missing == [LeftOf(position, level)]
      else missing != [] && LacksWithin(s.shards, sh, LeftOf(position, level), position + 1, missing)
  }

  ghost predicate Stops<H>(hs: Hashable<H>, s: Store<H>, depth: nat, sh: nat, position: nat, low: nat,
                           missing: seq<Address>)
    requires StoreFits(s, depth, sh)
  {
    exists level: nat :: StopsAt(hs, s, depth, sh, position, low, missing, level)
  }

  /** What is met first from one level on is met first from below, if nothing is met below. */
  lemma StopsLower<H>(hs: Hashable<H>, s: Store<H>, depth: nat, sh: nat, position: nat, low: nat, mid: nat,
                      missing: seq<Address>)
    requires StoreFits(s, depth, sh) && low <= mid && KnowsLefts(hs, s, depth, sh, position, low, mid)
    requires Stops(hs, s, depth, sh, position, mid, missing)
    ensures Stops(hs, s, depth, sh, position, low, missing)
  {
    hide KnowsLeft, LacksWithin;
    var level: nat :| StopsAt(hs, s, depth, sh, position, mid, missing, level);
    assert StopsAt(hs, s, depth, sh, position, low, missing, level);
  }

  lemma {:induction false} LeftRootsIff<H>(hs: Hashable<H>, s: Store<H>, depth: nat, sh: nat, position: nat, level: nat)
    requires StoreFits(s, depth, sh) && sh <= level <= depth
    requires Address(depth, 0).Contains(Address(level, Above(level, position)))
    ensures LeftRoots(hs, s, depth, sh, Address(level, Above(level, position)), position + 1).Ok? <==>
      KnowsLefts(hs, s, depth, sh, position, level, depth)
    ensures var r := LeftRoots(hs, s, depth, sh, Address(level, Above(level, position)), position + 1);
            r.Err? ==> Stops(hs, s, depth, sh, position, level, r.error)
    decreases depth - level
  {
    hide RootInternal, ShardsRoot, Climb, Fits, LacksWithin;
    if level < depth {
      var addr := Address(level, Above(level, position));
      SiblingContained(Address(depth, 0), addr);
      LeftRootsIff(hs, s, depth, sh, position, level + 1);
      KnowsOneMore(hs, s, depth, sh, position, level, depth);
      assert KnowsLeft(hs, s, depth, sh, position, level) <==>
             (addr.IsRightChild() ==>
                RootInternal(hs, s.shards, sh, Address(depth, 0), s.cap, addr.Sibling(), position + 1).Ok?);
      var r := LeftRoots(hs, s, depth, sh, addr, position + 1);
      if r.Err? {
        if KnowsLeft(hs, s, depth, sh, position, level) {
          StopsLower(hs, s, depth, sh, position, level, level + 1, r.error);
        } else {
          RootInternalErrors(hs, s.shards, sh, Address(depth, 0), s.cap, addr.Sibling(), position + 1);
          assert StopsAt(hs, s, depth, sh, position, level, r.error, level);
        }
      }
    }
  }

  lemma {:induction false} TipWithin<H>(level: nat, index: nat, t: Tree<H>)
    requires Fits(level, t) && Tip(level, index, t).Some?
    ensures Above(level, Tip(level, index, t).value) == index
    ensures Start(level, index) <= Tip(level, index, t).value < End(level, index)
    decreases t
  {
    if t.Parent? {
      Halves(level, index);
      if t.right.Nil? {
        TipWithin(level - 1, 2 * index, t.left);
      } else { TipWithin(level - 1, 2 * index + 1, t.right); }
    }
  }

  /** One step further down a shard. */
  lemma {:induction false} SubtreeDown<H>(level: nat, index: nat, t: Tree<H>, addr: Address)
    requires Fits(level, t) && Address(level, index).Contains(addr) && addr.level > 0
    requires Subtree(level, index, t, addr).Some? && Subtree(level, index, t, addr).value.Parent?
    ensures var u := Subtree(level, index, t, addr).value;
            var l, r := Address(addr.level - 1, 2 * addr.index), Address(addr.level - 1, 2 * addr.index + 1);
            && Address(level, index).Contains(l) && Address(level, index).Contains(r)
            && Subtree(level, index, t, l) == Some(u.left) && Subtree(level, index, t, r) == Some(u.right)
    decreases t
  {
    var l, r := Address(addr.level - 1, 2 * addr.index), Address(addr.level - 1, 2 * addr.index + 1);
    assert l.Parent() == addr && r.Parent() == addr;
    if Address(level, index) != addr {
      ChildContains(Address(level, index), addr);
      ChildContains(Address(level, index), l);
      ChildContains(Address(level, index), r);
      if Address(level - 1, 2 * index).Contains(addr) { SubtreeDown(level - 1, 2 * index, t.left, addr); }
      else { SubtreeDown(level - 1, 2 * index + 1, t.right, addr); }
    }
  }

  /** A tree that is part of a shard. */
  ghost predicate PieceOf<H>(s: Store<H>, depth: nat, sh: nat, level: nat, index: nat, t: Tree<H>)
  {
    && StoreFits(s, depth, sh) && level <= sh && Fits(level, t)
    && var i := Climb(Address(level, index), sh).index;
       && i < |s.shards| && ShardFits(s.shards[i], sh, i) && Address(sh, i).Contains(Address(level, index))
       && Subtree(sh, i, s.shards[i].root, Address(level, index)) == Some(t)
  }

  /** The shards give the root of a left sibling within a shard exactly when it can be computed where it is. */
  lemma LeftPieceIff<H>(hs: Hashable<H>, s: Store<H>, depth: nat, sh: nat, level: nat, index: nat, t: Tree<H>, p: nat)
    requires PieceOf(s, depth, sh, level, index, t) && t.Parent? && Start(level - 1, 2 * index + 1) <= p
    ensures PieceOf(s, depth, sh, level - 1, 2 * index, t.left)
    ensures PieceOf(s, depth, sh, level - 1, 2 * index + 1, t.right)
    ensures RootHash(hs, level - 1, 2 * index, t.left, Start(level - 1, 2 * index + 1)).Ok? <==>
      ShardsRoot(hs, s.shards, sh, Address(level - 1, 2 * index), p + 1).Ok?
  {
    var i := Climb(Address(level, index), sh).index;
    SubtreeDown(sh, i, s.shards[i].root, Address(level, index));
    Halves(level, index);
    ComputableIff(hs, level - 1, 2 * index, t.left, Start(level - 1, 2 * index + 1));
    ComputableIff(hs, level - 1, 2 * index, t.left, p + 1);
  }

  /** The node in which the way down the right of a tree ends. */
  function PathEnd<H>(level: nat, index: nat, t: Tree<H>): Address
    requires Fits(level, t)
    decreases t
  {
    if !t.Parent? then Address(level, index)
    else if t.right.Nil? then PathEnd(level - 1, 2 * index, t.left)
    else PathEnd(level - 1, 2 * index + 1, t.right)
  }

  ghost predicate MissingLeft<H>(hs: Hashable<H>, s: Store<H>, depth: nat, sh: nat, position: nat, high: nat,
                                 error: FrontierError)
    requires StoreFits(s, depth, sh)
  {
    && error.MissingNode? && FirstGap(hs, s, depth, sh, position, 0, high, error.addr.level)
    && Above(error.addr.level, position) > 0 && error.addr == LeftOf(position, error.addr.level)
  }

  lemma {:induction false} OmmersIff<H>(hs: Hashable<H>, s: Store<H>, depth: nat, sh: nat, level: nat, index: nat,
                                        t: Tree<H>)
    requires PieceOf(s, depth, sh, level, index, t)
    ensures var r, tip := FrontierOmmers(hs, level, index, t), Tip(level, index, t);
            && (r.Ok? <==> tip.Some? && KnowsLefts(hs, s, depth, sh, tip.value, 0, level))
            && (r.Ok? ==> tip.Some? && r.value.position == tip.value)
            && (r.Err? && tip.None? ==> r.error == MissingNode(PathEnd(level, index, t)))
            && (r.Err? && tip.Some? ==> MissingLeft(hs, s, depth, sh, tip.value, level, r.error))
    decreases t
  {
    hide ShardsRoot, RootHash, Start, Subtree, Climb;
    if t.Parent? {
      var tip := Tip(level, index, t);
      LeftPieceIff(hs, s, depth, sh, level, index, t, Start(level - 1, 2 * index + 1));
      if t.right.Nil? {
        OmmersIff(hs, s, depth, sh, level - 1, 2 * index, t.left);
        if tip.Some? { TipWithin(level - 1, 2 * index, t.left); }
      } else {
        OmmersIff(hs, s, depth, sh, level - 1, 2 * index + 1, t.right);
        if tip.Some? {
          TipWithin(level - 1, 2 * index + 1, t.right);
          LeftPieceIff(hs, s, depth, sh, level, index, t, tip.value);
          assert KnowsLeft(hs, s, depth, sh, tip.value, level - 1) <==>
                 ShardsRoot(hs, s.shards, sh, Address(level - 1, 2 * index), tip.value + 1).Ok?;
        }
      }
    }
  }

  /** A frontier can be extracted exactly when there is none to find, or the last shard's path down the right
      ends in a leaf at level 0 and the tree gives the root of every left sibling on the way up from it. */
  lemma ExtractedIff<H>(hs: Hashable<H>, s: Store<H>, depth: nat, sh: nat)
    requires StoreFits(s, depth, sh) && |s.shards| <= Start(depth - sh, 1)
    requires s.shards != [] ==> Fits(sh, s.shards[|s.shards| - 1].root)
    ensures Extracted(hs, s, depth, sh).Ok? <==>
      s.shards == [] || s.shards[|s.shards| - 1].root.Nil? || (
        var tip := Tip(sh, |s.shards| - 1, s.shards[|s.shards| - 1].root);
        tip.Some? && KnowsLefts(hs, s, depth, sh, tip.value, 0, depth))
    ensures var r := Extracted(hs, s, depth, sh);
            r.Ok? && r.value.Some? ==>
              Tip(sh, |s.shards| - 1, s.shards[|s.shards| - 1].root) == Some(r.value.value.position)
    ensures var r := Extracted(hs, s, depth, sh);
            r.Err? ==>
              && s.shards != [] && Fits(sh, s.shards[|s.shards| - 1].root)
              && match Tip(sh, |s.shards| - 1, s.shards[|s.shards| - 1].root)
                 case None => r.error == [PathEnd(sh, |s.shards| - 1, s.shards[|s.shards| - 1].root)]
                 case Some(tip) => Stops(hs, s, depth, sh, tip, 0, r.error)
  {
    hide KnowsLeft, LacksWithin, RootInternal, ShardsRoot;
    if s.shards != [] && !s.shards[|s.shards| - 1].root.Nil? {
      var index := |s.shards| - 1;
      assert ShardFits(s.shards[index], sh, index);
      SameLevelContains(Address(sh, index), Address(sh, index));
      OmmersIff(hs, s, depth, sh, sh, index, s.shards[index].root);
      ShardWithin(depth, sh, index);
      var tip := Tip(sh, index, s.shards[index].root);
      if tip.Some? {
        TipWithin(sh, index, s.shards[index].root);
        LeftRootsIff(hs, s, depth, sh, tip.value, sh);
        KnowsBoth(hs, s, depth, sh, tip.value);
        var r, parts := Extracted(hs, s, depth, sh), FrontierOmmers(hs, sh, index, s.shards[index].root);
        if parts.Err? {
          assert StopsAt(hs, s, depth, sh, tip.value, 0, r.error, parts.error.addr.level);
        } else if r.Err? {
          StopsLower(hs, s, depth, sh, tip.value, 0, sh, r.error);
        }
      }
    }
  }

  /** Where a tree holds exactly the leaves up to the last one, all it takes is that the last one is at level 0. */
  lemma {:induction false} DenseOmmers<H>(hs: Hashable<H>, level: nat, index: nat, n: nat, t: Tree<H>)
    requires Dense(level, index, n, t) && Fits(level, t) && Start(level, index) < n <= End(level, index)
    ensures FrontierOmmers(hs, level, index, t).Ok? <==> Tip(level, index, t).Some?
    ensures FrontierOmmers(hs, level, index, t).Ok? ==> FrontierOmmers(hs, level, index, t).value.position == n - 1
    decreases t
  {
    if t.Parent? {
      Halves(level, index);
      if t.right.Nil? {
        DenseOmmers(hs, level - 1, 2 * index, n, t.left);
      } else {
        assert Start(level - 1, 2 * index + 1) < n by { NilOrBegun(level - 1, 2 * index + 1, n, t.right); }
        DenseOmmers(hs, level - 1, 2 * index + 1, n, t.right);
        DenseWhole(hs, level - 1, 2 * index, n, t.left);
      }
    }
  }

  lemma NilOrBegun<H>(level: nat, index: nat, n: nat, t: Tree<H>)
    requires Dense(level, index, n, t)
    ensures t.Nil? || Start(level, index) < n
  {
    StartMono(level, index, index + 1);
  }

  lemma {:induction false} FilledLeftRoots<H>(hs: Hashable<H>, leaves: seq<H>, s: Store<H>, depth: nat, sh: nat,
                                              addr: Address)
    requires StoreFits(s, depth, sh) && Filled(hs, sh, leaves, s.shards)
    requires Address(depth, 0).Contains(addr) && sh <= addr.level
    ensures LeftRoots(hs, s, depth, sh, addr, |leaves|).Ok?
    decreases depth - addr.level
  {
    hide Start, RootInternal, Fits, ShardOk;
    if addr.level < depth {
      SiblingContained(Address(depth, 0), addr);
      FilledLeftRoots(hs, leaves, s, depth, sh, addr.Parent());
      var target := addr.Sibling();
      FilledKnown(hs, sh, leaves, s.shards, |leaves|, Start(target.level - sh, target.index),
                  End(target.level - sh, target.index));
      RootInternalAnswers(hs, s.shards, sh, Address(depth, 0), s.cap, target, |leaves|);
    }
  }

  /** Whether the last leaf of the shards is still a leaf of its own. */
  ghost predicate LastOnItsOwn<H>(sh: nat, leaves: seq<H>, shards: seq<Located<H>>)
    requires leaves != []
  {
    var n := |leaves|;
    OnItsOwn(sh, n, FlagsAt(sh, shards, n - 1), if n > 1 then FlagsAt(sh, shards, n - 2) else EPHEMERAL)
  }

  // ---------- The frontier of an insertion ----------

  /** A left sibling that its shard computes is known. */
  lemma KnowsInShard<H>(hs: Hashable<H>, s: Store<H>, depth: nat, sh: nat, p: nat, k: nat)
    requires StoreFits(s, depth, sh) && k < sh && Above(k, p) % 2 == 1
    requires Above(sh, p) < |s.shards| && Fits(sh, s.shards[Above(sh, p)].root)
    requires Computes(sh, Above(sh, p), s.shards[Above(sh, p)].root, Address(k, Above(k, p) - 1))
    ensures KnowsLeft(hs, s, depth, sh, p, k)
  {
    var left, i := Address(k, Above(k, p) - 1), Above(sh, p);
    assert ShardFits(s.shards[i], sh, i);
    AboveRange(sh, p);
    LeftWithin(sh, i, p, k);
    AboveRange(k, p);
    ComputableIff(hs, k, left.index, Subtree(sh, i, s.shards[i].root, left).value, p + 1);
  }

  /** One that the cap computes is known too. */
  lemma KnowsInCap<H>(hs: Hashable<H>, s: Store<H>, depth: nat, sh: nat, p: nat, k: nat)
    requires StoreFits(s, depth, sh) && sh <= k < depth && Above(k, p) % 2 == 1 && p < End(depth, 0)
    requires Fits(depth, s.cap) && Computes(depth, 0, s.cap, Address(k, Above(k, p) - 1))
    ensures KnowsLeft(hs, s, depth, sh, p, k)
  {
    StartZero(depth);
    LeftWithin(depth, 0, p, k);
    AboveRange(k, p);
    CapAnswers(hs, s.shards, sh, Address(depth, 0), s.cap, Address(k, Above(k, p) - 1), p + 1);
  }

  /** After an insertion every left sibling is known that meets an open part of the path to its position. */
  lemma LandedKnows<H>(hs: Hashable<H>, before: Store<H>, s: Store<H>, depth: nat, sh: nat, f: NonEmptyFrontier<H>,
                       flags: Flags, k: nat)
    requires StoreFits(before, depth, sh) && StoreFits(s, depth, sh) && f.WellFormed() && f.position < End(depth, 0)
    requires FrontierLanded(before, s, depth, sh, f, flags) && k < depth
    requires if k < sh then Open(sh, Above(sh, f.position), s.shards[Above(sh, f.position)].root, f.position, k)
      else Open(depth, 0, s.cap, f.position, k)
    ensures KnowsLeft(hs, s, depth, sh, f.position, k)
  {
    if Above(k, f.position) % 2 == 1 {
      if k < sh { KnowsInShard(hs, s, depth, sh, f.position, k); } else { KnowsInCap(hs, s, depth, sh, f.position, k); }
    }
  }

  /** The path down the right ends at a position exactly if that is a leaf of its own and everything to the right of the
      path is empty. */
  lemma {:induction false} TipIsLast<H>(level: nat, index: nat, t: Tree<H>, p: nat)
    requires Fits(level, t) && Start(level, index) <= p < End(level, index)
    ensures Tip(level, index, t) == Some(p) <==>
      && Given(level, index, t, p) && EndLevel(level, index, t, p) == 0 && NothingRight(level, index, t, p)
    decreases t
  {
    if t.Parent? {
      Halves(level, index);
      if t.right.Nil? {
        if p < End(level - 1, 2 * index) { TipIsLast(level - 1, 2 * index, t.left, p); }
        else if Tip(level - 1, 2 * index, t.left).Some? { TipWithin(level - 1, 2 * index, t.left); }
      } else {
        if p < End(level - 1, 2 * index) {
          if Tip(level - 1, 2 * index + 1, t.right).Some? { TipWithin(level - 1, 2 * index + 1, t.right); }
        } else { TipIsLast(level - 1, 2 * index + 1, t.right, p); }
      }
    }
  }

  /** The right siblings on the way up from a position are empty. */
  predicate NothingRight<H>(level: nat, index: nat, t: Tree<H>, p: nat)
    requires Fits(level, t)
    decreases t
  {
    t.Parent? ==>
      if p < End(level - 1, 2 * index) then t.right.Nil? && NothingRight(level - 1, 2 * index, t.left, p)
      else NothingRight(level - 1, 2 * index + 1, t.right, p)
  }

  /** If nothing lies after the frontier's leaf, that leaf is of its own, and the cap did not cover it already, then the
      frontier that was inserted is the one that is extracted. */
  lemma FrontierComesBack<H>(hs: Hashable<H>, leaves: seq<H>, before: Store<H>, s: Store<H>, depth: nat, sh: nat,
                             f: NonEmptyFrontier<H>, flags: Flags)
    requires StoreFits(before, depth, sh) && f.WellFormed() && f.position < End(depth, 0)
    requires FrontierLanded(before, s, depth, sh, f, flags)
    requires StoreTrue(hs, leaves, s, depth, sh) && FrontierWithin(hs, leaves, f) && |s.shards| <= Start(depth - sh, 1)
    requires |s.shards| == Above(sh, f.position) + 1
    requires Tip(sh, |s.shards| - 1, s.shards[|s.shards| - 1].root) == Some(f.position)
    requires !Given(depth, 0, before.cap, f.position)
    ensures Extracted(hs, s, depth, sh) == Ok(Some(f))
  {
    hide RootInternal, ShardsRoot, Consistent, Root, LeftRoots, FrontierOmmers;
    var index, p := |s.shards| - 1, f.position;
    AboveRange(sh, p);
    assert ShardFits(s.shards[index], sh, index);
    TipIsLast(sh, index, s.shards[index].root, p);
    forall k | 0 <= k < depth ensures KnowsLeft(hs, s, depth, sh, p, k) {
      LandedKnows(hs, before, s, depth, sh, f, flags, k);
    }
    ExtractedIff(hs, s, depth, sh);
    ExtractedSound(hs, leaves, s, depth, sh);
  }

  /** A cap that covers it already can prune the left sibling away. In a tree of depth 1 over shards of height 0, of
      whose two leaves the second is cached in the cap, the frontier of both is inserted; the cap then holds the root
      alone, the first leaf is in no shard, and the frontier can not be extracted. */
  lemma FrontierLostInCap<H>(hs: Hashable<H>, a: H, b: H)
    ensures var shards := [Located(Address(0, 0), Nil), Located(Address(0, 1), Leaf(b, CHECKPOINT))];
            var cap, root := Parent(None, Nil, Leaf(b, EPHEMERAL)), Leaf(hs.combine(0, a, b), EPHEMERAL);
            var f := NonEmptyFrontier(1, b, [a]);
            && StoreTrue(hs, [a, b], Store(shards, map[], cap), 1, 0) && f.WellFormed() && FrontierWithin(hs, [a, b], f)
            && UpperPart(1, [a], 0) == Some(Located(Address(1, 0), Parent(None, Leaf(a, EPHEMERAL), Nil)))
            && InsertSubtree(hs, Located(Address(1, 0), cap), UpperPart(1, [a], 0).value, false) ==
              Ok((Located(Address(1, 0), root), []))
            && StoreTrue(hs, [a, b], Store(shards, map[], root), 1, 0)
            && Extracted(hs, Store(shards, map[], root), 1, 0).Err?
  {
    var shards := [Located(Address(0, 0), Nil), Located(Address(0, 1), Leaf(b, CHECKPOINT))];
    var cap, root := Parent(None, Nil, Leaf(b, EPHEMERAL)), Leaf(hs.combine(0, a, b), EPHEMERAL);
    var f, s := NonEmptyFrontier(1, b, [a]), Store(shards, map[], root);
    SmallPositions();
    assert Root(hs, [a, b], 0, 0) == a && Root(hs, [a, b], 0, 1) == b;
    assert Root(hs, [a, b], 1, 0) == hs.combine(0, a, b);
    assert ShardFits(shards[0], 0, 0) && ShardFits(shards[1], 0, 1);
    assert [a, b][..2] == [a, b] && OmmersAbove(hs, [a, b], 0, 1) == [a] + OmmersAbove(hs, [a, b], 1, 0);
    assert f == FrontierOf(hs, [a, b]);
    assert Fits(0, cap.left) && Fits(0, cap.right);
    PairMerges(hs, a, b, cap, Parent(None, Leaf(a, EPHEMERAL), Nil));
    SameLevelContains(Address(1, 0), Address(1, 0));
    SpineOfPair(a);
    ShardWithin(1, 0, 1);
    ExtractedIff(hs, s, 1, 0);
    assert !KnowsLeft(hs, s, 1, 0, 1, 0) by { FirstUnknown(hs, a, b, shards, root); }
  }

  lemma SmallPositions()
    ensures Start(0, 0) == 0 && End(0, 0) == 1 && End(0, 1) == 2 && Start(1, 0) == 0 && End(1, 0) == 2
    ensures Above(0, 1) == 1 && Above(1, 1) == 0 && PastOmmerCount(1) == 1 && RootLevel(1) == 1
  {
  }

  lemma SpineOfPair<H>(a: H)
    ensures PastOmmerCount(1) == 1
    ensures UpperPart(1, [a], 0) == Some(Located(Address(1, 0), Parent(None, Leaf(a, EPHEMERAL), Nil)))
  {
    SmallPositions();
    assert OmmersBelow(0, 1) == 0 && OmmersBelow(1, 1) == 1;
    assert Spine(1, 0, Nil, 0, [a]) == Nil;
  }

  lemma PairMerges<H>(hs: Hashable<H>, a: H, b: H, t0: Tree<H>, t1: Tree<H>)
    requires t0 == Parent(None, Nil, Leaf(b, EPHEMERAL)) && t1 == Parent(None, Leaf(a, EPHEMERAL), Nil)
    requires Fits(1, t0) && Fits(1, t1)
    ensures Merge(hs, 1, 0, t0, t1) == Ok(Leaf(hs.combine(0, a, b), EPHEMERAL))
  {
    SmallPositions();
    assert RootHash(hs, 0, 0, t0.left, 2).Err? && RootHash(hs, 1, 0, t0, 2).Err?;
    assert Merge(hs, 0, 0, Nil, Leaf(a, EPHEMERAL)) == Ok(Leaf(a, EPHEMERAL));
    assert Merge(hs, 0, 1, Leaf(b, EPHEMERAL), Nil) == Ok(Leaf(b, EPHEMERAL));
  }

  /** The first leaf is neither in its shard nor in the cap. */
  lemma FirstUnknown<H>(hs: Hashable<H>, a: H, b: H, shards: seq<Located<H>>, root: Tree<H>)
    requires shards == [Located(Address(0, 0), Nil), Located(Address(0, 1), Leaf(b, CHECKPOINT))] && root.Leaf?
    ensures ShardsFit(shards, 0) && Address(1, 0).Contains(Address(0, 0))
    ensures RootInternal(hs, shards, 0, Address(1, 0), root, Address(0, 0), 2).Err?
  {
    SmallPositions();
    assert ShardFits(shards[0], 0, 0) && ShardFits(shards[1], 0, 1);
    assert Address(0, 0).Parent() == Address(1, 0);
    SameLevelContains(Address(0, 0), Address(0, 0));
    assert ShardsRoot(hs, shards, 0, Address(0, 0), 2).Err?;
    assert RootInternal(hs, shards, 0, Address(0, 0), Nil, Address(0, 0), 2).Err?;
  }

  /** From shards that hold exactly the leaves a frontier can be extracted, whatever the cap, exactly when the
      last leaf has not been pruned with its sibling; and under a true cap it is the frontier of the leaves. */
  lemma FilledExtracts<H>(hs: Hashable<H>, leaves: seq<H>, s: Store<H>, depth: nat, sh: nat)
    requires sh <= depth && |leaves| <= End(depth, 0) && Fits(depth - sh, s.cap) && Filled(hs, sh, leaves, s.shards)
    ensures StoreFits(s, depth, sh) && |s.shards| <= Start(depth - sh, 1)
    ensures var r := Extracted(hs, s, depth, sh);
            if leaves == [] then r == Ok(None)
            else
              && (r.Ok? <==> LastOnItsOwn(sh, leaves, s.shards))
              && (r.Ok? && CapOk(hs, leaves, sh, Address(depth, 0), s.cap) ==> r == Ok(Some(FrontierOf(hs, leaves))))
  {
    hide Root, Start, PastOmmerCount, Consistent, LeftRoots, OmmersAbove, FrontierOmmers;
    FilledFits(hs, sh, leaves, s.shards);
    if leaves != [] {
      var n := |leaves|;
      var index := Above(sh, n - 1);
      FewShards(depth, sh, n - 1);
      assert ShardOk(hs, sh, leaves, s.shards[index], index);
      var t := s.shards[index].root;
      AboveRange(sh, n - 1);
      NilOrBegun(sh, index, n, t);
      TipIff(sh, index, n, t);
      DenseOmmers(hs, sh, index, n, t);
      SameShard(sh, n);
      ShardWithin(depth, sh, index);
      FilledLeftRoots(hs, leaves, s, depth, sh, Address(sh, index));
      if CapOk(hs, leaves, sh, Address(depth, 0), s.cap) {
        ExtractedSound(hs, leaves, s, depth, sh);
        assert leaves[..n] == leaves;
      }
    }
  }

  /** The last of an even number of leaves has its sibling in its shard. */
  lemma SameShard(sh: nat, n: nat)
    requires n > 0
    ensures sh > 0 && n % 2 == 0 ==> n >= 2 && Above(sh, n - 2) == Above(sh, n - 1)
  {
    if n > 1 {
      AboveHalf(n - 1, sh);
      AboveHalf(n - 2, sh);
    }
  }

  /** A position of the tree lies in one of its shards. */
  lemma FewShards(depth: nat, sh: nat, position: nat)
    requires sh <= depth && position < End(depth, 0)
    ensures Above(sh, position) < Start(depth - sh, 1)
  {
    StartOfStart(sh, depth - sh, 1);
    AboveRange(sh, position);
    if Start(depth - sh, 1) <= Above(sh, position) { StartMono(sh, Start(depth - sh, 1), Above(sh, position)); }
  }

  /** Inserting any frontier into an empty tree and extracting the frontier gives it back, whether it fits
      in the first shard or spans shards and cap. */
  method FrontierRoundTrip<H(==)>(hs: Hashable<H>, depth: nat, sh: nat, f: NonEmptyFrontier<H>, flags: Flags,
                                  checkpoint: Option<int>)
    returns (r: Result<Option<NonEmptyFrontier<H>>, seq<Address>>)
    requires sh <= depth && f.WellFormed() && f.position < End(depth, 0)
    ensures r == Ok(Some(f))
  {
    var store := new MemoryShardStore();
    var inserted := InsertFrontierNodes(hs, store, depth, sh, f, flags, checkpoint, []);
    HeldExtracts(hs, store.Contents(), depth, sh, f, flags);
    r := ExtractFrontier(hs, store, depth, sh);
  }
}
