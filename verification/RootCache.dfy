/** `ShardTree::root_internal`: computing a root by walking down the cap, and what it writes back. */
module RootCaches {

  import opened Basics
  import opened Merkle
  import opened PrunableTrees
  import opened MissingNodes
  import opened Caps

  // ---------- What the shards know ----------

  /** The root of every shard that starts before the truncation point can be computed. */
  ghost predicate Known<H>(hs: Hashable<H>, shards: seq<Located<H>>, sh: nat, first: nat, last: nat, cut: nat)
    requires ShardsFit(shards, sh)
  {
    forall i | first <= i < last && Start(sh, i) < cut :: ShardRoot(hs, shards, sh, i, cut).Ok?
  }

  ghost predicate KnownBelow<H>(hs: Hashable<H>, shards: seq<Located<H>>, sh: nat, addr: Address, cut: nat)
    requires ShardsFit(shards, sh) && sh <= addr.level
  {
    Known(hs, shards, sh, Start(addr.level - sh, addr.index), End(addr.level - sh, addr.index), cut)
  }

  lemma {:induction false} MissingIff<H>(hs: Hashable<H>, shards: seq<Located<H>>, sh: nat, i: nat, last: nat, cut: nat)
    requires ShardsFit(shards, sh)
    ensures MissingFrom(hs, shards, sh, i, last, cut) == [] <==> Known(hs, shards, sh, i, last, cut)
    decreases last - i
  {
    if i < last {
      if cut <= Start(sh, i) {
        forall k | i <= k < last ensures cut <= Start(sh, k) { StartMono(sh, i, k); }
      } else {
        ShardRootErrors(hs, shards, sh, i, cut);
        MissingIff(hs, shards, sh, i + 1, last, cut);
      }
    }
  }

  lemma KnownHalves<H>(hs: Hashable<H>, shards: seq<Located<H>>, sh: nat, addr: Address, cut: nat)
    requires ShardsFit(shards, sh) && sh < addr.level
    ensures KnownBelow(hs, shards, sh, addr, cut) <==>
      KnownBelow(hs, shards, sh, Address(addr.level - 1, 2 * addr.index), cut)
        && KnownBelow(hs, shards, sh, Address(addr.level - 1, 2 * addr.index + 1), cut)
  {
    Halves(addr.level - sh, addr.index);
  }

  /** Where the shards know enough, the recursion over them yields the true root. */
  lemma {:induction false} UpperRootSound<H>(hs: Hashable<H>, leaves: seq<H>, shards: seq<Located<H>>, sh: nat,
                                             addr: Address, cut: nat)
    requires ShardsFit(shards, sh) && ShardsConsistent(hs, leaves, shards, sh)
    requires sh <= addr.level && KnownBelow(hs, shards, sh, addr, cut)
    ensures UpperRoot(hs, shards, sh, addr.level, addr.index, cut) ==
      Root(hs, Take(leaves, cut), addr.level, addr.index)
    ensures addr.RangeEnd() <= cut ==> addr.RangeEnd() <= |leaves|
    decreases addr.level
  {
    StartMono(addr.level, addr.index, addr.index + 1);
    if cut <= addr.RangeStart() {
      RootEmpty(hs, Take(leaves, cut), addr.level, addr.index);
    } else if addr.level == sh {
      ShardRootSound(hs, leaves, shards, sh, addr.index, cut);
      assert ShardRoot(hs, shards, sh, addr.index, cut).Ok?;
    } else {
      KnownHalves(hs, shards, sh, addr, cut);
      Halves(addr.level, addr.index);
      UpperRootSound(hs, leaves, shards, sh, Address(addr.level - 1, 2 * addr.index), cut);
      UpperRootSound(hs, leaves, shards, sh, Address(addr.level - 1, 2 * addr.index + 1), cut);
    }
  }

  lemma {:induction false} SubtreeConsistent<H>(hs: Hashable<H>, leaves: seq<H>, level: nat, index: nat, t: Tree<H>,
                                                addr: Address)
    requires Consistent(hs, leaves, level, index, t) && Fits(level, t) && Address(level, index).Contains(addr)
    ensures var r := Subtree(level, index, t, addr); r.Some? ==> Consistent(hs, leaves, addr.level, addr.index, r.value)
    decreases t
  {
    if Address(level, index) != addr && t.Parent? {
      ChildContains(Address(level, index), addr);
      if Address(level - 1, 2 * index).Contains(addr) {
        SubtreeConsistent(hs, leaves, level - 1, 2 * index, t.left, addr);
      }
      else { SubtreeConsistent(hs, leaves, level - 1, 2 * index + 1, t.right, addr); }
    }
  }

  /** At or above the shard level, the root from the shards exists exactly when they know enough. */
  lemma ShardsRootKnown<H>(hs: Hashable<H>, shards: seq<Located<H>>, sh: nat, address: Address, cut: nat)
    requires ShardsFit(shards, sh) && sh <= address.level
    ensures ShardsRoot(hs, shards, sh, address, cut).Ok? <==> KnownBelow(hs, shards, sh, address, cut)
    ensures ShardsRoot(hs, shards, sh, address, cut).Ok? ==>
      ShardsRoot(hs, shards, sh, address, cut).value == UpperRoot(hs, shards, sh, address.level, address.index, cut)
  {
    if address.level == sh {
      if address.index < |shards| { assert ShardFits(shards[address.index], sh, address.index); }
      assert Start(sh, address.index) < cut ==>
        (KnownBelow(hs, shards, sh, address, cut) <==> ShardRoot(hs, shards, sh, address.index, cut).Ok?);
    } else {
      MissingIff(hs, shards, sh, Start(address.level - sh, address.index), End(address.level - sh, address.index), cut);
    }
  }

  /** Whatever root the shards yield, for a node at any level, is the true one. */
  lemma ShardsRootSound<H>(hs: Hashable<H>, leaves: seq<H>, shards: seq<Located<H>>, sh: nat,
                           address: Address, cut: nat)
    requires ShardsFit(shards, sh) && ShardsConsistent(hs, leaves, shards, sh)
    ensures var r := ShardsRoot(hs, shards, sh, address, cut);
            r.Ok? ==> r.value == Root(hs, Take(leaves, cut), address.level, address.index)
    ensures var r := ShardsRoot(hs, shards, sh, address, cut);
            r.Ok? && sh <= address.level && address.RangeEnd() <= cut ==> address.RangeEnd() <= |leaves|
  {
    var r := ShardsRoot(hs, shards, sh, address, cut);
    if sh <= address.level {
      ShardsRootKnown(hs, shards, sh, address, cut);
      if r.Ok? { UpperRootSound(hs, leaves, shards, sh, address, cut); }
    } else if cut <= address.RangeStart() {
      RootEmpty(hs, Take(leaves, cut), address.level, address.index);
    } else {
      var shardAddr := Climb(address, sh);
      ClimbContains(address, sh);
      if shardAddr.index < |shards| {
        assert ShardFits(shards[shardAddr.index], sh, shardAddr.index);
        SubtreeConsistent(hs, leaves, sh, shardAddr.index, shards[shardAddr.index].root, address);
        var child := Subtree(sh, shardAddr.index, shards[shardAddr.index].root, address);
        if child.Some? { RootHashSound(hs, leaves, address.level, address.index, child.value, cut); }
      }
    }
  }

  // ---------- `root_internal` ----------

  datatype Rooted<H> = Rooted(root: H, replacement: Option<Tree<H>>)

  /** The annotation of a rebuilt cap node: known only if both children were rebuilt with known hashes. */
  function RebuiltAnnotation<H>(hs: Hashable<H>, level: nat, left: Option<Tree<H>>, right: Option<Tree<H>>): Option<H>
  {
    if left.Some? && right.Some? && left.value.NodeValue().Some? && right.value.NodeValue().Some?
    then Some(hs.combine(level, left.value.NodeValue().value, right.value.NodeValue().value))
    else None
  }

  function Rebuilt<H>(hs: Hashable<H>, level: nat, left: Tree<H>, right: Tree<H>, newLeft: Option<Tree<H>>,
                      newRight: Option<Tree<H>>): Tree<H>
  {
    Parent(RebuiltAnnotation(hs, level, newLeft, newRight), OrElse(newLeft, left), OrElse(newRight, right))
  }

  function OrElse<T>(a: Option<T>, b: T): T
  {
    if a.Some? then a.value else b
  }

  /** `root_internal`: walks down from the cap node at `addr` to the target, using cached hashes where it
      can and the shards where it must; also returns the cap node to cache instead, if it learned anything. */
  function RootInternal<H>(hs: Hashable<H>, shards: seq<Located<H>>, sh: nat, addr: Address, cap: Tree<H>,
                           target: Address, cut: nat)
    : Result<Rooted<H>, seq<Address>>
    requires ShardsFit(shards, sh) && sh <= addr.level && Fits(addr.level - sh, cap) && addr.Contains(target)
    decreases addr.level, if cap.Parent? then 0 else 1
  {
    match cap
    case Parent(ann, left, right) => (
      var l, r := Address(addr.level - 1, 2 * addr.index), Address(addr.level - 1, 2 * addr.index + 1);
      if ann.Some? && target.Contains(addr) && cut >= addr.RangeEnd() then Ok(Rooted(ann.value, None))
      else if l.Contains(target) then (
        match RootInternal(hs, shards, sh, l, left, target, cut)
        case Err(e) => Err(e)
        case Ok(a) => Ok(Rooted(a.root, Some(Parent(None, OrElse(a.replacement, left), right)))))
      else if r.Contains(target) then (
        match RootInternal(hs, shards, sh, r, right, target, cut)
        case Err(e) => Err(e)
        case Ok(b) => Ok(Rooted(b.root, Some(Parent(None, left, OrElse(b.replacement, right))))))
      else (
        match RootInternal(hs, shards, sh, l, left, l, cut)
        case Err(e) => Err(e)
        case Ok(a) => (
          match RootInternal(hs, shards, sh, r, right, r, cut)
          case Err(e) => Err(e)
          case Ok(b) =>
            Ok(Rooted(hs.combine(l.level, a.root, b.root),
                      Some(Rebuilt(hs, l.level, left, right, a.replacement, b.replacement)))))))
    case Leaf(value, _) => (
      if cut >= addr.RangeEnd() && target.Contains(addr) then Ok(Rooted(value, None))
      else if addr.level == sh then (
        match ShardsRoot(hs, shards, sh, if target.Contains(addr) then addr else target, cut)
        case Err(e) => Err(e)
        case Ok(root) => Ok(Rooted(root, None)))
      else (
        match RootInternal(hs, shards, sh, addr, Parent(None, Nil, Nil), target, cut)
        case Err(e) => Err(e)
        case Ok(a) =>
          Ok(Rooted(a.root, if a.replacement.Some? then Some(a.replacement.value.Reannotate(Some(value))) else None))))
    case Nil => (
      if addr == target || addr.level == sh then (
        match ShardsRoot(hs, shards, sh, target, cut)
        case Err(e) => Err(e)
        case Ok(root) => Ok(Rooted(root, if cut >= addr.RangeEnd() then Some(Leaf(root, EPHEMERAL)) else None)))
      else RootInternal(hs, shards, sh, addr, Parent(None, Nil, Nil), target, cut))
  }

  // ---------- Soundness of the cap ----------

  /** The cap node and its replacement are views of the tree, with no parent at or below the shard level. */
  ghost predicate CapOk<H>(hs: Hashable<H>, leaves: seq<H>, sh: nat, addr: Address, cap: Tree<H>)
  {
    sh <= addr.level && Fits(addr.level - sh, cap) && Consistent(hs, leaves, addr.level, addr.index, cap)
  }

  ghost predicate RootedOk<H>(hs: Hashable<H>, leaves: seq<H>, sh: nat, addr: Address, target: Address, cut: nat,
                              r: Rooted<H>)
  {
    && r.root == Root(hs, Take(leaves, cut), target.level, target.index)
    && (sh <= target.level && r.replacement.Some? ==> CapOk(hs, leaves, sh, addr, r.replacement.value))
  }

  lemma CapChildren<H>(hs: Hashable<H>, leaves: seq<H>, sh: nat, addr: Address, cap: Tree<H>)
    requires CapOk(hs, leaves, sh, addr, cap) && cap.Parent?
    ensures sh < addr.level
    ensures CapOk(hs, leaves, sh, Address(addr.level - 1, 2 * addr.index), cap.left)
    ensures CapOk(hs, leaves, sh, Address(addr.level - 1, 2 * addr.index + 1), cap.right)
  {
  }

  /** The annotation put on a rebuilt node is its true hash. */
  lemma RebuiltOk<H>(hs: Hashable<H>, leaves: seq<H>, sh: nat, addr: Address, left: Tree<H>, right: Tree<H>,
                     newLeft: Option<Tree<H>>, newRight: Option<Tree<H>>)
    requires sh < addr.level
    requires var l := Address(addr.level - 1, 2 * addr.index);
             CapOk(hs, leaves, sh, l, left) && (newLeft.Some? ==> CapOk(hs, leaves, sh, l, newLeft.value))
    requires var r := Address(addr.level - 1, 2 * addr.index + 1);
             CapOk(hs, leaves, sh, r, right) && (newRight.Some? ==> CapOk(hs, leaves, sh, r, newRight.value))
    ensures CapOk(hs, leaves, sh, addr, Rebuilt(hs, addr.level - 1, left, right, newLeft, newRight))
  {
    Halves(addr.level, addr.index);
  }

  lemma SameLevelContains(a: Address, b: Address)
    ensures a.Contains(b) && b.Contains(a) ==> a == b
    ensures a.level == b.level && a.Contains(b) ==> a == b
    ensures a.Contains(a)
  {
  }

  /** A leaf or an empty node of the cap for which the shards are asked. */
  lemma NodeFromShards<H>(hs: Hashable<H>, leaves: seq<H>, shards: seq<Located<H>>, sh: nat, addr: Address,
                          cap: Tree<H>, target: Address, cut: nat)
    requires ShardsFit(shards, sh) && ShardsConsistent(hs, leaves, shards, sh)
    requires CapOk(hs, leaves, sh, addr, cap) && addr.Contains(target) && !cap.Parent?
    requires if cap.Leaf? then addr.level == sh && !(cut >= addr.RangeEnd() && target.Contains(addr))
      else addr == target || addr.level == sh
    ensures var r := RootInternal(hs, shards, sh, addr, cap, target, cut);
            r.Ok? ==> RootedOk(hs, leaves, sh, addr, target, cut, r.value)
  {
    SameLevelContains(addr, target);
    ShardsRootSound(hs, leaves, shards, sh, target, cut);
    if cut >= addr.RangeEnd() { RootPrefix(hs, leaves, cut, addr.level, addr.index); }
  }

  /** Whatever `root_internal` returns is the true root of the truncated leaves, and for a target at or
      above the shard level what it would have cached is true as well. */
  lemma {:induction false} RootInternalSound<H>(hs: Hashable<H>, leaves: seq<H>, shards: seq<Located<H>>, sh: nat,
                                                addr: Address, cap: Tree<H>, target: Address, cut: nat)
    requires ShardsFit(shards, sh) && ShardsConsistent(hs, leaves, shards, sh)
    requires CapOk(hs, leaves, sh, addr, cap) && addr.Contains(target)
    ensures var r := RootInternal(hs, shards, sh, addr, cap, target, cut);
            r.Ok? ==> RootedOk(hs, leaves, sh, addr, target, cut, r.value)
    decreases addr.level, if cap.Parent? then 0 else 1, 1
  {
    if cap.Parent? {
      RootInternalParentSound(hs, leaves, shards, sh, addr, cap, target, cut);
    } else {
      if cap.Leaf? && cut >= addr.RangeEnd() && target.Contains(addr) {
        RootPrefix(hs, leaves, cut, addr.level, addr.index);
      } else if addr == target || addr.level == sh {
        if cap.Nil? || addr.level == sh { NodeFromShards(hs, leaves, shards, sh, addr, cap, target, cut); }
        else { RootInternalSound(hs, leaves, shards, sh, addr, Parent(None, Nil, Nil), target, cut); }
      } else {
        RootInternalSound(hs, leaves, shards, sh, addr, Parent(None, Nil, Nil), target, cut);
      }
    }
  }

  lemma {:induction false} RootInternalParentSound<H>(hs: Hashable<H>, leaves: seq<H>, shards: seq<Located<H>>, sh: nat,
                                                      addr: Address, cap: Tree<H>, target: Address, cut: nat)
    requires ShardsFit(shards, sh) && ShardsConsistent(hs, leaves, shards, sh)
    requires CapOk(hs, leaves, sh, addr, cap) && addr.Contains(target) && cap.Parent?
    ensures var r := RootInternal(hs, shards, sh, addr, cap, target, cut);
            r.Ok? ==> RootedOk(hs, leaves, sh, addr, target, cut, r.value)
    decreases addr.level, 0, 0
  {
    var l, r := Address(addr.level - 1, 2 * addr.index), Address(addr.level - 1, 2 * addr.index + 1);
    CapChildren(hs, leaves, sh, addr, cap);
    SameLevelContains(addr, target);
    if cap.ann.Some? && target.Contains(addr) && cut >= addr.RangeEnd() {
      RootPrefix(hs, leaves, cut, addr.level, addr.index);
    } else if l.Contains(target) {
      RootInternalSound(hs, leaves, shards, sh, l, cap.left, target, cut);
    } else if r.Contains(target) {
      RootInternalSound(hs, leaves, shards, sh, r, cap.right, target, cut);
    } else {
      if target.level < addr.level { ChildContains(addr, target); }
      RootInternalSound(hs, leaves, shards, sh, l, cap.left, l, cut);
      RootInternalSound(hs, leaves, shards, sh, r, cap.right, r, cut);
      BothSidesSound(hs, leaves, shards, sh, addr, cap, cut);
    }
  }

  lemma BothSidesSound<H>(hs: Hashable<H>, leaves: seq<H>, shards: seq<Located<H>>, sh: nat, addr: Address,
                          cap: Tree<H>, cut: nat)
    requires ShardsFit(shards, sh) && CapOk(hs, leaves, sh, addr, cap) && cap.Parent?
    requires var l := Address(addr.level - 1, 2 * addr.index);
             var a := RootInternal(hs, shards, sh, l, cap.left, l, cut);
             a.Ok? ==> RootedOk(hs, leaves, sh, l, l, cut, a.value)
    requires var r := Address(addr.level - 1, 2 * addr.index + 1);
             var b := RootInternal(hs, shards, sh, r, cap.right, r, cut);
             b.Ok? ==> RootedOk(hs, leaves, sh, r, r, cut, b.value)
    requires !(cap.ann.Some? && cut >= addr.RangeEnd())
    ensures var r := RootInternal(hs, shards, sh, addr, cap, addr, cut);
            r.Ok? ==> RootedOk(hs, leaves, sh, addr, addr, cut, r.value)
  {
    hide ShardsRoot, Rebuilt;
    var l, r := Address(addr.level - 1, 2 * addr.index), Address(addr.level - 1, 2 * addr.index + 1);
    CapChildren(hs, leaves, sh, addr, cap);
    var a, b := RootInternal(hs, shards, sh, l, cap.left, l, cut), RootInternal(hs, shards, sh, r, cap.right, r, cut);
    if a.Ok? && b.Ok? {
      RebuiltOk(hs, leaves, sh, addr, cap.left, cap.right, a.value.replacement, b.value.replacement);
    }
  }

  /** Whatever is written back has no parent at or below the shard level. */
  lemma {:induction false} ReplacementFits<H>(hs: Hashable<H>, shards: seq<Located<H>>, sh: nat, addr: Address,
                                              cap: Tree<H>, target: Address, cut: nat)
    requires ShardsFit(shards, sh) && sh <= addr.level && Fits(addr.level - sh, cap) && addr.Contains(target)
    ensures var r := RootInternal(hs, shards, sh, addr, cap, target, cut);
            r.Ok? && r.value.replacement.Some? ==> Fits(addr.level - sh, r.value.replacement.value)
    decreases addr.level, if cap.Parent? then 0 else 1
  {
    if cap.Parent? {
      var l, r := Address(addr.level - 1, 2 * addr.index), Address(addr.level - 1, 2 * addr.index + 1);
      if l.Contains(target) {
        ReplacementFits(hs, shards, sh, l, cap.left, target, cut);
      } else if r.Contains(target) {
        ReplacementFits(hs, shards, sh, r, cap.right, target, cut);
      } else {
        ReplacementFits(hs, shards, sh, l, cap.left, l, cut);
        ReplacementFits(hs, shards, sh, r, cap.right, r, cut);
      }
    } else if addr.level > sh {
      ReplacementFits(hs, shards, sh, addr, Parent(None, Nil, Nil), target, cut);
    }
  }

  // ---------- Targets below the shard level ----------

  /** Whether the cap holds a hash for the shard that the target lies in. */
  predicate ShardCached<H>(sh: nat, addr: Address, cap: Tree<H>, target: Address)
    decreases cap
  {
    match cap
    case Nil => false
    case Leaf(_, _) => addr.level == sh
    case Parent(_, left, right) =>
      addr.level > 0 &&
      var l, r := Address(addr.level - 1, 2 * addr.index), Address(addr.level - 1, 2 * addr.index + 1);
      if l.Contains(target) then ShardCached(sh, l, left, target) else ShardCached(sh, r, right, target)
  }

  /** When asking for a target keeps the cap true: always at or above the shard level, and below it unless the
      whole shard was asked for, had no hash yet and has another hash than the target. */
  ghost predicate KeepsCap<H>(hs: Hashable<H>, leaves: seq<H>, sh: nat, addr: Address, cap: Tree<H>,
                              target: Address, cut: nat)
  {
    sh <= target.level ||
    var shard := Climb(target, sh);
    || cut < shard.RangeEnd() || ShardCached(sh, addr, cap, target)
    || (shard.RangeEnd() <= |leaves| && Root(hs, leaves, target.level, target.index) ==
        Root(hs, leaves, sh, shard.index))
  }

  /** At the shard's own node the target's root is cached for the shard if all of it was asked for. */
  lemma ShardNodeIff<H>(hs: Hashable<H>, leaves: seq<H>, shards: seq<Located<H>>, sh: nat, addr: Address,
                        target: Address, cut: nat)
    requires ShardsFit(shards, sh) && ShardsConsistent(hs, leaves, shards, sh)
    requires addr.level == sh && addr.Contains(target) && target.level < sh
    requires RootInternal(hs, shards, sh, addr, Nil, target, cut).Ok?
    ensures var r := RootInternal(hs, shards, sh, addr, Nil, target, cut).value;
            CapOk(hs, leaves, sh, addr, OrElse(r.replacement, Nil)) <==>
              KeepsCap(hs, leaves, sh, addr, Nil, target, cut)
  {
    ShardsRootSound(hs, leaves, shards, sh, target, cut);
    ContainsRange(addr, target);
    if cut >= addr.RangeEnd() { RootPrefix(hs, leaves, cut, target.level, target.index); }
  }

  /** Exactly when what is written back for a target below the shard level is true. */
  lemma {:induction false} BelowShardLevelIff<H>(hs: Hashable<H>, leaves: seq<H>, shards: seq<Located<H>>, sh: nat,
                                                 addr: Address, cap: Tree<H>,
                                                 target: Address, cut: nat)
    requires ShardsFit(shards, sh) && ShardsConsistent(hs, leaves, shards, sh)
    requires CapOk(hs, leaves, sh, addr, cap) && addr.Contains(target) && target.level < sh
    requires RootInternal(hs, shards, sh, addr, cap, target, cut).Ok?
    ensures var r := RootInternal(hs, shards, sh, addr, cap, target, cut).value;
            CapOk(hs, leaves, sh, addr, OrElse(r.replacement, cap)) <==>
              KeepsCap(hs, leaves, sh, addr, cap, target, cut)
    decreases addr.level, if cap.Parent? then 0 else 1
  {
    SameLevelContains(addr, target);
    SameLevelContains(target, addr);
    if cap.Parent? {
      var l, r := Address(addr.level - 1, 2 * addr.index), Address(addr.level - 1, 2 * addr.index + 1);
      CapChildren(hs, leaves, sh, addr, cap);
      ChildContains(addr, target);
      if l.Contains(target) {
        BelowShardLevelIff(hs, leaves, shards, sh, l, cap.left, target, cut);
      } else {
        BelowShardLevelIff(hs, leaves, shards, sh, r, cap.right, target, cut);
      }
    } else if addr.level == sh {
      if cap.Nil? { ShardNodeIff(hs, leaves, shards, sh, addr, target, cut); }
    } else {
      BelowShardLevelIff(hs, leaves, shards, sh, addr, Parent(None, Nil, Nil), target, cut);
      SplitNotCached<H>(sh, addr, target);
      if cap.Leaf? { ReannotatedOk(hs, leaves, shards, sh, addr, cap.value, target, cut); }
    }
  }

  /** For every target: the cap stays true exactly when `KeepsCap` says so before the call. */
  lemma KeepsCapIff<H>(hs: Hashable<H>, leaves: seq<H>, shards: seq<Located<H>>, sh: nat, addr: Address, cap: Tree<H>,
                       target: Address, cut: nat)
    requires ShardsFit(shards, sh) && ShardsConsistent(hs, leaves, shards, sh)
    requires CapOk(hs, leaves, sh, addr, cap) && addr.Contains(target)
    requires RootInternal(hs, shards, sh, addr, cap, target, cut).Ok?
    ensures var r := RootInternal(hs, shards, sh, addr, cap, target, cut).value;
            CapOk(hs, leaves, sh, addr, OrElse(r.replacement, cap)) <==>
              KeepsCap(hs, leaves, sh, addr, cap, target, cut)
  {
    if sh <= target.level { RootInternalSound(hs, leaves, shards, sh, addr, cap, target, cut); }
    else { BelowShardLevelIff(hs, leaves, shards, sh, addr, cap, target, cut); }
  }

  lemma SplitNotCached<H>(sh: nat, addr: Address, target: Address)
    ensures !ShardCached<H>(sh, addr, Parent(None, Nil, Nil), target)
  {
  }

  /** Putting a true hash back on the node changes nothing else. */
  lemma ReannotatedOk<H>(hs: Hashable<H>, leaves: seq<H>, shards: seq<Located<H>>, sh: nat, addr: Address, value: H,
                         target: Address, cut: nat)
    requires ShardsFit(shards, sh) && sh < addr.level && addr.Contains(target) && target.level < sh
    requires addr.RangeEnd() <= |leaves| && value == Root(hs, leaves, addr.level, addr.index)
    requires RootInternal(hs, shards, sh, addr, Parent(None, Nil, Nil), target, cut).Ok?
    ensures var r := RootInternal(hs, shards, sh, addr, Parent(None, Nil, Nil), target, cut).value.replacement;
            r.Some? && (CapOk(hs, leaves, sh, addr, r.value.Reannotate(Some(value))) <==>
                        CapOk(hs, leaves, sh, addr, r.value))
  {
    ChildContains(addr, target);
    SameLevelContains(target, addr);
  }

  // ---------- Cached and uncached answers ----------

  /** When the shards know enough for the target, every cap gives an answer. */
  lemma {:induction false} RootInternalAnswers<H>(hs: Hashable<H>, shards: seq<Located<H>>, sh: nat, addr: Address,
                                                  cap: Tree<H>, target: Address, cut: nat)
    requires ShardsFit(shards, sh) && sh <= addr.level && Fits(addr.level - sh, cap) && addr.Contains(target)
    requires sh <= target.level && KnownBelow(hs, shards, sh, target, cut)
    ensures RootInternal(hs, shards, sh, addr, cap, target, cut).Ok?
    decreases addr.level, if cap.Parent? then 0 else 1
  {
    SameLevelContains(addr, target);
    ShardsRootKnown(hs, shards, sh, target, cut);
    if cap.Parent? {
      var l, r := Address(addr.level - 1, 2 * addr.index), Address(addr.level - 1, 2 * addr.index + 1);
      if l.Contains(target) {
        RootInternalAnswers(hs, shards, sh, l, cap.left, target, cut);
      } else if r.Contains(target) {
        RootInternalAnswers(hs, shards, sh, r, cap.right, target, cut);
      } else {
        if target.level < addr.level { ChildContains(addr, target); }
        KnownHalves(hs, shards, sh, addr, cut);
        RootInternalAnswers(hs, shards, sh, l, cap.left, l, cut);
        RootInternalAnswers(hs, shards, sh, r, cap.right, r, cut);
      }
    } else if addr.level > sh {
      RootInternalAnswers(hs, shards, sh, addr, Parent(None, Nil, Nil), target, cut);
    }
  }

  /** Without a cache there is an answer only when the shards know enough. */
  lemma {:induction false} UncachedKnows<H>(hs: Hashable<H>, shards: seq<Located<H>>, sh: nat, addr: Address,
                                            cap: Tree<H>, target: Address, cut: nat)
    requires ShardsFit(shards, sh) && sh <= addr.level && Fits(addr.level - sh, cap) && addr.Contains(target)
    requires cap == Nil || cap == Parent(None, Nil, Nil)
    requires sh <= target.level && RootInternal(hs, shards, sh, addr, cap, target, cut).Ok?
    ensures KnownBelow(hs, shards, sh, target, cut)
    decreases addr.level, if cap.Parent? then 0 else 1
  {
    SameLevelContains(addr, target);
    ShardsRootKnown(hs, shards, sh, target, cut);
    if cap.Parent? {
      var l, r := Address(addr.level - 1, 2 * addr.index), Address(addr.level - 1, 2 * addr.index + 1);
      if l.Contains(target) {
        UncachedKnows(hs, shards, sh, l, Nil, target, cut);
      } else if r.Contains(target) {
        UncachedKnows(hs, shards, sh, r, Nil, target, cut);
      } else {
        if target.level < addr.level { ChildContains(addr, target); }
        UncachedKnows(hs, shards, sh, l, Nil, l, cut);
        UncachedKnows(hs, shards, sh, r, Nil, r, cut);
        KnownHalves(hs, shards, sh, addr, cut);
      }
    } else if addr != target && addr.level > sh {
      UncachedKnows(hs, shards, sh, addr, Parent(None, Nil, Nil), target, cut);
    }
  }

  /** An answer from the shards alone is also given, unchanged, through any true cap, before and after
      what was learned has been written back. */
  lemma CachedEqualsUncached<H>(hs: Hashable<H>, leaves: seq<H>, shards: seq<Located<H>>, sh: nat, addr: Address,
                                cap: Tree<H>, target: Address, cut: nat)
    requires ShardsFit(shards, sh) && ShardsConsistent(hs, leaves, shards, sh)
    requires CapOk(hs, leaves, sh, addr, cap) && addr.Contains(target) && sh <= target.level
    ensures var uncached := RootInternal(hs, shards, sh, addr, Nil, target, cut);
            var cached := RootInternal(hs, shards, sh, addr, cap, target, cut);
            && (uncached.Ok? ==> cached.Ok?)
            && (uncached.Ok? ==> cached.value.root == uncached.value.root)
            && (cached.Ok? && cached.value.replacement.Some? ==>
                  && CapOk(hs, leaves, sh, addr, cached.value.replacement.value)
                  && var again := RootInternal(hs, shards, sh, addr, cached.value.replacement.value, target, cut);
                     uncached.Ok? ==> again.Ok? && again.value.root == uncached.value.root)
  {
    var uncached, cached := RootInternal(hs, shards, sh, addr, Nil, target, cut),
      RootInternal(hs, shards, sh, addr, cap, target, cut);
    RootInternalSound(hs, leaves, shards, sh, addr, Nil, target, cut);
    RootInternalSound(hs, leaves, shards, sh, addr, cap, target, cut);
    if uncached.Ok? {
      UncachedKnows(hs, shards, sh, addr, Nil, target, cut);
      RootInternalAnswers(hs, shards, sh, addr, cap, target, cut);
    }
    if cached.Ok? && cached.value.replacement.Some? {
      var updated := cached.value.replacement.value;
      RootInternalSound(hs, leaves, shards, sh, addr, updated, target, cut);
      if uncached.Ok? { RootInternalAnswers(hs, shards, sh, addr, updated, target, cut); }
    }
  }

  // ---------- What the cap knows ----------

  /** A cap node with a hash that covers a shard and lies within the target, not cut by the truncation. */
  ghost predicate HashOver<H>(sh: nat, addr: Address, cap: Tree<H>, target: Address, cut: nat, shard: nat, b: Address)
    requires Fits(addr.level, cap)
  {
    var node := NodeAt(addr.level, addr.index, cap, b);
    && target.Contains(b) && b.Contains(Address(sh, shard)) && b.RangeEnd() <= cut
    && node.Some? && node.value.NodeValue().Some?
  }

  ghost predicate HasHashOver<H>(sh: nat, addr: Address, cap: Tree<H>, target: Address, cut: nat, shard: nat)
    requires Fits(addr.level, cap)
  {
    exists b: Address :: HashOver(sh, addr, cap, target, cut, shard, b)
  }

  ghost predicate CoveredBy<H>(hs: Hashable<H>, shards: seq<Located<H>>, sh: nat, addr: Address, cap: Tree<H>,
                               target: Address, cut: nat, shard: nat)
    requires ShardsFit(shards, sh) && Fits(addr.level, cap)
  {
    Start(sh, shard) < cut ==>
      ShardRoot(hs, shards, sh, shard, cut).Ok? || HasHashOver(sh, addr, cap, target, cut, shard)
  }

  /** For every shard below the target that starts before the truncation, its root can be computed or the cap has a hash
      over it. */
  ghost predicate AllCovered<H>(hs: Hashable<H>, shards: seq<Located<H>>, sh: nat, addr: Address, cap: Tree<H>,
                                target: Address, cut: nat)
    requires ShardsFit(shards, sh) && Fits(addr.level, cap) && sh <= target.level
  {
    forall i | Start(target.level - sh, target.index) <= i < End(target.level - sh, target.index) ::
      CoveredBy(hs, shards, sh, addr, cap, target, cut, i)
  }

  lemma HashOverBelow<H>(sh: nat, addr: Address, cap: Tree<H>, target: Address, cut: nat, shard: nat)
    requires Fits(addr.level, cap) && cap.Parent? && addr.Contains(target)
    ensures var l, r := Address(addr.level - 1, 2 * addr.index), Address(addr.level - 1, 2 * addr.index + 1);
            && (l.Contains(target) ==>
                  (HasHashOver(sh, addr, cap, target, cut, shard) <==>
                   HasHashOver(sh, l, cap.left, target, cut, shard)))
            && (r.Contains(target) ==>
                  (HasHashOver(sh, addr, cap, target, cut, shard) <==>
                   HasHashOver(sh, r, cap.right, target, cut, shard)))
  {
    var l, r := Address(addr.level - 1, 2 * addr.index), Address(addr.level - 1, 2 * addr.index + 1);
    forall b: Address | target.Contains(b)
      ensures l.Contains(target) ==>
        (HashOver(sh, addr, cap, target, cut, shard, b) <==> HashOver(sh, l, cap.left, target, cut, shard, b))
      ensures r.Contains(target) ==>
        (HashOver(sh, addr, cap, target, cut, shard, b) <==> HashOver(sh, r, cap.right, target, cut, shard, b))
    {
      NodeBelow(addr.level, addr.index, cap, b);
      ChildWithin(addr.level, addr.index, b);
      if l.Contains(target) { ContainsThrough(l, target, b); }
      if r.Contains(target) { ContainsThrough(r, target, b); }
    }
    if HasHashOver(sh, addr, cap, target, cut, shard) {
      var b: Address :| HashOver(sh, addr, cap, target, cut, shard, b);
      assert l.Contains(target) ==> HashOver(sh, l, cap.left, target, cut, shard, b);
      assert r.Contains(target) ==> HashOver(sh, r, cap.right, target, cut, shard, b);
    }
    if l.Contains(target) && HasHashOver(sh, l, cap.left, target, cut, shard) {
      var b: Address :| HashOver(sh, l, cap.left, target, cut, shard, b);
      assert HashOver(sh, addr, cap, target, cut, shard, b);
    }
    if r.Contains(target) && HasHashOver(sh, r, cap.right, target, cut, shard) {
      var b: Address :| HashOver(sh, r, cap.right, target, cut, shard, b);
      assert HashOver(sh, addr, cap, target, cut, shard, b);
    }
  }

  /** Over a shard in one half, the cap has a hash at its own node or in that half. */
  lemma HashOverHalf<H>(sh: nat, addr: Address, cap: Tree<H>, cut: nat, shard: nat)
    requires Fits(addr.level, cap) && cap.Parent? && !(cap.ann.Some? && addr.RangeEnd() <= cut)
    ensures var l, r := Address(addr.level - 1, 2 * addr.index), Address(addr.level - 1, 2 * addr.index + 1);
            && (l.Contains(Address(sh, shard)) ==>
                  (HasHashOver(sh, addr, cap, addr, cut, shard) <==> HasHashOver(sh, l, cap.left, l, cut, shard)))
            && (r.Contains(Address(sh, shard)) ==>
                  (HasHashOver(sh, addr, cap, addr, cut, shard) <==> HasHashOver(sh, r, cap.right, r, cut, shard)))
  {
    var l, r := Address(addr.level - 1, 2 * addr.index), Address(addr.level - 1, 2 * addr.index + 1);
    ChildWithin(addr.level, addr.index, Address(sh, shard));
    if HasHashOver(sh, addr, cap, addr, cut, shard) {
      var b: Address :| HashOver(sh, addr, cap, addr, cut, shard, b);
      NodeBelow(addr.level, addr.index, cap, b);
      if l.Contains(b) { ContainsThrough(l, b, Address(sh, shard)); }
      if r.Contains(b) { ContainsThrough(r, b, Address(sh, shard)); }
      assert l.Contains(Address(sh, shard)) ==> HashOver(sh, l, cap.left, l, cut, shard, b);
      assert r.Contains(Address(sh, shard)) ==> HashOver(sh, r, cap.right, r, cut, shard, b);
    }
    if l.Contains(Address(sh, shard)) && HasHashOver(sh, l, cap.left, l, cut, shard) {
      var b: Address :| HashOver(sh, l, cap.left, l, cut, shard, b);
      NodeBelow(addr.level, addr.index, cap, b);
      ChildWithin(addr.level, addr.index, b);
      assert HashOver(sh, addr, cap, addr, cut, shard, b);
    }
    if r.Contains(Address(sh, shard)) && HasHashOver(sh, r, cap.right, r, cut, shard) {
      var b: Address :| HashOver(sh, r, cap.right, r, cut, shard, b);
      NodeBelow(addr.level, addr.index, cap, b);
      ChildWithin(addr.level, addr.index, b);
      assert HashOver(sh, addr, cap, addr, cut, shard, b);
    }
  }

  lemma {:induction false} ShardBelow(sh: nat, addr: Address, i: nat)
    requires sh <= addr.level && Start(addr.level - sh, addr.index) <= i < End(addr.level - sh, addr.index)
    ensures addr.Contains(Address(sh, i))
  {
    AboveUnique(addr.level - sh, i, addr.index);
    ClimbIsAbove(sh, i, addr.level);
  }

  lemma {:induction false} ClimbIsAbove(sh: nat, i: nat, level: nat)
    requires sh <= level
    ensures Climb(Address(sh, i), level) == Address(level, Above(level - sh, i))
    decreases level - sh
  {
    if sh < level {
      ClimbIsAbove(sh + 1, i / 2, level);
      AboveOfHalf(level - sh, i);
    }
  }

  lemma {:induction false} AboveOfHalf(level: nat, i: nat)
    requires level > 0
    ensures Above(level, i) == Above(level - 1, i / 2)
  {
    if level > 1 { AboveOfHalf(level - 1, i); }
  }

  /** No hash that can be used: nothing helps but the shards. */
  lemma NoHash<H>(hs: Hashable<H>, shards: seq<Located<H>>, sh: nat, addr: Address, cap: Tree<H>, target: Address,
                  cut: nat)
    requires ShardsFit(shards, sh) && sh <= target.level && addr.Contains(target) && !cap.Parent?
    requires cap.Leaf? ==> addr != target || cut < addr.RangeEnd()
    ensures AllCovered(hs, shards, sh, addr, cap, target, cut) <==> KnownBelow(hs, shards, sh, target, cut)
  {
    forall i ensures !HasHashOver(sh, addr, cap, target, cut, i) {
      forall b: Address ensures !HashOver(sh, addr, cap, target, cut, i, b) {
        OneNode(addr.level, addr.index, cap, b);
        SameLevelContains(addr, target);
      }
    }
    if AllCovered(hs, shards, sh, addr, cap, target, cut) {
      var h := target.level - sh;
      forall i | Start(h, target.index) <= i < End(h, target.index) && Start(sh, i) < cut
        ensures ShardRoot(hs, shards, sh, i, cut).Ok?
      {
        assert CoveredBy(hs, shards, sh, addr, cap, target, cut, i);
      }
    }
  }

  /** There is an answer exactly if every shard that matters is known or covered by a hash of the cap. */
  lemma {:induction false} RootInternalIff<H>(hs: Hashable<H>, shards: seq<Located<H>>, sh: nat, addr: Address,
                                              cap: Tree<H>, target: Address, cut: nat)
    requires ShardsFit(shards, sh) && sh <= addr.level && Fits(addr.level - sh, cap) && addr.Contains(target)
    requires sh <= target.level
    ensures Fits(addr.level, cap)
    ensures RootInternal(hs, shards, sh, addr, cap, target, cut).Ok? <==>
      AllCovered(hs, shards, sh, addr, cap, target, cut)
    decreases cap
  {
    FitsMono(addr.level - sh, addr.level, cap);
    SameLevelContains(addr, target);
    if cap.Parent? {
      ParentIff(hs, shards, sh, addr, cap, target, cut);
    } else if cap.Leaf? && addr == target && addr.RangeEnd() <= cut {
      WholeCovered(hs, shards, sh, addr, cap, cut);
    } else {
      NoHash(hs, shards, sh, addr, cap, target, cut);
      if KnownBelow(hs, shards, sh, target, cut) {
        RootInternalAnswers(hs, shards, sh, addr, cap, target, cut);
      } else if RootInternal(hs, shards, sh, addr, cap, target, cut).Ok? {
        ShardsRootKnown(hs, shards, sh, target, cut);
        if addr.level > sh && (cap.Leaf? || addr != target) {
          UncachedKnows(hs, shards, sh, addr, Parent(None, Nil, Nil), target, cut);
        }
      }
    }
  }

  lemma WholeCovered<H>(hs: Hashable<H>, shards: seq<Located<H>>, sh: nat, addr: Address, cap: Tree<H>, cut: nat)
    requires ShardsFit(shards, sh) && sh <= addr.level && Fits(addr.level, cap) && cap.NodeValue().Some?
    requires addr.RangeEnd() <= cut
    ensures AllCovered(hs, shards, sh, addr, cap, addr, cut)
  {
    forall i | Start(addr.level - sh, addr.index) <= i < End(addr.level - sh, addr.index)
      ensures CoveredBy(hs, shards, sh, addr, cap, addr, cut, i)
    {
      ShardBelow(sh, addr, i);
      assert HashOver(sh, addr, cap, addr, cut, i, addr);
    }
  }

  lemma {:induction false} ParentIff<H>(hs: Hashable<H>, shards: seq<Located<H>>, sh: nat, addr: Address, cap: Tree<H>,
                                        target: Address, cut: nat)
    requires ShardsFit(shards, sh) && sh <= addr.level && Fits(addr.level - sh, cap) && addr.Contains(target)
    requires sh <= target.level && cap.Parent? && Fits(addr.level, cap)
    ensures RootInternal(hs, shards, sh, addr, cap, target, cut).Ok? <==>
      AllCovered(hs, shards, sh, addr, cap, target, cut)
    decreases cap, 0
  {
    var l, r := Address(addr.level - 1, 2 * addr.index), Address(addr.level - 1, 2 * addr.index + 1);
    SameLevelContains(addr, target);
    if cap.ann.Some? && target.Contains(addr) && addr.RangeEnd() <= cut {
      WholeCovered(hs, shards, sh, addr, cap, cut);
    } else if l.Contains(target) {
      RootInternalIff(hs, shards, sh, l, cap.left, target, cut);
      forall i ensures HasHashOver(sh, addr, cap, target, cut, i) <==> HasHashOver(sh, l, cap.left, target, cut, i) {
        HashOverBelow(sh, addr, cap, target, cut, i);
      }
      SameCovered(hs, shards, sh, addr, cap, l, cap.left, target, cut);
    } else if r.Contains(target) {
      RootInternalIff(hs, shards, sh, r, cap.right, target, cut);
      forall i ensures HasHashOver(sh, addr, cap, target, cut, i) <==> HasHashOver(sh, r, cap.right, target, cut, i) {
        HashOverBelow(sh, addr, cap, target, cut, i);
      }
      SameCovered(hs, shards, sh, addr, cap, r, cap.right, target, cut);
    } else {
      if target.level < addr.level { ChildContains(addr, target); }
      RootInternalIff(hs, shards, sh, l, cap.left, l, cut);
      RootInternalIff(hs, shards, sh, r, cap.right, r, cut);
      BothCovered(hs, shards, sh, addr, cap, cut);
    }
  }

  lemma SameCovered<H>(hs: Hashable<H>, shards: seq<Located<H>>, sh: nat, addr: Address, cap: Tree<H>, below: Address,
                       part: Tree<H>, target: Address, cut: nat)
    requires ShardsFit(shards, sh) && Fits(addr.level, cap) && Fits(below.level, part) && sh <= target.level
    requires forall i :: HasHashOver(sh, addr, cap, target, cut, i) <==> HasHashOver(sh, below, part, target, cut, i)
    ensures AllCovered(hs, shards, sh, addr, cap, target, cut) <==>
      AllCovered(hs, shards, sh, below, part, target, cut)
  {
    hide HasHashOver;
    forall i: nat ensures CoveredBy(hs, shards, sh, addr, cap, target, cut, i) <==>
      CoveredBy(hs, shards, sh, below, part, target, cut, i)
    {
    }
  }

  lemma BothCovered<H>(hs: Hashable<H>, shards: seq<Located<H>>, sh: nat, addr: Address, cap: Tree<H>, cut: nat)
    requires ShardsFit(shards, sh) && sh < addr.level && Fits(addr.level, cap) && cap.Parent?
    requires !(cap.ann.Some? && addr.RangeEnd() <= cut)
    ensures var l, r := Address(addr.level - 1, 2 * addr.index), Address(addr.level - 1, 2 * addr.index + 1);
            AllCovered(hs, shards, sh, addr, cap, addr, cut) <==>
              AllCovered(hs, shards, sh, l, cap.left, l, cut) && AllCovered(hs, shards, sh, r, cap.right, r, cut)
  {
    hide HasHashOver;
    var l, r := Address(addr.level - 1, 2 * addr.index), Address(addr.level - 1, 2 * addr.index + 1);
    Halves(addr.level - sh, addr.index);
    forall i: nat
      ensures Start(l.level - sh, l.index) <= i < End(l.level - sh, l.index) ==>
        (CoveredBy(hs, shards, sh, addr, cap, addr, cut, i) <==> CoveredBy(hs, shards, sh, l, cap.left, l, cut, i))
      ensures Start(r.level - sh, r.index) <= i < End(r.level - sh, r.index) ==>
        (CoveredBy(hs, shards, sh, addr, cap, addr, cut, i) <==> CoveredBy(hs, shards, sh, r, cap.right, r, cut, i))
    {
      HashOverHalf(sh, addr, cap, cut, i);
      if Start(l.level - sh, l.index) <= i < End(l.level - sh, l.index) { ShardBelow(sh, l, i); }
      if Start(r.level - sh, r.index) <= i < End(r.level - sh, r.index) { ShardBelow(sh, r, i); }
    }
  }

  /** A node that the cap can compute by itself is answered, whatever the shards hold. */
  lemma {:induction false} CapAnswers<H>(hs: Hashable<H>, shards: seq<Located<H>>, sh: nat, addr: Address, cap: Tree<H>,
                                         target: Address, cut: nat)
    requires ShardsFit(shards, sh) && sh <= addr.level && Fits(addr.level - sh, cap) && addr.Contains(target)
    requires CapComputes(addr, cap, target) && target.RangeEnd() <= cut
    ensures RootInternal(hs, shards, sh, addr, cap, target, cut).Ok?
    decreases cap
  {
    SameLevelContains(addr, target);
    OneNodeOrBelow(addr, cap, target);
    if cap.Parent? {
      var l, r := Address(addr.level - 1, 2 * addr.index), Address(addr.level - 1, 2 * addr.index + 1);
      if l.Contains(target) {
        CapAnswers(hs, shards, sh, l, cap.left, target, cut);
      } else if r.Contains(target) {
        CapAnswers(hs, shards, sh, r, cap.right, target, cut);
      } else if cap.ann.None? {
        SameLevelContains(l, l);
        SameLevelContains(r, r);
        Halves(addr.level, addr.index);
        CapAnswers(hs, shards, sh, l, cap.left, l, cut);
        CapAnswers(hs, shards, sh, r, cap.right, r, cut);
      }
    }
  }

  /** The report is of exactly what the shards lack for the root of some node at or below the target. */
  ghost predicate LacksWithin<H>(shards: seq<Located<H>>, sh: nat, target: Address, cut: nat, missing: seq<Address>)
    requires ShardsFit(shards, sh)
  {
    exists part: Address :: target.Contains(part) && RootReport(shards, sh, part, cut, missing)
  }

  lemma LacksWithinMore<H>(shards: seq<Located<H>>, sh: nat, child: Address, target: Address, cut: nat,
                           missing: seq<Address>)
    requires ShardsFit(shards, sh) && target.Contains(child) && LacksWithin(shards, sh, child, cut, missing)
    ensures LacksWithin(shards, sh, target, cut, missing)
  {
    hide RootReport;
    var part: Address :| child.Contains(part) && RootReport(shards, sh, part, cut, missing);
    ContainsThrough(target, child, part);
  }

  /** A refused request names what the shards lack for some node within the target. */
  lemma {:induction false} RootInternalErrors<H>(hs: Hashable<H>, shards: seq<Located<H>>, sh: nat, addr: Address,
                                                 cap: Tree<H>, target: Address, cut: nat)
    requires ShardsFit(shards, sh) && sh <= addr.level && Fits(addr.level - sh, cap) && addr.Contains(target)
    ensures var r := RootInternal(hs, shards, sh, addr, cap, target, cut);
            r.Err? ==> r.error != [] && LacksWithin(shards, sh, target, cut, r.error)
    decreases addr.level, if cap.Parent? then 0 else 1
  {
    hide RootReport, ShardsRoot;
    SameLevelContains(addr, target);
    SameLevelContains(target, target);
    ShardsRootReports(hs, shards, sh, target, cut);
    if cap.Parent? {
      var l, r := Address(addr.level - 1, 2 * addr.index), Address(addr.level - 1, 2 * addr.index + 1);
      if l.Contains(target) {
        RootInternalErrors(hs, shards, sh, l, cap.left, target, cut);
      } else if r.Contains(target) {
        RootInternalErrors(hs, shards, sh, r, cap.right, target, cut);
      } else {
        if target.level < addr.level { ChildContains(addr, target); }
        SameLevelContains(l, l);
        SameLevelContains(r, r);
        ChildWithin(addr.level, addr.index, l);
        ChildWithin(addr.level, addr.index, r);
        RootInternalErrors(hs, shards, sh, l, cap.left, l, cut);
        RootInternalErrors(hs, shards, sh, r, cap.right, r, cut);
        var a := RootInternal(hs, shards, sh, l, cap.left, l, cut);
        var b := RootInternal(hs, shards, sh, r, cap.right, r, cut);
        if a.Err? { LacksWithinMore(shards, sh, l, target, cut, a.error); }
        else if b.Err? { LacksWithinMore(shards, sh, r, target, cut, b.error); }
      }
    } else if addr.level > sh {
      RootInternalErrors(hs, shards, sh, addr, Parent(None, Nil, Nil), target, cut);
    }
  }

  predicate CapComputes<H>(addr: Address, cap: Tree<H>, node: Address)
  {
    Fits(addr.level, cap) && Computes(addr.level, addr.index, cap, node)
  }

  /** What was asked for is remembered: a node at or above the shard level that ends by the truncation point can be
      computed from the cap alone afterwards. */
  lemma {:induction false} CachesAnswer<H>(hs: Hashable<H>, shards: seq<Located<H>>, sh: nat, addr: Address,
                                           cap: Tree<H>, target: Address, cut: nat)
    requires ShardsFit(shards, sh) && sh <= addr.level && Fits(addr.level - sh, cap) && addr.Contains(target)
    requires sh <= target.level && target.RangeEnd() <= cut
    ensures var r := RootInternal(hs, shards, sh, addr, cap, target, cut);
            r.Ok? ==> CapComputes(addr, OrElse(r.value.replacement, cap), target)
    decreases addr.level, if cap.Parent? then 0 else 1
  {
    ReplacementFits(hs, shards, sh, addr, cap, target, cut);
    SameLevelContains(addr, target);
    var r := RootInternal(hs, shards, sh, addr, cap, target, cut);
    if r.Ok? {
      var after := OrElse(r.value.replacement, cap);
      FitsMono(addr.level - sh, addr.level, after);
      if cap.Parent? {
        var left, right := Address(addr.level - 1, 2 * addr.index), Address(addr.level - 1, 2 * addr.index + 1);
        if left.Contains(target) {
          CachesAnswer(hs, shards, sh, left, cap.left, target, cut);
          NodeBelow(addr.level, addr.index, after, target);
        } else if right.Contains(target) {
          CachesAnswer(hs, shards, sh, right, cap.right, target, cut);
          NodeBelow(addr.level, addr.index, after, target);
        } else {
          if target.level < addr.level { ChildContains(addr, target); }
          Halves(addr.level, addr.index);
          CachesAnswer(hs, shards, sh, left, cap.left, left, cut);
          CachesAnswer(hs, shards, sh, right, cap.right, right, cut);
        }
      } else if addr != target && addr.level > sh {
        CachesAnswer(hs, shards, sh, addr, Parent(None, Nil, Nil), target, cut);
        var split := RootInternal(hs, shards, sh, addr, Parent(None, Nil, Nil), target, cut).value.replacement;
        if cap.Leaf? && split.Some? { ReannotatedComputes(addr, split.value, target, cap.value); }
      } else if cap.Leaf? && addr.RangeEnd() > cut { assert false; }
    }
  }

  lemma {:induction false} ParentStays<H>(hs: Hashable<H>, shards: seq<Located<H>>, sh: nat, addr: Address,
                                          cap: Tree<H>, target: Address, cut: nat)
    requires ShardsFit(shards, sh) && sh <= addr.level && Fits(addr.level - sh, cap) && addr.Contains(target)
    requires cap.Parent?
    ensures var r := RootInternal(hs, shards, sh, addr, cap, target, cut);
            r.Ok? && r.value.replacement.Some? ==> r.value.replacement.value.Parent?
  {
  }

  /** Every hash that the cap holds in a leaf stays. */
  lemma {:induction false} HashesStay<H>(hs: Hashable<H>, shards: seq<Located<H>>, sh: nat, addr: Address, cap: Tree<H>,
                                         target: Address, cut: nat, node: Address)
    requires ShardsFit(shards, sh) && sh <= addr.level && Fits(addr.level - sh, cap) && addr.Contains(target)
    requires Fits(addr.level, cap)
    requires NodeAt(addr.level, addr.index, cap, node).Some? && NodeAt(addr.level, addr.index, cap, node).value.Leaf?
    ensures var r := RootInternal(hs, shards, sh, addr, cap, target, cut);
            r.Ok? ==> CapComputes(addr, OrElse(r.value.replacement, cap), node)
    decreases cap
  {
    ReplacementFits(hs, shards, sh, addr, cap, target, cut);
    OneNodeOrBelow(addr, cap, node);
    SameLevelContains(addr, target);
    var r := RootInternal(hs, shards, sh, addr, cap, target, cut);
    if r.Ok? {
      var after := OrElse(r.value.replacement, cap);
      FitsMono(addr.level - sh, addr.level, after);
      if cap.Parent? {
        ParentStays(hs, shards, sh, addr, cap, target, cut);
        NodeBelow(addr.level, addr.index, after, node);
        var left, right := Address(addr.level - 1, 2 * addr.index), Address(addr.level - 1, 2 * addr.index + 1);
        if !right.Contains(target) && left.Contains(node) {
          HashesStay(hs, shards, sh, left, cap.left, if left.Contains(target) then target else left, cut, node);
        }
        if !left.Contains(target) && right.Contains(node) {
          HashesStay(hs, shards, sh, right, cap.right, if right.Contains(target) then target else right, cut, node);
        }
      } else if r.value.replacement.Some? {
        ParentStays(hs, shards, sh, addr, Parent(None, Nil, Nil), target, cut);
      }
    }
  }

  lemma OneNodeOrBelow<H>(addr: Address, t: Tree<H>, node: Address)
    requires Fits(addr.level, t)
    ensures !t.Parent? ==> NodeAt(addr.level, addr.index, t, node) == if node == addr then Some(t) else None
    ensures t.Parent? ==>
      var left, right := Address(addr.level - 1, 2 * addr.index), Address(addr.level - 1, 2 * addr.index + 1);
      var l, r := NodeAt(left.level, left.index, t.left, node), NodeAt(right.level, right.index, t.right, node);
      && (l.None? || r.None?)
      && (if node == addr then l.None? && r.None? && NodeAt(addr.level, addr.index, t, node) == Some(t)
          else NodeAt(addr.level, addr.index, t, node) == if l.Some? then l else r)
  {
    if t.Parent? { NodeBelow(addr.level, addr.index, t, node); } else { OneNode(addr.level, addr.index, t, node); }
  }

  /** Whether the cap will compute a node at or above the target after it has answered. An annotation above the target
      goes, and then the other child has to be computed; what lies at the target is filled up to the cut. */
  predicate Remembered<H>(sh: nat, addr: Address, cap: Tree<H>, target: Address, cut: nat)
    decreases cap
  {
    match cap
    case Nil => (addr == target || addr.level == sh) && addr.RangeEnd() <= cut
    case Leaf(_, _) => true
    case Parent(ann, left, right) =>
      addr.level > 0 &&
      var l, r := Address(addr.level - 1, 2 * addr.index), Address(addr.level - 1, 2 * addr.index + 1);
      if target.Contains(addr) then
        (ann.Some? && addr.RangeEnd() <= cut) || (Remembered(sh, l, left, l, cut) && Remembered(sh, r, right, r, cut))
      else if l.Contains(target) then Remembered(sh, l, left, target, cut) && right.HasComputableRoot()
      else left.HasComputableRoot() && Remembered(sh, r, right, target, cut)
  }

  /** The exact condition, for the root of the cap. */
  lemma {:induction false} RememberedIff<H>(hs: Hashable<H>, shards: seq<Located<H>>, sh: nat, addr: Address,
                                            cap: Tree<H>, target: Address, cut: nat)
    requires ShardsFit(shards, sh) && sh <= addr.level && Fits(addr.level - sh, cap) && addr.Contains(target)
    ensures var r := RootInternal(hs, shards, sh, addr, cap, target, cut);
            r.Ok? ==>
              (OrElse(r.value.replacement, cap).HasComputableRoot() <==> Remembered(sh, addr, cap, target, cut))
    decreases cap
  {
    SameLevelContains(addr, target);
    var r := RootInternal(hs, shards, sh, addr, cap, target, cut);
    if r.Ok? && cap.Parent? {
      var left, right := Address(addr.level - 1, 2 * addr.index), Address(addr.level - 1, 2 * addr.index + 1);
      if left.Contains(target) {
        RememberedIff(hs, shards, sh, left, cap.left, target, cut);
      } else if right.Contains(target) {
        RememberedIff(hs, shards, sh, right, cap.right, target, cut);
      } else {
        if target.level < addr.level { ChildContains(addr, target); }
        RememberedIff(hs, shards, sh, left, cap.left, left, cut);
        RememberedIff(hs, shards, sh, right, cap.right, right, cut);
      }
    } else if r.Ok? && addr != target && addr.level > sh {
      ChildContains(addr, target);
      assert RootInternal(hs, shards, sh, addr, Parent(None, Nil, Nil), target, cut).Ok?;
      var split := RootInternal(hs, shards, sh, addr, Parent(None, Nil, Nil), target, cut).value.replacement;
      assert split.Some? && split.value.Parent? && !split.value.HasComputableRoot();
    }
  }

  /** And for every node of the cap at or above the target. */
  lemma {:induction false} RememberedAt<H>(hs: Hashable<H>, shards: seq<Located<H>>, sh: nat, addr: Address,
                                           cap: Tree<H>, target: Address, cut: nat, node: Address)
    requires ShardsFit(shards, sh) && sh <= addr.level && Fits(addr.level - sh, cap) && addr.Contains(target)
    requires Fits(addr.level, cap) && node.Contains(target) && NodeAt(addr.level, addr.index, cap, node).Some?
    ensures var r := RootInternal(hs, shards, sh, addr, cap, target, cut);
            r.Ok? ==>
              (CapComputes(addr, OrElse(r.value.replacement, cap), node) <==>
               Remembered(sh, node, NodeAt(addr.level, addr.index, cap, node).value, target, cut))
    decreases cap
  {
    hide Remembered;
    ReplacementFits(hs, shards, sh, addr, cap, target, cut);
    RememberedIff(hs, shards, sh, addr, cap, target, cut);
    OneNodeOrBelow(addr, cap, node);
    SameLevelContains(addr, target);
    var r := RootInternal(hs, shards, sh, addr, cap, target, cut);
    if r.Ok? {
      var after := OrElse(r.value.replacement, cap);
      FitsMono(addr.level - sh, addr.level, after);
      OneNodeOrBelow(addr, after, node);
      if cap.Parent? && node != addr {
        ParentStays(hs, shards, sh, addr, cap, target, cut);
        var left, right := Address(addr.level - 1, 2 * addr.index), Address(addr.level - 1, 2 * addr.index + 1);
        if left.Contains(node) {
          ContainsThrough(left, node, target);
          RememberedAt(hs, shards, sh, left, cap.left, target, cut, node);
        } else {
          ContainsThrough(right, node, target);
          RememberedAt(hs, shards, sh, right, cap.right, target, cut, node);
        }
      }
    }
  }

  /** A hash in an annotation need not: asking for a child below an annotated node that holds nothing else forgets
      it. */
  lemma CachingForgets<H>(hs: Hashable<H>, a: H, b: H)
    ensures var top, shards := Address(1, 0), [Located(Address(0, 0), Leaf(a, MARKED)), Located(Address(0, 1), Nil)];
            var cap := Parent(Some(hs.combine(0, a, b)), Nil, Nil);
            && ShardsFit(shards, 0) && ShardsConsistent(hs, [a, b], shards, 0) && CapOk(hs, [a, b], 0, top, cap)
            && top.Contains(top) && top.Contains(Address(0, 0))
            && RootInternal(hs, shards, 0, top, cap, top, 2).Ok?
            && var r := RootInternal(hs, shards, 0, top, cap, Address(0, 0), 2);
               && r == Ok(Rooted(a, Some(Parent(None, Leaf(a, EPHEMERAL), Nil))))
               && RootInternal(hs, shards, 0, top, r.value.replacement.value, top, 2).Err?
  {
    var shards := [Located(Address(0, 0), Leaf(a, MARKED)), Located(Address(0, 1), Nil)];
    assert ShardFits(shards[0], 0, 0) && ShardFits(shards[1], 0, 1);
    assert Start(1, 0) == 0 && Start(1, 1) == 2 && Start(0, 1) == 1;
    assert Climb(Address(0, 0), 1) == Address(1, 0) by { assert Address(0, 0).Parent() == Address(1, 0); }
    SameLevelContains(Address(1, 0), Address(1, 0));
    SameLevelContains(Address(0, 0), Address(0, 0));
    SameLevelContains(Address(0, 1), Address(0, 1));
    assert Root(hs, [a, b], 0, 0) == a && Root(hs, [a, b], 0, 1) == b;
    assert Root(hs, [a, b], 1, 0) == hs.combine(0, a, b);
    assert ShardsRoot(hs, shards, 0, Address(0, 0), 2) == Ok(a);
    assert ShardsRoot(hs, shards, 0, Address(0, 1), 2).Err?;
  }

  lemma ReannotatedComputes<H>(addr: Address, t: Tree<H>, target: Address, value: H)
    requires Fits(addr.level, t) && target != addr
    ensures Fits(addr.level, t.Reannotate(Some(value)))
    ensures Computes(addr.level, addr.index, t.Reannotate(Some(value)), target) <==>
      Computes(addr.level, addr.index, t, target)
  {
  }

  /** For a target below the shard level the write-back is wrong: with shards of height 1 holding the
      leaves `a` and `b`, asking for the first leaf caches `a` as the hash of the whole shard. */
  lemma BelowShardLevelCachesWrongHash<H>(hs: Hashable<H>, a: H, b: H)
    requires hs.combine(0, a, b) != a
    ensures var shards := [Located(Address(1, 0), Parent(None, Leaf(a, MARKED), Leaf(b, EPHEMERAL)))];
            && ShardsFit(shards, 1) && ShardsConsistent(hs, [a, b], shards, 1)
            && Address(1, 0).Contains(Address(0, 0))
            && var r := RootInternal(hs, shards, 1, Address(1, 0), Nil, Address(0, 0), 2);
               && r == Ok(Rooted(a, Some(Leaf(a, EPHEMERAL))))
               && !CapOk(hs, [a, b], 1, Address(1, 0), r.value.replacement.value)
  {
    var shard := Parent(None, Leaf(a, MARKED), Leaf(b, EPHEMERAL));
    var shards := [Located(Address(1, 0), shard)];
    assert ShardFits(shards[0], 1, 0);
    assert Consistent(hs, [a, b], 0, 0, shard.left) && Consistent(hs, [a, b], 0, 1, shard.right);
    assert Consistent(hs, [a, b], 1, 0, shard);
    assert Climb(Address(0, 0), 1) == Address(1, 0) by { assert Address(0, 0).Parent() == Address(1, 0); }
    assert Start(1, 0) == 0 && Start(1, 1) == 2;
    assert Address(0, 0).Contains(Address(0, 0));
    assert Subtree(1, 0, shard, Address(0, 0)) == Some(shard.left);
    assert RootHash(hs, 0, 0, shard.left, 2) == Ok(a);
    assert Root(hs, [a, b], 0, 0) == a && Root(hs, [a, b], 0, 1) == b;
    assert Root(hs, [a, b], 1, 0) == hs.combine(0, a, b);
  }

  // ---------- The cap and truncation ----------

  /** No hash in the tree covers a leaf at or after a position. */
  ghost predicate HashesEndBy<H>(level: nat, index: nat, t: Tree<H>, n: nat)
    decreases t
  {
    match t
    case Nil => true
    case Leaf(_, _) => End(level, index) <= n
    case Parent(ann, left, right) =>
      && level > 0 && (ann.Some? ==> End(level, index) <= n)
      && HashesEndBy(level - 1, 2 * index, left, n) && HashesEndBy(level - 1, 2 * index + 1, right, n)
  }

  /** A view of the leaves is a view of a prefix exactly when none of its hashes reaches beyond it. */
  lemma {:induction false} ViewOfPrefix<H>(hs: Hashable<H>, leaves: seq<H>, level: nat, index: nat, t: Tree<H>, n: nat)
    requires Consistent(hs, leaves, level, index, t) && n <= |leaves|
    ensures Consistent(hs, Take(leaves, n), level, index, t) <==> HashesEndBy(level, index, t, n)
    decreases t
  {
    if End(level, index) <= n { RootPrefix(hs, leaves, n, level, index); }
    if t.Parent? {
      ViewOfPrefix(hs, leaves, level - 1, 2 * index, t.left, n);
      ViewOfPrefix(hs, leaves, level - 1, 2 * index + 1, t.right, n);
    }
  }
}
