/** `shardtree/src/tree.rs` and `shardtree/src/prunable.rs`: partial trees whose leaves carry retention
    flags, and how they are hashed, united, merged and grown. */
module PrunableTrees {

  import opened Basics
  import opened Merkle

  datatype Flags = Flags(checkpoint: bool, marked: bool, reference: bool)
  {
    function Or(other: Flags): Flags
    {
      Flags(checkpoint || other.checkpoint, marked || other.marked, reference || other.reference)
    }

    function And(other: Flags): Flags
    {
      Flags(checkpoint && other.checkpoint, marked && other.marked, reference && other.reference)
    }

    function Minus(other: Flags): Flags
    {
      Flags(checkpoint && !other.checkpoint, marked && !other.marked, reference && !other.reference)
    }
  }

  const EPHEMERAL := Flags(false, false, false)
  const CHECKPOINT := Flags(true, false, false)
  const MARKED := Flags(false, true, false)
  const REFERENCE := Flags(false, false, true)

  /** A parent may be annotated with its hash; a leaf may stand for a whole pruned subtree; `Nil` is a
      subtree about which nothing is known. */
  datatype Tree<H> = Nil | Leaf(value: H, flags: Flags) | Parent(ann: Option<H>, left: Tree<H>, right: Tree<H>)
  {
    function Reannotate(ann: Option<H>): Tree<H>
    {
      if Parent? then Tree.Parent(ann, left, right) else this
    }

    /** The annotation of a parent, or the value of a leaf. */
    function NodeValue(): Option<H>
    {
      match this case Nil => None case Leaf(v, _) => Some(v) case Parent(a, _, _) => a
    }

    predicate IsMarkedLeaf() { Leaf? && flags.marked }

    predicate HasComputableRoot()
    {
      match this
      case Nil => false
      case Leaf(_, _) => true
      case Parent(a, l, r) => a.Some? || (l.HasComputableRoot() && r.HasComputableRoot())
    }

    /** Whether no further leaf fits to the right. */
    predicate IsFull()
    {
      match this
      case Nil => false
      case Leaf(_, _) => true
      case Parent(a, _, r) => a.Some? || r.IsFull()
    }
  }

  // ---------- Root hash ----------

  /** `accumulate_result_with`: combines two results, or collects the errors of both. */
  function Accumulate<A, B, C>(left: Result<A, seq<Address>>, right: Result<B, seq<Address>>, combine: (A, B) -> C)
      : Result<C, seq<Address>>
  {
    match (left, right)
    case (Ok(a), Ok(b)) => Ok(combine(a, b))
    case (Err(xs), Err(ys)) => Err(xs + ys)
    case (Ok(_), Err(xs)) => Err(xs)
    case (Err(xs), Ok(_)) => Err(xs)
  }

  /** No parent at level 0: what `LocatedTree::from_parts` checks. */
  predicate Fits<H>(level: nat, t: Tree<H>)
  {
    t.Parent? ==> level > 0 && Fits(level - 1, t.left) && Fits(level - 1, t.right)
  }

  lemma {:induction false} FitsMono<H>(low: nat, high: nat, t: Tree<H>)
    requires low <= high && Fits(low, t)
    ensures Fits(high, t)
    decreases t
  {
    if t.Parent? {
      FitsMono(low - 1, high - 1, t.left);
      FitsMono(low - 1, high - 1, t.right);
    }
  }

  /** `root_hash`: the hash of the tree at (level, index) truncated at a position, or the addresses of
      the nodes that are missing for it. */
  function RootHash<H>(hs: Hashable<H>, level: nat, index: nat, t: Tree<H>, truncateAt: nat): Result<H, seq<Address>>
    requires Fits(level, t)
    decreases t
  {
    if truncateAt <= Start(level, index) then Ok(EmptyRoot(hs, level))
    else
      match t
      case Nil => Err([Address(level, index)])
      case Leaf(value, _) => if truncateAt >= End(level, index) then Ok(value) else Err([Address(level, index)])
      case Parent(ann, left, right) =>
        if ann.Some? && truncateAt >= End(level, index) then Ok(ann.value)
        else
          Accumulate(RootHash(hs, level - 1, 2 * index, left, truncateAt),
                     RootHash(hs, level - 1, 2 * index + 1, right, truncateAt),
                     (l, r) => hs.combine(level - 1, l, r))
  }

  /** The tree is a partial view of the full tree over `leaves`: every leaf and every annotation is the
      true hash of a complete subtree. */
  ghost predicate Consistent<H>(hs: Hashable<H>, leaves: seq<H>, level: nat, index: nat, t: Tree<H>)
  {
    match t
    case Nil => true
    case Leaf(value, _) => End(level, index) <= |leaves| && value == Root(hs, leaves, level, index)
    case Parent(ann, left, right) =>
      && level > 0
      && (ann.Some? ==> End(level, index) <= |leaves| && ann.value == Root(hs, leaves, level, index))
      && Consistent(hs, leaves, level - 1, 2 * index, left)
      && Consistent(hs, leaves, level - 1, 2 * index + 1, right)
  }

  lemma {:induction false} ConsistentFits<H>(hs: Hashable<H>, leaves: seq<H>, level: nat, index: nat, t: Tree<H>)
    requires Consistent(hs, leaves, level, index, t)
    ensures Fits(level, t)
    decreases t
  {
    if t.Parent? {
      ConsistentFits(hs, leaves, level - 1, 2 * index, t.left);
      ConsistentFits(hs, leaves, level - 1, 2 * index + 1, t.right);
    }
  }

  lemma Halves(level: nat, index: nat)
    requires level > 0
    ensures Start(level, index) == Start(level - 1, 2 * index) < End(level - 1, 2 * index)
    ensures End(level - 1, 2 * index) == Start(level - 1, 2 * index + 1) < End(level - 1, 2 * index + 1) ==
      End(level, index)
  {
    StartMono(level - 1, 2 * index, 2 * index + 1);
    StartMono(level - 1, 2 * index + 1, 2 * index + 2);
  }

  /** A node that contains another covers its range. */
  lemma {:induction false} ContainsRange(a: Address, b: Address)
    requires a.Contains(b)
    ensures a.RangeStart() <= b.RangeStart() && b.RangeEnd() <= a.RangeEnd()
    decreases a.level - b.level
  {
    if b.level < a.level {
      Halves(b.level + 1, b.index / 2);
      ContainsRange(a, b.Parent());
    }
  }

  /** Whatever root a consistent tree can compute, at any truncation point, is the true one. */
  lemma {:induction false} RootHashSound<H>(hs: Hashable<H>, leaves: seq<H>, level: nat, index: nat, t: Tree<H>,
                                            truncateAt: nat)
    requires Consistent(hs, leaves, level, index, t)
    ensures Fits(level, t)
    ensures var r := RootHash(hs, level, index, t, truncateAt);
            r.Ok? ==> r.value == Root(hs, Take(leaves, truncateAt), level, index)
    decreases t
  {
    ConsistentFits(hs, leaves, level, index, t);
    var cut := Take(leaves, truncateAt);
    if truncateAt <= Start(level, index) {
      RootEmpty(hs, cut, level, index);
    } else {
      if truncateAt >= End(level, index) && t.NodeValue().Some? { RootPrefix(hs, leaves, truncateAt, level, index); }
      if t.Parent? {
        RootHashSound(hs, leaves, level - 1, 2 * index, t.left, truncateAt);
        RootHashSound(hs, leaves, level - 1, 2 * index + 1, t.right, truncateAt);
      }
    }
  }

  /** The untruncated root is computable exactly when `has_computable_root` says so. */
  lemma {:induction false} ComputableIff<H>(hs: Hashable<H>, level: nat, index: nat, t: Tree<H>, truncateAt: nat)
    requires Fits(level, t) && truncateAt >= End(level, index)
    ensures RootHash(hs, level, index, t, truncateAt).Ok? <==> t.HasComputableRoot()
    decreases t
  {
    StartMono(level, index, index + 1);
    if t.Parent? {
      Halves(level, index);
      ComputableIff(hs, level - 1, 2 * index, t.left, truncateAt);
      ComputableIff(hs, level - 1, 2 * index + 1, t.right, truncateAt);
    }
  }

  // ---------- Unite ----------

  /** `unite`: joins two nodes of the given level, pruning two leaves into one if the left one is
      ephemeral and the right one neither marked nor a reference. */
  function Unite<H>(hs: Hashable<H>, level: nat, ann: Option<H>, left: Tree<H>, right: Tree<H>): Tree<H>
  {
    if left.Nil? && right.Nil? && ann.None? then Nil
    else if Prunes(left, right) then Leaf(hs.combine(level, left.value, right.value), right.flags)
    else Parent(ann, left, right)
  }

  predicate Prunes<H>(left: Tree<H>, right: Tree<H>)
  {
    left.Leaf? && right.Leaf? && left.flags == EPHEMERAL && !right.flags.marked && !right.flags.reference
  }

  lemma UniteConsistent<H>(hs: Hashable<H>, leaves: seq<H>, level: nat, index: nat, ann: Option<H>, left: Tree<H>,
                           right: Tree<H>)
    requires Consistent(hs, leaves, level, index, Parent(ann, left, right))
    ensures Consistent(hs, leaves, level, index, Unite(hs, level - 1, ann, left, right))
  {
  }

  lemma UniteFits<H>(hs: Hashable<H>, level: nat, ann: Option<H>, left: Tree<H>, right: Tree<H>)
    requires level > 0 && Fits(level - 1, left) && Fits(level - 1, right)
    ensures Fits(level, Unite(hs, level - 1, ann, left, right))
  {
  }

  /** Uniting never loses a computable root. */
  lemma UniteComputable<H>(hs: Hashable<H>, level: nat, ann: Option<H>, left: Tree<H>, right: Tree<H>)
    requires ann.Some? || (left.HasComputableRoot() && right.HasComputableRoot())
    ensures Unite(hs, level, ann, left, right).HasComputableRoot()
  {
  }

  // ---------- Positions ----------

  /** `max_position`: the greatest position at which a leaf has been observed. */
  function MaxPosition<H>(level: nat, index: nat, t: Tree<H>): Option<nat>
    requires Fits(level, t)
    decreases t
  {
    match t
    case Nil => None
    case Leaf(_, _) => StartMono(level, index, index + 1); Some(End(level, index) - 1)
    case Parent(ann, left, right) =>
      if ann.Some? then StartMono(level, index, index + 1); Some(End(level, index) - 1)
      else
        var r := MaxPosition(level - 1, 2 * index + 1, right);
        if r.Some? then r else MaxPosition(level - 1, 2 * index, left)
  }

  /** Order of `Option<Position>`. */
  predicate AtMost(a: Option<nat>, b: Option<nat>)
  {
    a.None? || (b.Some? && a.value <= b.value)
  }

  lemma {:induction false} MaxPositionBound<H>(level: nat, index: nat, t: Tree<H>)
    requires Fits(level, t)
    ensures MaxPosition(level, index, t).Some? ==>
      Start(level, index) <= MaxPosition(level, index, t).value < End(level, index)
    ensures t.HasComputableRoot() ==> MaxPosition(level, index, t) == Some(End(level, index) - 1)
    decreases t
  {
    StartMono(level, index, index + 1);
    if t.Parent? {
      Halves(level, index);
      MaxPositionBound(level - 1, 2 * index, t.left);
      MaxPositionBound(level - 1, 2 * index + 1, t.right);
    }
  }

  lemma UniteMaxPosition<H>(hs: Hashable<H>, level: nat, index: nat, ann: Option<H>, left: Tree<H>, right: Tree<H>)
    requires level > 0 && Fits(level - 1, left) && Fits(level - 1, right)
    ensures Fits(level, Unite(hs, level - 1, ann, left, right))
    ensures MaxPosition(level, index, Unite(hs, level - 1, ann, left, right)) ==
      MaxPosition(level, index, Parent(ann, left, right))
  {
    Halves(level, index);
  }

  // ---------- Nodes ----------

  /** `LocatedTree::subtree`, below its entry check. */
  function Subtree<H>(level: nat, index: nat, t: Tree<H>, addr: Address): (r: Option<Tree<H>>)
    requires Fits(level, t) && Address(level, index).Contains(addr)
    ensures r.Some? ==> Fits(addr.level, r.value)
    decreases t
  {
    if Address(level, index) == addr then Some(t)
    else if t.Parent? then
      ChildContains(Address(level, index), addr);
      if Address(level - 1, 2 * index).Contains(addr) then Subtree(level - 1, 2 * index, t.left, addr)
      else Subtree(level - 1, 2 * index + 1, t.right, addr)
    else None
  }

  // ---------- Merge ----------

  datatype MergeError = MergeConflict(addr: Address) | TreeMalformed(addr: Address)

  /** `merge_checked` */
  function Merge<H(==)>(hs: Hashable<H>, level: nat, index: nat, t0: Tree<H>, t1: Tree<H>): Result<Tree<H>, MergeError>
    requires Fits(level, t0) && Fits(level, t1)
    decreases t0, t1
  {
    var addr, noDefaultFill := Address(level, index), End(level, index);
    if t0.Nil? then Ok(t1)
    else if t1.Nil? then Ok(t0)
    else if t0.Leaf? && t1.Leaf? then
      if t0.value == t1.value then Ok(Leaf(t0.value, t0.flags.Or(t1.flags))) else Err(MergeConflict(addr))
    else if t0.Leaf? then MergeLeaf(hs, level, index, t0.value, t1)
    else if t1.Leaf? then MergeLeaf(hs, level, index, t1.value, t0)
    else
      var lroot, rroot := RootHash(hs, level, index, t0, noDefaultFill), RootHash(hs, level, index, t1, noDefaultFill);
      if lroot.Ok? && rroot.Ok? && lroot.value != rroot.value then Err(MergeConflict(addr))
      else
        match Merge(hs, level - 1, 2 * index, t0.left, t1.left)
        case Err(e) => Err(e)
        case Ok(left) =>
          match Merge(hs, level - 1, 2 * index + 1, t0.right, t1.right)
          case Err(e) => Err(e)
          case Ok(right) => Ok(Unite(hs, level - 1, if t0.ann.Some? then t0.ann else t1.ann, left, right))
  }

  /** Merging a leaf with a parent: the leaf's value becomes the parent's annotation. */
  function MergeLeaf<H(==)>(hs: Hashable<H>, level: nat, index: nat, value: H, parent: Tree<H>)
      : Result<Tree<H>, MergeError>
    requires Fits(level, parent)
  {
    var hash := RootHash(hs, level, index, parent, End(level, index));
    if hash.Ok? && hash.value != value then Err(MergeConflict(Address(level, index)))
    else Ok(parent.Reannotate(Some(value)))
  }

  /** Two partial views of the same tree always merge; the result is again a view of that tree and keeps
      every root either of them could compute. */
  lemma {:induction false} MergeSucceeds<H>(hs: Hashable<H>, leaves: seq<H>, level: nat, index: nat, t0: Tree<H>,
                                            t1: Tree<H>)
    requires Consistent(hs, leaves, level, index, t0) && Consistent(hs, leaves, level, index, t1)
    ensures Fits(level, t0) && Fits(level, t1)
    ensures var r := Merge(hs, level, index, t0, t1);
            && r.Ok?
            && Consistent(hs, leaves, level, index, r.value)
            && (t0.HasComputableRoot() || t1.HasComputableRoot() ==> r.value.HasComputableRoot())
    decreases t0, t1
  {
    var full := End(level, index);
    RootHashSound(hs, leaves, level, index, t0, full);
    RootHashSound(hs, leaves, level, index, t1, full);
    if t0.Leaf? || t1.Leaf? { RootPrefix(hs, leaves, full, level, index); }
    if t0.Parent? && t1.Parent? {
      MergeSucceeds(hs, leaves, level - 1, 2 * index, t0.left, t1.left);
      MergeSucceeds(hs, leaves, level - 1, 2 * index + 1, t0.right, t1.right);
      var left := Merge(hs, level - 1, 2 * index, t0.left, t1.left).value;
      var right := Merge(hs, level - 1, 2 * index + 1, t0.right, t1.right).value;
      var ann := if t0.ann.Some? then t0.ann else t1.ann;
      UniteConsistent(hs, leaves, level, index, ann, left, right);
    }
  }

  /** Merging never lowers the maximum position. */
  lemma {:induction false} MergeGrows<H>(hs: Hashable<H>, level: nat, index: nat, t0: Tree<H>, t1: Tree<H>)
    requires Fits(level, t0) && Fits(level, t1)
    ensures var r := Merge(hs, level, index, t0, t1);
            r.Ok? ==>
              && Fits(level, r.value)
              && AtMost(MaxPosition(level, index, t0), MaxPosition(level, index, r.value))
              && AtMost(MaxPosition(level, index, t1), MaxPosition(level, index, r.value))
    decreases t0, t1
  {
    MaxPositionBound(level, index, t0);
    MaxPositionBound(level, index, t1);
    if t0.Parent? && t1.Parent? {
      MergeGrows(hs, level - 1, 2 * index, t0.left, t1.left);
      MergeGrows(hs, level - 1, 2 * index + 1, t0.right, t1.right);
      var left, right := Merge(hs, level - 1, 2 * index, t0.left, t1.left),
        Merge(hs, level - 1, 2 * index + 1, t0.right, t1.right);
      if left.Ok? && right.Ok? {
        var ann := if t0.ann.Some? then t0.ann else t1.ann;
        UniteFits(hs, level, ann, left.value, right.value);
        UnitedGrows(hs, level, index, ann, t0, left.value, right.value);
        UnitedGrows(hs, level, index, ann, t1, left.value, right.value);
      }
    }
  }

  /** Uniting children that have grown. */
  lemma UnitedGrows<H>(hs: Hashable<H>, level: nat, index: nat, ann: Option<H>, t: Tree<H>, left: Tree<H>,
                       right: Tree<H>)
    requires Fits(level, t) && t.Parent? && Fits(level - 1, left) && Fits(level - 1, right)
      && (t.ann.Some? ==> ann.Some?)
    requires AtMost(MaxPosition(level - 1, 2 * index, t.left), MaxPosition(level - 1, 2 * index, left))
    requires AtMost(MaxPosition(level - 1, 2 * index + 1, t.right), MaxPosition(level - 1, 2 * index + 1, right))
    ensures Fits(level, Unite(hs, level - 1, ann, left, right))
    ensures AtMost(MaxPosition(level, index, t), MaxPosition(level, index, Unite(hs, level - 1, ann, left, right)))
  {
    UniteMaxPosition(hs, level, index, ann, left, right);
    MaxPositionBound(level, index, t);
    Halves(level, index);
    MaxPositionBound(level - 1, 2 * index, t.left);
    MaxPositionBound(level - 1, 2 * index + 1, right);
  }

  /** For views of the same tree, the order of merging does not matter. */
  lemma {:induction false} MergeCommutes<H>(hs: Hashable<H>, leaves: seq<H>, level: nat, index: nat, t0: Tree<H>,
                                            t1: Tree<H>)
    requires Consistent(hs, leaves, level, index, t0) && Consistent(hs, leaves, level, index, t1)
    ensures Fits(level, t0) && Fits(level, t1)
    ensures Merge(hs, level, index, t0, t1) == Merge(hs, level, index, t1, t0)
    decreases t0, t1
  {
    ConsistentFits(hs, leaves, level, index, t0);
    ConsistentFits(hs, leaves, level, index, t1);
    if t0.Parent? && t1.Parent? {
      MergeCommutes(hs, leaves, level - 1, 2 * index, t0.left, t1.left);
      MergeCommutes(hs, leaves, level - 1, 2 * index + 1, t0.right, t1.right);
    }
  }

  // ---------- Insert ----------

  datatype Located<H> = Located(addr: Address, root: Tree<H>)

  datatype IncompleteAt = IncompleteAt(addr: Address, requiredForWitness: bool)

  datatype InsertionError =
    | Conflict(addr: Address)
    | InputMalformed(addr: Address)
    | NotContained(addr: Address)
    | OutOfRange(position: nat)

  function FromMergeError(e: MergeError): InsertionError
  {
    match e case MergeConflict(addr) => Conflict(addr) case TreeMalformed(addr) => InputMalformed(addr)
  }

  /** Surrounds a subtree with empty siblings up to the given level. */
  function Extend<H>(node: Located<H>, level: nat): Tree<H>
    decreases level - node.addr.level
  {
    if node.addr.level >= level then node.root
    else Extend(Located(node.addr.Parent(), if node.addr.IsRightChild() then Parent(None, Nil, node.root)
                        else Parent(None, node.root, Nil)), level)
  }

  /** The siblings left empty by `Extend`. */
  function Missing(addr: Address, level: nat, containsMarked: bool): seq<IncompleteAt>
    decreases level - addr.level
  {
    if addr.level >= level then []
      else [IncompleteAt(addr.Sibling(), containsMarked)] + Missing(addr.Parent(), level, containsMarked)
  }

  /** The `replacement` closure of `insert_subtree`. */
  method Replacement<H>(level: nat, ann: Option<H>, subtree: Located<H>, containsMarked: bool)
    returns (root: Tree<H>, incomplete: seq<IncompleteAt>)
    ensures root == Extend(subtree, level).Reannotate(ann)
    ensures incomplete == Missing(subtree.addr, level, containsMarked)
  {
    var node := subtree;
    incomplete := [];
    while node.addr.level < level
      invariant Extend(node, level) == Extend(subtree, level)
      invariant incomplete + Missing(node.addr, level, containsMarked) == Missing(subtree.addr, level, containsMarked)
      decreases level - node.addr.level
    {
      incomplete := incomplete + [IncompleteAt(node.addr.Sibling(), containsMarked)];
      var full := node.root;
      node := Located(node.addr.Parent(), if node.addr.IsRightChild() then Parent(None, Nil, full)
                      else Parent(None, full, Nil));
    }
    root := node.root.Reannotate(ann);
  }

  /** Flags of a leaf that replaces a leaf: references survive only if both are references. */
  function ReplacedFlags(old_: Flags, new_: Flags): Flags
  {
    old_.Or(new_).Minus(REFERENCE).Or(REFERENCE.And(old_).And(new_))
  }

  /** `insert_subtree`, below its entry checks. */
  function Insert<H(==)>(hs: Hashable<H>, level: nat, index: nat, into: Tree<H>, subtree: Located<H>,
                         containsMarked: bool)
    : Result<(Tree<H>, seq<IncompleteAt>), InsertionError>
    requires Fits(level, into) && Fits(subtree.addr.level, subtree.root)
    requires Address(level, index).Contains(subtree.addr)
    decreases into
  {
    var here := Address(level, index) == subtree.addr;
    if subtree.root.Nil? then Ok((into, []))
    else
      match into
      case Nil => Ok((Extend(subtree, level).Reannotate(None), Missing(subtree.addr, level, containsMarked)))
      case Leaf(value, flags) =>
        if !here then Ok((Extend(subtree, level).Reannotate(Some(value)), Missing(subtree.addr, level, containsMarked)))
        else if subtree.root.HasComputableRoot() then
          if subtree.root.Leaf? then
            if subtree.root.value == value then Ok((Leaf(value, ReplacedFlags(flags, subtree.root.flags)), []))
            else Err(Conflict(subtree.addr))
          else Ok((subtree.root, []))
        else if subtree.root.NodeValue().None? || subtree.root.NodeValue().value == value then
          Ok((subtree.root.Reannotate(Some(value)), []))
        else Err(Conflict(subtree.addr))
      case Parent(ann, left, right) =>
        if here then
          match Merge(hs, level, index, into, subtree.root)
          case Err(e) => Err(FromMergeError(e))
          case Ok(tree) => Ok((tree, []))
        else
          ChildContains(Address(level, index), subtree.addr);
          if Address(level - 1, 2 * index).Contains(subtree.addr) then
            match Insert(hs, level - 1, 2 * index, left, subtree, containsMarked)
            case Err(e) => Err(e)
            case Ok((newLeft, incomplete)) => Ok((Unite(hs, level - 1, ann, newLeft, right), incomplete))
          else
            match Insert(hs, level - 1, 2 * index + 1, right, subtree, containsMarked)
            case Err(e) => Err(e)
            case Ok((newRight, incomplete)) => Ok((Unite(hs, level - 1, ann, left, newRight), incomplete))
  }

  /** `insert_subtree` */
  function InsertSubtree<H(==)>(hs: Hashable<H>, into: Located<H>, subtree: Located<H>, containsMarked: bool)
    : Result<(Located<H>, seq<IncompleteAt>), InsertionError>
    requires Fits(into.addr.level, into.root) && Fits(subtree.addr.level, subtree.root)
  {
    if !into.addr.Contains(subtree.addr) then Err(NotContained(subtree.addr))
    else
      match Insert(hs, into.addr.level, into.addr.index, into.root, subtree, containsMarked)
      case Err(e) => Err(e)
      case Ok((root, incomplete)) => Ok((Located(into.addr, root), incomplete))
  }

  lemma {:induction false} ExtendConsistent<H>(hs: Hashable<H>, leaves: seq<H>, node: Located<H>, level: nat)
    requires node.addr.level <= level && Consistent(hs, leaves, node.addr.level, node.addr.index, node.root)
    ensures Consistent(hs, leaves, level, Climb(node.addr, level).index, Extend(node, level))
    ensures node.addr.level < level ==> Extend(node, level).Parent?
    ensures !node.root.Nil? ==> !Extend(node, level).Nil?
    decreases level - node.addr.level
  {
    if node.addr.level < level {
      var up := Located(node.addr.Parent(), if node.addr.IsRightChild() then Parent(None, Nil, node.root)
                        else Parent(None, node.root, Nil));
      assert 2 * up.addr.index == if node.addr.IsRightChild() then node.addr.index - 1 else node.addr.index;
      ExtendConsistent(hs, leaves, up, level);
    }
  }

  /** Inserting one view of a tree into another never fails; the result is a view of that tree, and a
      full root that could be computed before still can. */
  lemma {:induction false} InsertSucceeds<H>(hs: Hashable<H>, leaves: seq<H>, level: nat, index: nat, into: Tree<H>,
                                             subtree: Located<H>, containsMarked: bool)
    requires Consistent(hs, leaves, level, index, into)
    requires Consistent(hs, leaves, subtree.addr.level, subtree.addr.index, subtree.root)
    requires Address(level, index).Contains(subtree.addr)
    ensures Fits(level, into) && Fits(subtree.addr.level, subtree.root)
    ensures var r := Insert(hs, level, index, into, subtree, containsMarked);
            && r.Ok? && Consistent(hs, leaves, level, index, r.value.0)
            && (into.HasComputableRoot() ==> r.value.0.HasComputableRoot())
    decreases into
  {
    ConsistentFits(hs, leaves, level, index, into);
    ConsistentFits(hs, leaves, subtree.addr.level, subtree.addr.index, subtree.root);
    if subtree.root.Nil? {
    } else if !into.Parent? {
      ExtendConsistent(hs, leaves, subtree, level);
    } else if Address(level, index) == subtree.addr {
      MergeSucceeds(hs, leaves, level, index, into, subtree.root);
    } else {
      ChildContains(Address(level, index), subtree.addr);
      if Address(level - 1, 2 * index).Contains(subtree.addr) {
        InsertSucceeds(hs, leaves, level - 1, 2 * index, into.left, subtree, containsMarked);
        var left := Insert(hs, level - 1, 2 * index, into.left, subtree, containsMarked).value.0;
        UniteConsistent(hs, leaves, level, index, into.ann, left, into.right);
      } else {
        InsertSucceeds(hs, leaves, level - 1, 2 * index + 1, into.right, subtree, containsMarked);
        var right := Insert(hs, level - 1, 2 * index + 1, into.right, subtree, containsMarked).value.0;
        UniteConsistent(hs, leaves, level, index, into.ann, into.left, right);
      }
    }
  }

  lemma {:induction false} ExtendFits<H>(node: Located<H>, level: nat)
    requires node.addr.level <= level && Fits(node.addr.level, node.root)
    ensures Fits(level, Extend(node, level))
    ensures node.addr.level < level ==> Extend(node, level).Parent?
    decreases level - node.addr.level
  {
    if node.addr.level < level {
      ExtendFits(Located(node.addr.Parent(), if node.addr.IsRightChild() then Parent(None, Nil, node.root)
                         else Parent(None, node.root, Nil)), level);
    }
  }

  /** The assertion that closes `insert_subtree` never fails: no insertion lowers the maximum position,
      whatever the two trees hold. */
  lemma {:induction false} InsertGrows<H>(hs: Hashable<H>, level: nat, index: nat, into: Tree<H>, subtree: Located<H>,
                                          containsMarked: bool)
    requires Fits(level, into) && Fits(subtree.addr.level, subtree.root)
    requires Address(level, index).Contains(subtree.addr)
    ensures var r := Insert(hs, level, index, into, subtree, containsMarked);
            r.Ok? ==>
              Fits(level, r.value.0) && AtMost(MaxPosition(level, index, into), MaxPosition(level, index, r.value.0))
    decreases into
  {
    hide Start;
    MaxPositionBound(level, index, into);
    if Address(level, index) == subtree.addr { MaxPositionBound(level, index, subtree.root); }
    ExtendFits(subtree, level);
    if into.Parent? && !subtree.root.Nil? {
      if Address(level, index) == subtree.addr {
        MergeGrows(hs, level, index, into, subtree.root);
      } else {
        ChildContains(Address(level, index), subtree.addr);
        Halves(level, index);
        MaxPositionBound(level - 1, 2 * index, into.left);
        if Address(level - 1, 2 * index).Contains(subtree.addr) {
          InsertGrows(hs, level - 1, 2 * index, into.left, subtree, containsMarked);
          var left := Insert(hs, level - 1, 2 * index, into.left, subtree, containsMarked);
          if left.Ok? { UniteMaxPosition(hs, level, index, into.ann, left.value.0, into.right); }
        } else {
          InsertGrows(hs, level - 1, 2 * index + 1, into.right, subtree, containsMarked);
          var right := Insert(hs, level - 1, 2 * index + 1, into.right, subtree, containsMarked);
          if right.Ok? {
            UniteMaxPosition(hs, level, index, into.ann, into.left, right.value.0);
            MaxPositionBound(level - 1, 2 * index + 1, right.value.0);
          }
        }
      }
    }
  }
}
